/** The Y86-64 machine: NextI is a step of lab4/y64sim.c on bytes; Exec is what an instruction means, without its encoding. */
module Y86Isa {
  import opened Prelude
  import opened Bytes
  import opened Words

  const REG_RSP := 4
  const REG_NONE := 15

  const I_HALT := 0
  const I_NOP := 1
  const I_RRMOVQ := 2
  const I_IRMOVQ := 3
  const I_RMMOVQ := 4
  const I_MRMOVQ := 5
  const I_ALU := 6
  const I_JMP := 7
  const I_CALL := 8
  const I_RET := 9
  const I_PUSHQ := 10
  const I_POPQ := 11

  const A_NONE := 4
  const C_G := 6

  datatype Stat = AOK | HLT | ADR | INS

  datatype Flags = Flags(zf: bool, sf: bool, of: bool)

  const DEFAULT_CC := Flags(true, false, false)

  type Regs = s: seq<Long> | |s| == 15 witness seq(15, i => 0)

  datatype State = State(pc: int, regs: Regs, cc: Flags, mem: seq<Byte>)

  // ---------- memory and registers ----------

  function GetByte(m: seq<Byte>, addr: int): Option<Byte> {
    if addr < 0 || addr >= |m| then None else Some(m[addr])
  }

  function GetLong(m: seq<Byte>, addr: int): Option<Long> {
    if addr < 0 || addr + 8 > |m| then None else Some(BytesLong(m[addr..addr + 8]))
  }

  function SetLong(m: seq<Byte>, addr: int, v: Long): Option<seq<Byte>> {
    if addr < 0 || addr + 8 > |m| then None else Some(Splice(m, addr, LongBytes(v)))
  }

  function GetReg(r: Regs, id: int): Long {
    if 0 <= id < REG_NONE then r[id] else 0
  }

  function SetReg(r: Regs, id: int, v: Long): Regs {
    if 0 <= id < REG_NONE then r[id := v] else r
  }

  // ---------- the arithmetic unit ----------

  function ComputeAlu(op: int, a: Long, b: Long): Long {
    match op
    case 0 => Wrap(a + b)
    case 1 => Wrap(b - a)
    case 2 => And(a, b)
    case 3 => Xor(a, b)
    case _ => 0
  }

  /** The zero flag sees the whole result, sign and overflow only the low halves. */
  function ComputeCc(op: int, a: Long, b: Long, val: Long): Flags {
    var la, lb, lv := Int32(a), Int32(b), Int32(val);
    Flags(val == 0, lv < 0,
          if op == 0 then (la < 0 && lb < 0 && lv > 0) || (la > 0 && lb > 0 && lv < 0)
          else if op == 1 then (la < 0 && lb > 0 && lv < 0) || (la > 0 && lb < 0 && lv > 0)
          else false)
  }

  predicate CondDoit(cc: Flags, cond: int) {
    match cond
    case 0 => true
    case 1 => (cc.sf != cc.of) || cc.zf
    case 2 => cc.sf != cc.of
    case 3 => cc.zf
    case 4 => !cc.zf
    case 5 => cc.sf == cc.of
    case 6 => cc.sf == cc.of && !cc.zf
    case _ => false
  }

  // ---------- one step from bytes ----------

  datatype Fields = Fields(icode: int, ifun: int, ra: int, rb: int, imm: Long, next: int)

  function High(b: Byte): int { b / 16 }

  function Low(b: Byte): int { b % 16 }

  predicate HasRegs(icode: int) {
    icode !in {I_HALT, I_NOP, I_JMP, I_CALL, I_RET}
  }

  predicate HasImm(icode: int) {
    icode in {I_IRMOVQ, I_RMMOVQ, I_MRMOVQ, I_JMP, I_CALL}
  }

  /** Code and function, then register byte, then immediate, as far as the code needs them. */
  function Fetch(s: State): Option<Fields> {
    match GetByte(s.mem, s.pc)
    case None => None
    case Some(b0) =>
      var icode := High(b0);
      var regs := if HasRegs(icode) then GetByte(s.mem, s.pc + 1) else Some(255);
      if regs == None then None
      else
        var p := s.pc + if HasRegs(icode) then 2 else 1;
        var imm := if HasImm(icode) then GetLong(s.mem, p) else Some(0);
        if imm == None then None
        else Some(Fields(icode, Low(b0), High(regs.value), Low(regs.value), imm.value, p + if HasImm(icode) then 8 else 0))
  }

  function Store(s: State, addr: int, v: Long, next: int): (State, Stat) {
    match SetLong(s.mem, addr, v)
    case None => (s, ADR)
    case Some(m) => (s.(mem := m, pc := next), AOK)
  }

  /** call and pushq: the stack pointer moves even when the store then fails. */
  function PushLong(s: State, v: Long, next: int): (State, Stat) {
    var rsp := ComputeAlu(1, 8, GetReg(s.regs, REG_RSP));
    Store(s.(regs := SetReg(s.regs, REG_RSP, rsp)), rsp, v, next)
  }

  function Execute(s: State, f: Fields): (State, Stat) {
    var va, vb := GetReg(s.regs, f.ra), GetReg(s.regs, f.rb);
    match f.icode
    case 0 => (s, HLT)
    case 1 => (s.(pc := f.next), AOK)
    case 2 => (s.(regs := if CondDoit(s.cc, f.ifun) then SetReg(s.regs, f.rb, va) else s.regs, pc := f.next), AOK)
    case 3 => (s.(regs := SetReg(s.regs, f.rb, f.imm), pc := f.next), AOK)
    case 4 => Store(s, ComputeAlu(0, vb, f.imm), va, f.next)
    case 5 =>
      (match GetLong(s.mem, ComputeAlu(0, vb, f.imm))
       case None => (s, ADR)
       case Some(v) => (s.(regs := SetReg(s.regs, f.ra, v), pc := f.next), AOK))
    case 6 =>
      if f.ifun >= A_NONE then (s, INS)
      else
        var val := ComputeAlu(f.ifun, va, vb);
        (s.(cc := ComputeCc(f.ifun, va, vb, val), regs := SetReg(s.regs, f.rb, val), pc := f.next), AOK)
    case 7 =>
      if f.ifun > C_G then (s, INS)
      else (s.(pc := if CondDoit(s.cc, f.ifun) then f.imm else f.next), AOK)
    case 8 => PushLong(s, Wrap(f.next), f.imm)
    case 9 =>
      var rsp := GetReg(s.regs, REG_RSP);
      (match GetLong(s.mem, rsp)
       case None => (s, ADR)
       case Some(v) => (s.(regs := SetReg(s.regs, REG_RSP, ComputeAlu(0, 8, rsp)), pc := v), AOK))
    case 10 => PushLong(s, va, f.next)
    case 11 =>
      var rsp := GetReg(s.regs, REG_RSP);
      (match GetLong(s.mem, rsp)
       case None => (s, ADR)
       case Some(v) => (s.(regs := SetReg(SetReg(s.regs, REG_RSP, ComputeAlu(0, 8, rsp)), f.ra, v), pc := f.next), AOK))
    case _ => (s, INS)
  }

  function NextI(s: State): (State, Stat) {
    match Fetch(s)
    case None => (s, ADR)
    case Some(f) => Execute(s, f)
  }

  // ---------- instructions and their encoding ----------

  type Reg = r: int | 0 <= r < REG_NONE

  type Cond = c: int | 0 <= c <= C_G

  type AluOp = a: int | 0 <= a < A_NONE

  /** An instruction over operands V: source operands before assembly, words after. */
  datatype Instr<V> =
    | Halt | Nop | Ret
    | Rrmovq(cond: Cond, ra: Reg, rb: Reg)
    | Irmovq(v: V, rb: Reg)
    | Rmmovq(ra: Reg, disp: Long, rb: Reg)
    | Mrmovq(disp: Long, rb: Reg, ra: Reg)
    | Alu(op: AluOp, ra: Reg, rb: Reg)
    | Jump(cond: Cond, dest: V)
    | Call(dest: V)
    | Pushq(ra: Reg)
    | Popq(ra: Reg)

  /** The two halves of the code byte that the instruction table gives. */
  function CodeOf<V>(i: Instr<V>): (int, int) {
    match i
    case Halt => (I_HALT, 0)
    case Nop => (I_NOP, 0)
    case Ret => (I_RET, 0)
    case Rrmovq(c, _, _) => (I_RRMOVQ, c)
    case Irmovq(_, _) => (I_IRMOVQ, 0)
    case Rmmovq(_, _, _) => (I_RMMOVQ, 0)
    case Mrmovq(_, _, _) => (I_MRMOVQ, 0)
    case Alu(op, _, _) => (I_ALU, op)
    case Jump(c, _) => (I_JMP, c)
    case Call(_) => (I_CALL, 0)
    case Pushq(_) => (I_PUSHQ, 0)
    case Popq(_) => (I_POPQ, 0)
  }

  function SizeOf<V>(i: Instr<V>): nat {
    match i
    case Halt | Nop | Ret => 1
    case Rrmovq(_, _, _) | Alu(_, _, _) | Pushq(_) | Popq(_) => 2
    case Jump(_, _) | Call(_) => 9
    case Irmovq(_, _) | Rmmovq(_, _, _) | Mrmovq(_, _, _) => 10
  }

  function HPack(hi: int, lo: int): Byte
    requires 0 <= hi < 16 && 0 <= lo < 16
  {
    hi * 16 + lo
  }

  function Encode(i: Instr<Long>): (bs: seq<Byte>)
    ensures |bs| == SizeOf(i)
  {
    var head := [HPack(CodeOf(i).0, CodeOf(i).1)];
    match i
    case Halt | Nop | Ret => head
    case Rrmovq(_, ra, rb) => head + [HPack(ra, rb)]
    case Irmovq(v, rb) => head + [HPack(15, rb)] + LongBytes(v)
    case Rmmovq(ra, d, rb) => head + [HPack(ra, rb)] + LongBytes(d)
    case Mrmovq(d, rb, ra) => head + [HPack(ra, rb)] + LongBytes(d)
    case Alu(_, ra, rb) => head + [HPack(ra, rb)]
    case Jump(_, d) => head + LongBytes(d)
    case Call(d) => head + LongBytes(d)
    case Pushq(ra) => head + [HPack(ra, 15)]
    case Popq(ra) => head + [HPack(ra, 15)]
  }

  /** The fields an instruction at pc means. */
  function FieldsOf(i: Instr<Long>, pc: int): Fields {
    var (icode, ifun) := CodeOf(i);
    var next := pc + SizeOf(i);
    match i
    case Halt | Nop | Ret => Fields(icode, ifun, 15, 15, 0, next)
    case Rrmovq(_, ra, rb) => Fields(icode, ifun, ra, rb, 0, next)
    case Irmovq(v, rb) => Fields(icode, ifun, 15, rb, v, next)
    case Rmmovq(ra, d, rb) => Fields(icode, ifun, ra, rb, d, next)
    case Mrmovq(d, rb, ra) => Fields(icode, ifun, ra, rb, d, next)
    case Alu(_, ra, rb) => Fields(icode, ifun, ra, rb, 0, next)
    case Jump(_, d) => Fields(icode, ifun, 15, 15, d, next)
    case Call(d) => Fields(icode, ifun, 15, 15, d, next)
    case Pushq(ra) => Fields(icode, ifun, ra, 15, 0, next)
    case Popq(ra) => Fields(icode, ifun, ra, 15, 0, next)
  }

  /** Memory m holds the bytes bs at p. */
  predicate Holds(m: seq<Byte>, p: int, bs: seq<Byte>) {
    0 <= p && p + |bs| <= |m| && m[p..p + |bs|] == bs
  }

  lemma HoldsAt(m: seq<Byte>, p: int, bs: seq<Byte>, k: int, n: int)
    requires Holds(m, p, bs) && 0 <= k && 0 <= n && k + n <= |bs|
    ensures m[p + k..p + k + n] == bs[k..k + n]
    ensures n > 0 ==> m[p + k] == bs[k]
  {
    forall j | 0 <= j < |bs| ensures m[p + j] == bs[j] { assert m[p..p + |bs|][j] == bs[j]; }
    assert m[p + k..p + k + n] == bs[k..k + n];
  }

  /** The bytes of an encoding: code byte, register byte, immediate, as the code calls for them. */
  lemma EncodeParts(i: Instr<Long>, pc: int)
    ensures var f, bs := FieldsOf(i, pc), Encode(i);
      var k := if HasRegs(f.icode) then 2 else 1;
      0 <= f.icode < 16 && 0 <= f.ifun < 16 && 0 <= f.ra < 16 && 0 <= f.rb < 16 && f.next == pc + |bs|
      && bs[0] == HPack(f.icode, f.ifun)
      && (if HasRegs(f.icode) then |bs| >= 2 && bs[1] == HPack(f.ra, f.rb) else f.ra == 15 && f.rb == 15)
      && (if HasImm(f.icode) then |bs| == k + 8 && bs[k..k + 8] == LongBytes(f.imm) else |bs| == k && f.imm == 0)
  {
    hide LongBytes, HPack;
    var bs := Encode(i);
    match i
    case Irmovq(v, _) => assert bs[2..10] == LongBytes(v);
    case Rmmovq(_, v, _) => assert bs[2..10] == LongBytes(v);
    case Mrmovq(v, _, _) => assert bs[2..10] == LongBytes(v);
    case Jump(_, v) => assert bs[1..9] == LongBytes(v);
    case Call(v) => assert bs[1..9] == LongBytes(v);
    case _ =>
  }

  lemma UnpackByte(hi: int, lo: int)
    requires 0 <= hi < 16 && 0 <= lo < 16
    ensures High(HPack(hi, lo)) == hi && Low(HPack(hi, lo)) == lo
  {
  }

  lemma FetchFrom(s: State, f: Fields)
    requires 0 <= f.icode < 16 && 0 <= f.ifun < 16 && 0 <= f.ra < 16 && 0 <= f.rb < 16
    requires GetByte(s.mem, s.pc) == Some(HPack(f.icode, f.ifun))
    requires if HasRegs(f.icode) then GetByte(s.mem, s.pc + 1) == Some(HPack(f.ra, f.rb)) else f.ra == f.rb == 15
    requires var k := if HasRegs(f.icode) then 2 else 1;
      if HasImm(f.icode) then GetLong(s.mem, s.pc + k) == Some(f.imm) && f.next == s.pc + k + 8
      else f.imm == 0 && f.next == s.pc + k
    ensures Fetch(s) == Some(f)
  {
    assert High(255) == 15 && Low(255) == 15;
    UnpackByte(f.icode, f.ifun);
    UnpackByte(f.ra, f.rb);
    hide GetByte, GetLong, HasRegs, HasImm, High, Low, HPack;
  }

  /** Decoding undoes encoding, wherever the bytes lie; the next instruction follows directly. */
  lemma DecodeEncode(i: Instr<Long>, s: State)
    requires Holds(s.mem, s.pc, Encode(i))
    ensures Fetch(s) == Some(FieldsOf(i, s.pc))
  {
    hide Encode, LongBytes, BytesLong, HPack, FieldsOf, SizeOf, CodeOf, Fetch;
    var bs, f := Encode(i), FieldsOf(i, s.pc);
    EncodeParts(i, s.pc);
    HoldsAt(s.mem, s.pc, bs, 0, 1);
    if HasRegs(f.icode) { HoldsAt(s.mem, s.pc, bs, 1, 1); }
    if HasImm(f.icode) {
      HoldsAt(s.mem, s.pc, bs, if HasRegs(f.icode) then 2 else 1, 8);
      BytesOfLong(f.imm);
    }
    FetchFrom(s, f);
  }

  // ---------- meaning without bytes ----------

  function Goto(s: State, pc: int): (State, Stat) { (s.(pc := pc), AOK) }

  function StoreWord(s: State, addr: int, v: Long, next: int): (State, Stat) {
    if 0 <= addr <= |s.mem| - 8 then (s.(mem := Splice(s.mem, addr, LongBytes(v)), pc := next), AOK) else (s, ADR)
  }

  predicate Readable(s: State, addr: int) { 0 <= addr <= |s.mem| - 8 }

  function WordAt(s: State, addr: int): Long
    requires Readable(s, addr)
  {
    BytesLong(s.mem[addr..addr + 8])
  }

  function PushWord(s: State, v: Long, next: int): (State, Stat) {
    var top := Wrap(Rsp(s) - 8);
    StoreWord(s.(regs := s.regs[REG_RSP := top]), top, v, next)
  }

  function Rsp(s: State): int { s.regs[REG_RSP] }

  function Popped(s: State): Regs { s.regs[REG_RSP := Wrap(Rsp(s) + 8)] }

  /** What instruction i does to s, when the next instruction is at next. */
  function Exec(i: Instr<Long>, s: State, next: Long): (State, Stat) {
    match i
    case Halt => (s, HLT)
    case Nop => Goto(s, next)
    case Rrmovq(c, ra, rb) => Goto(if CondDoit(s.cc, c) then s.(regs := s.regs[rb := s.regs[ra]]) else s, next)
    case Irmovq(v, rb) => Goto(s.(regs := s.regs[rb := v]), next)
    case Rmmovq(ra, d, rb) => StoreWord(s, Wrap(s.regs[rb] + d), s.regs[ra], next)
    case Mrmovq(d, rb, ra) =>
      var addr := Wrap(s.regs[rb] + d);
      if Readable(s, addr) then Goto(s.(regs := s.regs[ra := WordAt(s, addr)]), next) else (s, ADR)
    case Alu(op, ra, rb) =>
      var val := ComputeAlu(op, s.regs[ra], s.regs[rb]);
      Goto(s.(regs := s.regs[rb := val], cc := ComputeCc(op, s.regs[ra], s.regs[rb], val)), next)
    case Jump(c, d) => Goto(s, if CondDoit(s.cc, c) then d else next)
    case Call(d) => PushWord(s, next, d)
    case Ret => if Readable(s, Rsp(s)) then Goto(s.(regs := Popped(s)), WordAt(s, Rsp(s))) else (s, ADR)
    case Pushq(ra) => PushWord(s, s.regs[ra], next)
    case Popq(ra) => if Readable(s, Rsp(s)) then Goto(s.(regs := Popped(s)[ra := WordAt(s, Rsp(s))]), next) else (s, ADR)
  }

  /** Sums of words, as the ALU forms them. */
  lemma AluAdds(a: Long, b: Long)
    ensures ComputeAlu(0, a, b) == Wrap(a + b) && ComputeAlu(1, a, b) == Wrap(b - a)
  {
  }

  lemma ExecuteStack(i: Instr<Long>, s: State, pc: int, next: Long)
    requires next == pc + SizeOf(i) && (i.Call? || i.Ret? || i.Pushq? || i.Popq?)
    ensures Execute(s, FieldsOf(i, pc)) == Exec(i, s, next)
  {
    hide Splice, LongBytes, BytesLong, ComputeAlu, Wrap;
    AluAdds(8, s.regs[REG_RSP]);
    WrapLong(next);
  }

  lemma ExecuteMove(i: Instr<Long>, s: State, pc: int, next: Long)
    requires next == pc + SizeOf(i) && (i.Rrmovq? || i.Irmovq? || i.Rmmovq? || i.Mrmovq?)
    ensures Execute(s, FieldsOf(i, pc)) == Exec(i, s, next)
  {
    hide Splice, LongBytes, BytesLong, ComputeAlu, CondDoit, Wrap;
    match i
    case Rmmovq(ra, d, rb) => AluAdds(s.regs[rb], d);
    case Mrmovq(d, rb, ra) => AluAdds(s.regs[rb], d);
    case _ =>
  }

  lemma ExecuteFields(i: Instr<Long>, s: State, pc: int, next: Long)
    requires next == pc + SizeOf(i)
    ensures Execute(s, FieldsOf(i, pc)) == Exec(i, s, next)
  {
    hide PushLong, GetLong, Store, StoreWord, PushWord, BytesLong, ComputeAlu, ComputeCc, CondDoit, Wrap;
    if i.Call? || i.Ret? || i.Pushq? || i.Popq? {
      ExecuteStack(i, s, pc, next);
    } else if i.Rrmovq? || i.Irmovq? || i.Rmmovq? || i.Mrmovq? {
      ExecuteMove(i, s, pc, next);
    }
  }

  /** The machine executes the bytes of an instruction as the instruction means. */
  lemma StepRefinesExec(i: Instr<Long>, s: State)
    requires Holds(s.mem, s.pc, Encode(i)) && |s.mem| < TWO31
    ensures s.pc + SizeOf(i) < TWO63
    ensures NextI(s) == Exec(i, s, s.pc + SizeOf(i))
  {
    hide Execute, Exec, Encode, Fetch, FieldsOf, SizeOf;
    DecodeEncode(i, s);
    ExecuteFields(i, s, s.pc, s.pc + SizeOf(i));
  }
}
