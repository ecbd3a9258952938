/** What the statements of a program mean, kind by kind, in bytes and in steps, with no assembler or simulator function in between. */
module Y86Meaning {
  import opened Prelude
  import opened Bytes
  import opened Words
  import opened Y86Isa
  import opened Y86Asm
  import opened Y86Sim
  import opened Y86Correct
  import opened Y86Lines

  // ---------- bytes ----------

  lemma {:induction false} ByteOf(v: nat, n: nat, i: nat)
    requires i < n
    ensures ToBytes(v, n)[i] == v / Pow256(i) % 256
    decreases n
  {
    if i > 0 {
      ByteOf(v / 256, n - 1, i - 1);
      DivPow(v, i);
    } else {
      assert Pow256(0) == 1;
    }
  }

  lemma DivPow(v: nat, i: nat)
    requires i > 0
    ensures v / 256 / Pow256(i - 1) == v / Pow256(i)
  {
    var d := Pow256(i - 1);
    var q, r := v / 256, v % 256;
    var q2, r2 := q / d, q % d;
    assert v == 256 * q + r && q == d * q2 + r2;
    assert Pow256(i) == 256 * d;
    DivModUnique(v, 256 * d, q2, 256 * r2 + r);
  }

  /** Words lie in memory least significant byte first, modulo 2 to the 64. */
  lemma LittleEndian(v: Long, i: nat)
    requires i < 8
    ensures LongBytes(v)[i] == v % TWO64 / Pow256(i) % 256
  {
    ByteOf(v % TWO64, 8, i);
  }

  /** The codes of the instruction table, with registers and an operand that stands for a where it is a name. */
  ghost function TableBytes(i: Instr<Operand>, a: Long): seq<Byte> {
    match i
    case Halt => [0x00]
    case Nop => [0x10]
    case Rrmovq(c, ra, rb) => [0x20 + c, 16 * ra + rb]
    case Irmovq(Imm(v), rb) => [0x30, 0xF0 + rb] + LongBytes(v)
    case Irmovq(Sym(_), rb) => [0x30, 0xF0 + rb] + LongBytes(a)
    case Rmmovq(ra, d, rb) => [0x40, 16 * ra + rb] + LongBytes(d)
    case Mrmovq(d, rb, ra) => [0x50, 16 * ra + rb] + LongBytes(d)
    case Alu(op, ra, rb) => [0x60 + op, 16 * ra + rb]
    case Jump(c, Imm(v)) => [0x70 + c] + LongBytes(v)
    case Jump(c, Sym(_)) => [0x70 + c] + LongBytes(a)
    case Call(Imm(v)) => [0x80] + LongBytes(v)
    case Call(Sym(_)) => [0x80] + LongBytes(a)
    case Ret => [0x90]
    case Pushq(ra) => [0xA0, 16 * ra + 15]
    case Popq(ra) => [0xB0, 16 * ra + 15]
  }

  /** The name of an instruction's operand, if it is one. */
  ghost function NameOf(i: Instr<Operand>): Option<string> {
    match i
    case Irmovq(Sym(n), _) => Some(n)
    case Jump(_, Sym(n)) => Some(n)
    case Call(Sym(n)) => Some(n)
    case _ => None
  }

  lemma EncodesTable(i: Instr<Operand>, a: Long)
    ensures Encode(Resolve(i, a)) == TableBytes(i, a)
  {
    hide LongBytes;
  }

  /** The file holds the table's bytes for every instruction of the text, at its address, names as the addresses of their labels. */
  lemma CodeInImage(p: Program, k: nat, i: Instr<Operand>)
    requires Image(p).Some? && DisjointLines(p) && k < |p| && p[k].stmt == Some(Code(i))
    ensures var a := if NameOf(i).Some? && LabelAddr(p, NameOf(i).value).Some? then LabelAddr(p, NameOf(i).value).value else 0;
      Holds(Image(p).value, AddrOf(p, k), TableBytes(i, a))
    ensures NameOf(i).Some? ==> LabelAddr(p, NameOf(i).value).Some?
  {
    hide Image, LabelAddr, AddrOf, TableBytes, Encode, Resolve, AllLabels, Distinct;
    ImageHoldsLines(p, k);
    AcceptedExactly(p);
    EncodesTable(i, NameAddr(p, p[k].stmt));
    if NameOf(i).Some? { DefinedNames(p, NameOf(i).value); }
  }

  /** Data reads back as the value written, or the address of the label named, up to the width. */
  lemma DataInImage(p: Program, k: nat, w: Width, o: Operand)
    requires Image(p).Some? && DisjointLines(p) && k < |p| && p[k].stmt == Some(Data(w, o))
    ensures var at, f := AddrOf(p, k), Image(p).value;
      0 <= at && at + w <= |f|
      && (o.Sym? ==> LabelAddr(p, o.name).Some?)
      && FromBytes(f[at..at + w]) == (if o.Imm? then o.v else LabelAddr(p, o.name).value) % Pow256(w)
  {
    hide Image, LabelAddr, AddrOf, AllLabels, Distinct;
    ImageHoldsLines(p, k);
    AcceptedExactly(p);
    if o.Sym? { DefinedNames(p, o.name); }
    var v: Long := if o.Imm? then o.v else LabelAddr(p, o.name).value;
    LowBytes(v, w);
  }

  /** Where lines lie: the first at 0 and each behind the bytes of the one before, but for .pos, which says where, and .align, which goes on
      to a multiple. */
  lemma LinesFollow(p: Program, k: nat)
    requires k < |p|
    ensures var vm, at, st := Vm(p[..k]), AddrOf(p, k), p[k].stmt;
      (k == 0 ==> vm == 0)
      && (st == None ==> at == vm && Vm(p[..k + 1]) == at)
      && (st.Some? && st.value.Code? ==> at == vm && Vm(p[..k + 1]) == Wrap(at + |TableBytes(st.value.i, 0)|))
      && (st.Some? && st.value.Data? ==> at == vm && Vm(p[..k + 1]) == Wrap(at + st.value.width))
      && (st.Some? && st.value.Pos? ==> at == st.value.at && Vm(p[..k + 1]) == at)
      && (st.Some? && st.value.Align? ==> Vm(p[..k + 1]) == at && Aligns(vm, at, st.value.step))
  {
    hide Wrap, LongBytes, AlignUp, TableBytes, Aligns;
    var vm, at, st := Vm(p[..k]), AddrOf(p, k), p[k].stmt;
    VmAfter(p, k);
    WrapLong(at);
    if st.Some? && st.value.Code? { TableLength(st.value.i); }
    if st.Some? && st.value.Align? { AlignUpAligns(vm, st.value.step); }
  }

  /** at is the next multiple of step from vm on, where that is a word. */
  ghost predicate Aligns(vm: Long, at: Long, step: Long) {
    0 < step && 0 <= vm && vm + step - 1 < TWO63 ==> at % step == 0 && vm <= at < vm + step
  }

  lemma AlignUpAligns(vm: Long, step: Long)
    ensures Aligns(vm, AlignUp(vm, step), step)
  {
    hide AlignUp;
    if 0 < step && vm + step - 1 < TWO63 { AlignUpRounds(vm, step); }
  }

  lemma TableLength(i: Instr<Operand>)
    ensures |TableBytes(i, 0)| == SizeOf(i)
  {
    hide LongBytes;
  }

  lemma ModSplit(v: nat, d: nat)
    requires d > 0
    ensures var u := v % (256 * d); u % 256 == v % 256 && u / 256 == v / 256 % d
  {
    var q := v / 256;
    assert q == q / d * d + q % d;
    DivModUnique(v, 256 * d, q / d, 256 * (q % d) + v % 256);
    DivModUnique(256 * (q % d) + v % 256, 256, q % d, v % 256);
  }

  lemma {:induction false} PrefixBytes(v: nat, n: nat, w: nat)
    requires w <= n
    ensures Pow256(w) > 0 && ToBytes(v, n)[..w] == ToBytes(v % Pow256(w), w)
    decreases n
  {
    if w > 0 {
      PrefixBytes(v / 256, n - 1, w - 1);
      ModSplit(v, Pow256(w - 1));
      assert ToBytes(v, n)[..w] == [v % 256] + ToBytes(v / 256, n - 1)[..w - 1];
    }
  }

  lemma LowBytes(v: Long, w: Width)
    ensures FromBytes(LongBytes(v)[..w]) == v % Pow256(w)
  {
    var u := v % TWO64;
    PrefixBytes(u, 8, w);
    WidthDivides(v, w);
    FromToBytes(u % Pow256(w), w);
  }

  lemma WidthDivides(v: Long, w: Width)
    ensures Pow256(w) > 0 && v % TWO64 % Pow256(w) == v % Pow256(w)
  {
    assert Pow256(1) == 256 && Pow256(2) == 0x1_0000 && Pow256(4) == TWO32;
    Pow256Of8();
    assert v % TWO64 == if v < 0 then v + TWO64 else v;
  }

  // ---------- steps ----------

  /** The machine stands at line k of the text, which is instruction i. */
  ghost predicate StandsAt(p: Program, s: State, k: nat, i: Instr<Operand>) {
    CodeAt(p, 0, s.pc) == Some(k) && p[k].stmt == Some(Code(i))
  }

  /** Only register r may differ. */
  ghost predicate OnlyReg(regs: Regs, regs': Regs, r: Reg) {
    forall j :: 0 <= j < 15 && j != r ==> regs'[j] == regs[j]
  }

  /** The word v lies at a. */
  ghost predicate WordIs(m: seq<Byte>, a: int, v: Long) {
    0 <= a <= |m| - 8 && m[a..a + 8] == LongBytes(v)
  }

  /** m' is m but for the word v at a. */
  ghost predicate WordPut(m: seq<Byte>, m': seq<Byte>, a: int, v: Long) {
    |m'| == |m| && WordIs(m', a, v) && forall j :: 0 <= j < |m| && !(a <= j < a + 8) ==> m'[j] == m[j]
  }

  /** A step by lines and a step by addresses do the same to registers, flags and memory. */
  lemma LineStepIsStep(p: Program, s: State, k: nat)
    requires CodeAt(p, 0, s.pc) == Some(k)
    ensures var (t, e) := SourceStep(p, s); LineStep(p, s, k).0 == t.(pc := s.pc) && LineStep(p, s, k).1 == e
  {
    hide Exec, CodeAt, Wrap, InstrOf, SizeOf, StmtBytes, AddrOf, Vm, Dest, NextLine, CondDoit;
    VmAfter(p, k);
    InstrSize(p, k);
  }

  lemma AluMeans(p: Program, s: State, k: nat, op: AluOp, ra: Reg, rb: Reg)
    requires StandsAt(p, s, k, Alu(op, ra, rb))
    ensures var (t, e) := SourceStep(p, s);
      e == AOK && t.pc == Wrap(s.pc + 2) && t.mem == s.mem && OnlyReg(s.regs, t.regs, rb)
      && t.regs[rb] == ComputeAlu(op, s.regs[ra], s.regs[rb])
      && t.cc == ComputeCc(op, s.regs[ra], s.regs[rb], t.regs[rb])
  {
    hide CodeAt, ComputeAlu, ComputeCc, Wrap;
  }

  /** rrmovq and the conditional moves. */
  lemma MoveMeans(p: Program, s: State, k: nat, c: Cond, ra: Reg, rb: Reg)
    requires StandsAt(p, s, k, Rrmovq(c, ra, rb))
    ensures var (t, e) := SourceStep(p, s);
      e == AOK && t.pc == Wrap(s.pc + 2) && t.mem == s.mem && t.cc == s.cc && OnlyReg(s.regs, t.regs, rb)
      && t.regs[rb] == if CondDoit(s.cc, c) then s.regs[ra] else s.regs[rb]
  {
    hide CodeAt, CondDoit, Wrap;
  }

  lemma ImmediateMeans(p: Program, s: State, k: nat, o: Operand, rb: Reg)
    requires StandsAt(p, s, k, Irmovq(o, rb))
    ensures var (t, e) := SourceStep(p, s);
      e == AOK && t.pc == Wrap(s.pc + 10) && t.mem == s.mem && t.cc == s.cc && OnlyReg(s.regs, t.regs, rb)
      && (o.Imm? ==> t.regs[rb] == o.v)
      && (o.Sym? && LabelAddr(p, o.name).Some? ==> t.regs[rb] == LabelAddr(p, o.name).value)
  {
    hide CodeAt, LabelAddr, Wrap;
  }

  lemma StoreMeans(p: Program, s: State, k: nat, ra: Reg, d: Long, rb: Reg)
    requires StandsAt(p, s, k, Rmmovq(ra, d, rb))
    ensures var (t, e) := SourceStep(p, s);
      var a := Wrap(s.regs[rb] + d);
      if 0 <= a <= |s.mem| - 8 then
        e == AOK && t.pc == Wrap(s.pc + 10) && t.regs == s.regs && t.cc == s.cc && WordPut(s.mem, t.mem, a, s.regs[ra])
      else e == ADR && t == s
  {
    hide CodeAt, LongBytes, Wrap;
  }

  lemma LoadMeans(p: Program, s: State, k: nat, d: Long, rb: Reg, ra: Reg)
    requires StandsAt(p, s, k, Mrmovq(d, rb, ra))
    ensures var (t, e) := SourceStep(p, s);
      var a := Wrap(s.regs[rb] + d);
      if 0 <= a <= |s.mem| - 8 then
        e == AOK && t.pc == Wrap(s.pc + 10) && t.mem == s.mem && t.cc == s.cc && OnlyReg(s.regs, t.regs, ra) && WordIs(s.mem, a, t.regs[ra])
      else e == ADR && t == s
  {
    var a := Wrap(s.regs[rb] + d);
    if 0 <= a <= |s.mem| - 8 { LongOfBytes(s.mem[a..a + 8]); }
    hide CodeAt, LongBytes, BytesLong, Wrap;
  }

  /** The stack pointer, register 4, moves down even when the store then fails; %rsp itself is pushed as it was. */
  lemma PushMeans(p: Program, s: State, k: nat, ra: Reg)
    requires StandsAt(p, s, k, Pushq(ra))
    ensures var (t, e) := SourceStep(p, s);
      var top := Wrap((s.regs[4] as int) - 8);
      t.cc == s.cc && t.regs[4] == top && OnlyReg(s.regs, t.regs, 4)
      && if 0 <= top <= |s.mem| - 8 then e == AOK && t.pc == Wrap(s.pc + 2) && WordPut(s.mem, t.mem, top, s.regs[ra])
         else e == ADR && t.pc == s.pc && t.mem == s.mem
  {
    hide CodeAt, LongBytes, Wrap;
  }

  /** popq of %rsp leaves the word read, not the moved pointer. */
  lemma PopMeans(p: Program, s: State, k: nat, ra: Reg)
    requires StandsAt(p, s, k, Popq(ra))
    ensures var (t, e) := SourceStep(p, s);
      var top := s.regs[4];
      if 0 <= top <= |s.mem| - 8 then
        e == AOK && t.pc == Wrap(s.pc + 2) && t.mem == s.mem && t.cc == s.cc && WordIs(s.mem, top, t.regs[ra])
        && (ra != 4 ==> t.regs[4] == Wrap(top + 8)) && forall j :: 0 <= j < 15 && j != ra && j != 4 ==> t.regs[j] == s.regs[j]
      else e == ADR && t == s
  {
    var top := s.regs[4];
    if 0 <= top <= |s.mem| - 8 { LongOfBytes(s.mem[top..top + 8]); }
    hide CodeAt, LongBytes, BytesLong, Wrap;
  }

  /** call pushes the address behind itself, ret takes it back. */
  lemma CallMeans(p: Program, s: State, k: nat, o: Operand)
    requires StandsAt(p, s, k, Call(o))
    ensures var (t, e) := SourceStep(p, s);
      var top := Wrap((s.regs[4] as int) - 8);
      t.cc == s.cc && t.regs[4] == top && OnlyReg(s.regs, t.regs, 4)
      && (if 0 <= top <= |s.mem| - 8 then e == AOK && WordPut(s.mem, t.mem, top, Wrap(s.pc + 9))
          else e == ADR && t.pc == s.pc && t.mem == s.mem)
      && (e == AOK && o.Imm? ==> t.pc == o.v)
      && (e == AOK && o.Sym? && LabelAddr(p, o.name).Some? ==> t.pc == LabelAddr(p, o.name).value)
  {
    hide CodeAt, LongBytes, LabelAddr, Wrap;
  }

  lemma RetMeans(p: Program, s: State, k: nat)
    requires StandsAt(p, s, k, Ret)
    ensures var (t, e) := SourceStep(p, s);
      var top := s.regs[4];
      if 0 <= top <= |s.mem| - 8 then
        e == AOK && t.mem == s.mem && t.cc == s.cc && t.regs[4] == Wrap(top + 8) && OnlyReg(s.regs, t.regs, 4)
        && -TWO63 <= t.pc < TWO63 && WordIs(s.mem, top, t.pc)
      else e == ADR && t == s
  {
    var top := s.regs[4];
    if 0 <= top <= |s.mem| - 8 { LongOfBytes(s.mem[top..top + 8]); }
    hide CodeAt, LongBytes, BytesLong, Wrap;
  }

  lemma JumpMeans(p: Program, s: State, k: nat, c: Cond, o: Operand)
    requires StandsAt(p, s, k, Jump(c, o))
    ensures var (t, e) := SourceStep(p, s);
      e == AOK && t.regs == s.regs && t.cc == s.cc && t.mem == s.mem
      && (!CondDoit(s.cc, c) ==> t.pc == Wrap(s.pc + 9))
      && (CondDoit(s.cc, c) && o.Imm? ==> t.pc == o.v)
      && (CondDoit(s.cc, c) && o.Sym? && LabelAddr(p, o.name).Some? ==> t.pc == LabelAddr(p, o.name).value)
  {
    hide CodeAt, LabelAddr, CondDoit, Wrap;
  }

  lemma HaltAndNopMean(p: Program, s: State, k: nat)
    requires StandsAt(p, s, k, Halt) || StandsAt(p, s, k, Nop)
    ensures SourceStep(p, s) == if p[k].stmt == Some(Code(Halt)) then (s, HLT) else (s.(pc := Wrap(s.pc + 1)), AOK)
  {
    hide CodeAt, Wrap;
  }

  // ---------- bytes that are no instruction ----------

  /** The status of a step, from the bytes at the pc alone: halt, an unknown code or function, and a missing byte. */
  lemma StatusExactly(s: State)
    ensures var m, pc := s.mem, s.pc;
      var e := NextI(s).1;
      if !(0 <= pc < |m|) then e == ADR && NextI(s).0 == s
      else
        var code, fun := m[pc] / 16, m[pc] % 16;
        (e == HLT <==> code == 0)
        && (e == INS <==> (pc + 2 <= |m| && (code > 11 || (code == 6 && fun > 3))) || (pc + 9 <= |m| && code == 7 && fun > 6))
        && ((code in {2, 6, 10, 11} || code > 11) && pc + 2 > |m| ==> e == ADR && NextI(s).0 == s)
        && (code in {3, 4, 5} && pc + 10 > |m| ==> e == ADR && NextI(s).0 == s)
        && (code in {7, 8} && pc + 9 > |m| ==> e == ADR && NextI(s).0 == s)
        && (e == HLT || e == INS ==> NextI(s).0 == s)
        && (code == 2 && fun > 6 && pc + 2 <= |m| ==> NextI(s) == (s.(pc := pc + 2), AOK))
  {
    hide LongBytes, BytesLong, ComputeAlu, ComputeCc, Wrap, Splice;
  }
}
