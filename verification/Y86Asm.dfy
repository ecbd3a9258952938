/** The assembler of lab5/y64asm.c on parsed lines: symbol and relocation tables, encoding, relocation, image. */
module Y86Asm {
  import opened Prelude
  import opened Bytes
  import opened Words
  import opened Y86Isa

  const I_DIRECTIVE := 12
  const D_POS := 1
  const D_ALIGN := 2

  datatype Operand = Imm(v: Long) | Sym(name: string)

  type Width = w: int | w == 1 || w == 2 || w == 4 || w == 8 witness 1

  datatype Stmt = Code(i: Instr<Operand>) | Data(width: Width, v: Operand) | Pos(at: Long) | Align(step: Long)

  /** Any number of labels, then at most one statement. */
  datatype Line = Line(labels: seq<string>, stmt: Option<Stmt>)

  type Program = seq<Line>

  datatype Symbol = Symbol(name: string, addr: Long)

  datatype Reloc = Reloc(name: string, line: nat)

  type Codes = s: seq<Byte> | |s| == 10 witness [0, 0, 0, 0, 0, 0, 0, 0, 0, 0]

  const ZEROS: Codes := [0, 0, 0, 0, 0, 0, 0, 0, 0, 0]

  /** What a line becomes; only lines with ins set are written. */
  datatype Bin = Bin(ins: bool, addr: Long, codes: Codes, bytes: int)

  datatype Asm = Asm(vm: Long, syms: seq<Symbol>, rels: seq<Reloc>, lines: seq<Bin>)

  // ---------- meaning of a program text ----------

  /** C division, which truncates. */
  function TruncDiv(a: int, b: int): int
    requires b != 0
  {
    var q := (if a < 0 then -a else a) / (if b < 0 then -b else b);
    if (a < 0) == (b < 0) then q else -q
  }

  function AlignUp(vm: Long, v: Long): Long {
    if v == 0 then vm else Wrap(TruncDiv(Wrap(vm + v - 1), v) * v)
  }

  function StmtBytes(s: Option<Stmt>): (n: nat)
    ensures n <= 10
  {
    match s
    case Some(Code(i)) => SizeOf(i)
    case Some(Data(w, _)) => w
    case _ => 0
  }

  /** The address of a line that starts when the counter is at vm. */
  function StartOf(vm: Long, s: Option<Stmt>): Long {
    match s
    case Some(Pos(v)) => v
    case Some(Align(v)) => AlignUp(vm, v)
    case _ => vm
  }

  /** The address counter after a program. */
  function Vm(p: Program): Long {
    if p == [] then 0 else Wrap(StartOf(Vm(p[..|p| - 1]), p[|p| - 1].stmt) + StmtBytes(p[|p| - 1].stmt))
  }

  /** The address of line k. */
  function AddrOf(p: Program, k: nat): Long
    requires k < |p|
  {
    StartOf(Vm(p[..k]), p[k].stmt)
  }

  function AllLabels(p: Program): seq<string> {
    if p == [] then [] else AllLabels(p[..|p| - 1]) + p[|p| - 1].labels
  }

  /** The address a label stands for: the counter where its first definition begins. */
  function LabelAddr(p: Program, name: string): Option<Long> {
    if p == [] then None
    else
      var before := LabelAddr(p[..|p| - 1], name);
      if before.Some? then before
      else if name in p[|p| - 1].labels then Some(Vm(p[..|p| - 1]))
      else None
  }

  function NameIn(s: Option<Stmt>): Option<string> {
    match s
    case Some(Code(Irmovq(Sym(n), _))) => Some(n)
    case Some(Code(Jump(_, Sym(n)))) => Some(n)
    case Some(Code(Call(Sym(n)))) => Some(n)
    case Some(Data(_, Sym(n))) => Some(n)
    case _ => None
  }

  /** The word an operand stands for when its name, if any, stands for a. */
  function Value(o: Operand, a: Long): Long {
    match o
    case Imm(v) => v
    case Sym(_) => a
  }

  function Resolve(i: Instr<Operand>, a: Long): Instr<Long> {
    match i
    case Halt => Halt
    case Nop => Nop
    case Ret => Ret
    case Rrmovq(c, ra, rb) => Rrmovq(c, ra, rb)
    case Irmovq(v, rb) => Irmovq(Value(v, a), rb)
    case Rmmovq(ra, d, rb) => Rmmovq(ra, d, rb)
    case Mrmovq(d, rb, ra) => Mrmovq(d, rb, ra)
    case Alu(op, ra, rb) => Alu(op, ra, rb)
    case Jump(c, d) => Jump(c, Value(d, a))
    case Call(d) => Call(Value(d, a))
    case Pushq(ra) => Pushq(ra)
    case Popq(ra) => Popq(ra)
  }

  /** The bytes a line contributes when its name, if any, stands for a. */
  function Emitted(s: Option<Stmt>, a: Long): (bs: seq<Byte>)
    ensures |bs| == StmtBytes(s)
  {
    match s
    case Some(Code(i)) => Encode(Resolve(i, a))
    case Some(Data(w, v)) => LongBytes(Value(v, a))[..w]
    case _ => []
  }

  // ---------- the assembler on values ----------

  function FindSymbol(syms: seq<Symbol>, name: string): Option<Long> {
    if syms == [] then None
    else if syms[0].name == name then Some(syms[0].addr)
    else FindSymbol(syms[1..], name)
  }

  function AddLabels(syms: seq<Symbol>, vm: Long, labels: seq<string>): Option<seq<Symbol>>
    decreases labels
  {
    if labels == [] then Some(syms)
    else if FindSymbol(syms, labels[0]).Some? then None
    else AddLabels([Symbol(labels[0], vm)] + syms, vm, labels[1..])
  }

  function Pad(bs: seq<Byte>): (c: Codes)
    requires |bs| <= 10
  {
    bs + ZEROS[|bs|..]
  }

  /** The codes of a line before relocation: names still stand for 0. */
  function RawCodes(s: Option<Stmt>): Codes {
    match s
    case Some(Pos(_)) => Pad([HPack(I_DIRECTIVE, D_POS)])
    case Some(Align(_)) => Pad([HPack(I_DIRECTIVE, D_ALIGN)])
    case _ => Pad(Emitted(s, 0))
  }

  function RawBin(vm: Long, l: Line): Bin {
    Bin(l.labels != [] || l.stmt.Some?,
        if l.labels != [] || l.stmt.Some? then StartOf(vm, l.stmt) else 0,
        RawCodes(l.stmt), StmtBytes(l.stmt))
  }

  predicate DividesByZero(s: Option<Stmt>) {
    s.Some? && s.value == Align(0)
  }

  function ParseF(st: Asm, l: Line): Option<Asm> {
    var syms := AddLabels(st.syms, st.vm, l.labels);
    if syms == None || DividesByZero(l.stmt) then None
    else
      var name := NameIn(l.stmt);
      Some(Asm(Wrap(StartOf(st.vm, l.stmt) + StmtBytes(l.stmt)), syms.value,
               if name.Some? then [Reloc(name.value, |st.lines|)] + st.rels else st.rels,
               st.lines + [RawBin(st.vm, l)]))
  }

  function ParseAll(p: Program): Option<Asm> {
    if p == [] then Some(Asm(0, [], [], []))
    else
      var st := ParseAll(p[..|p| - 1]);
      if st == None then None else ParseF(st.value, p[|p| - 1])
  }

  /** Where the operand bytes of a line lie, by the code that its first byte shows. */
  function PatchOffset(codes: Codes): int {
    var icode := High(codes[0]);
    if icode == I_IRMOVQ then 2 else if icode == I_CALL || icode == I_JMP then 1 else 0
  }

  function Patch(b: Bin, a: Long): Bin {
    b.(codes := Splice(b.codes, PatchOffset(b.codes), LongBytes(a)))
  }

  function RelocateF(lines: seq<Bin>, rels: seq<Reloc>, syms: seq<Symbol>): Option<seq<Bin>>
    requires forall i :: 0 <= i < |rels| ==> rels[i].line < |lines|
    decreases rels
  {
    if rels == [] then Some(lines)
    else
      var a := FindSymbol(syms, rels[0].name);
      if a == None then None
      else RelocateF(lines[rels[0].line := Patch(lines[rels[0].line], a.value)], rels[1..], syms)
  }

  function Zeros(n: nat): seq<Byte> {
    seq(n, i => 0)
  }

  /** Seek to addr, padding with zeros, and write bs. */
  function WriteAt(file: seq<Byte>, addr: nat, bs: seq<Byte>): seq<Byte> {
    if bs == [] then file
    else
      var f := if |file| < addr then file + Zeros(addr - |file|) else file;
      f[..addr] + bs + if addr + |bs| < |f| then f[addr + |bs|..] else []
  }

  ghost predicate GoodBins(lines: seq<Bin>) {
    forall i :: 0 <= i < |lines| ==> 0 <= lines[i].bytes <= 10
  }

  function WriteLines(file: seq<Byte>, lines: seq<Bin>): Option<seq<Byte>>
    requires GoodBins(lines)
    decreases lines
  {
    if lines == [] then Some(file)
    else
      assert GoodBins(lines[1..]);
      if !lines[0].ins then WriteLines(file, lines[1..])
      else if lines[0].addr < 0 then None
      else WriteLines(WriteAt(file, lines[0].addr, lines[0].codes[..lines[0].bytes]), lines[1..])
  }

  /** Alignment gives a multiple of v at or after vm. It is the next one exactly if vm + v - 1 is not negative, or a multiple itself. */
  lemma AlignUpRounds(vm: Long, v: Long)
    requires 0 < v && vm + v - 1 < TWO63
    ensures AlignUp(vm, v) % v == 0 && vm <= AlignUp(vm, v)
    ensures AlignUp(vm, v) < vm + v <==> 0 < vm + v || (vm - 1) % v == 0
  {
    var a: int := (vm as int) + v - 1;
    WrapLong(a);
    var k := TruncTimes(a, v);
    WrapLong(k);
    WholeTimes(vm - 1, v, a);
  }

  /** Truncating to a multiple of v moves toward zero by less than v. */
  lemma TruncTimes(a: int, v: int) returns (k: int)
    requires v > 0
    ensures k == TruncDiv(a, v) * v && k % v == 0
    ensures if a >= 0 then a - v < k <= a else a <= k < a + v && k <= 0 && (k == a <==> a % v == 0)
  {
    var n := if a < 0 then -a else a;
    var q, r := n / v, n % v;
    assert n == q * v + r;
    var s := if a >= 0 then q else -q;
    assert TruncDiv(a, v) == s;
    k := s * v;
    hide TruncDiv;
    SmallQuotient(n, q, v, r);
    assert a < 0 ==> k == -(q * v) by { Negated(q, v); }
    DivModUnique(k, v, s, 0);
    if a < 0 {
      if r > 0 {
        assert (s - 1) * v == k - v by { Negated(q, v); }
        DivModUnique(a, v, s - 1, v - r);
      } else {
        DivModUnique(a, v, s, 0);
      }
    }
  }

  lemma Negated(q: int, v: int)
    ensures -q * v == -(q * v) && (-q - 1) * v == -(q * v) - v
  {
  }

  lemma SmallQuotient(n: int, q: int, v: int, r: int)
    requires v > 0 && n == q * v + r && 0 <= r < v && n >= 0
    ensures q >= 0 && 0 <= q * v <= n
  {
    TimesAtLeast(q, v);
  }

  /** Adding v changes no remainder. */
  lemma WholeTimes(x: int, v: int, y: int)
    requires v > 0 && y == x + v
    ensures x % v == y % v
  {
    DivModUnique(y, v, x / v + 1, x % v);
  }

  lemma PadParts(head: Byte, regs: Byte, bs: seq<Byte>)
    requires |bs| == 8
    ensures Pad([head]) == ZEROS[0 := head] && Pad([head] + [regs]) == ZEROS[0 := head][1 := regs]
    ensures Pad([head] + [regs] + bs) == Splice(ZEROS[0 := head][1 := regs], 2, bs)
    ensures Pad([head] + bs) == Splice(ZEROS[0 := head], 1, bs)
  {
  }

  lemma DirectiveCodes(s: Stmt)
    requires s.Pos? || s.Align?
    ensures RawCodes(Some(s)) == ZEROS[0 := HPack(I_DIRECTIVE, if s.Pos? then D_POS else D_ALIGN)] && NameIn(Some(s)) == None
  {
  }

  lemma NoStmt()
    ensures RawCodes(None) == ZEROS && StmtBytes(None) == 0 && NameIn(None) == None
  {
  }

  // ---------- the assembler in place ----------

  class Assembler {
    var vmaddr: Long
    var symtab: seq<Symbol>
    var reltab: seq<Reloc>
    var lines: seq<Bin>

    function View(): Asm
      reads this
    {
      Asm(vmaddr, symtab, reltab, lines)
    }

    constructor ()
      ensures View() == Asm(0, [], [], [])
    {
      vmaddr, symtab, reltab, lines := 0, [], [], [];
    }

    method FindSym(name: string) returns (a: Option<Long>)
      ensures a == FindSymbol(symtab, name)
    {
      var i := 0;
      while i < |symtab|
        invariant 0 <= i <= |symtab|
        invariant FindSymbol(symtab[i..], name) == FindSymbol(symtab, name)
      {
        if symtab[i].name == name { return Some(symtab[i].addr); }
        assert symtab[i..][1..] == symtab[i + 1..];
        i := i + 1;
      }
      return None;
    }

    method AddSymbol(name: string) returns (ok: bool)
      modifies `symtab
      ensures ok <==> FindSymbol(old(symtab), name) == None
      ensures symtab == if ok then [Symbol(name, vmaddr)] + old(symtab) else old(symtab)
    {
      var found := FindSym(name);
      if found.Some? { return false; }
      symtab := [Symbol(name, vmaddr)] + symtab;
      return true;
    }

    /** Note that operand o of the line being parsed must be patched, if it is a name; its value so far. */
    method TakeOperand(o: Operand) returns (value: Long)
      modifies `reltab
      ensures value == Value(o, 0)
      ensures reltab == if o.Sym? then [Reloc(o.name, |lines|)] + old(reltab) else old(reltab)
    {
      if o.Sym? {
        reltab := [Reloc(o.name, |lines|)] + reltab;
        return 0;
      }
      return o.v;
    }

    /** The n low bytes of value, stored from codes[off] on. */
    method AddressMemory(codes: Codes, off: nat, value: Long, n: nat) returns (r: Codes)
      requires n <= 8 && off + n <= 10
      ensures r == Splice(codes, off, LongBytes(value)[..n]) && (n == 8 ==> r == Splice(codes, off, LongBytes(value)))
    {
      assert LongBytes(value)[..8] == LongBytes(value);
      r := codes;
      for i := 0 to n
        invariant r == Splice(codes, off, LongBytes(value)[..i])
      {
        assert LongBytes(value)[..i + 1] == LongBytes(value)[..i] + [LongBytes(value)[i]];
        r := r[off + i := LongBytes(value)[i]];
      }
    }

    method EncodeCode(i: Instr<Operand>) returns (codes: Codes)
      modifies `reltab
      ensures codes == RawCodes(Some(Code(i)))
      ensures var n := NameIn(Some(Code(i)));
        reltab == if n.Some? then [Reloc(n.value, |lines|)] + old(reltab) else old(reltab)
    {
      if i.Irmovq? || i.Jump? || i.Call? {
        codes := EncodeWithOperand(i);
        return;
      }
      hide LongBytes, HPack, Pad, Splice;
      var head := HPack(CodeOf(i).0, CodeOf(i).1);
      codes := ZEROS[0 := head];
      PadParts(head, 0, LongBytes(0));
      match i {
        case Rmmovq(ra, d, rb) =>
          PadParts(head, HPack(ra, rb), LongBytes(d));
          codes := AddressMemory(codes[1 := HPack(ra, rb)], 2, d, 8);
        case Mrmovq(d, rb, ra) =>
          PadParts(head, HPack(ra, rb), LongBytes(d));
          codes := AddressMemory(codes[1 := HPack(ra, rb)], 2, d, 8);
        case Rrmovq(_, ra, rb) =>
          PadParts(head, HPack(ra, rb), LongBytes(0));
          codes := codes[1 := HPack(ra, rb)];
        case Alu(_, ra, rb) =>
          PadParts(head, HPack(ra, rb), LongBytes(0));
          codes := codes[1 := HPack(ra, rb)];
        case Pushq(ra) =>
          PadParts(head, HPack(ra, 15), LongBytes(0));
          codes := codes[1 := HPack(ra, 15)];
        case Popq(ra) =>
          PadParts(head, HPack(ra, 15), LongBytes(0));
          codes := codes[1 := HPack(ra, 15)];
        case Halt => case Nop => case Ret =>
      }
    }

    /** The instructions whose operand may be a name. */
    method EncodeWithOperand(i: Instr<Operand>) returns (codes: Codes)
      requires i.Irmovq? || i.Jump? || i.Call?
      modifies `reltab
      ensures codes == RawCodes(Some(Code(i)))
      ensures var n := NameIn(Some(Code(i)));
        reltab == if n.Some? then [Reloc(n.value, |lines|)] + old(reltab) else old(reltab)
    {
      hide LongBytes, HPack, Pad, Splice;
      var head := HPack(CodeOf(i).0, CodeOf(i).1);
      codes := ZEROS[0 := head];
      match i {
        case Irmovq(v, rb) =>
          var value := TakeOperand(v);
          PadParts(head, HPack(15, rb), LongBytes(value));
          codes := AddressMemory(codes[1 := HPack(15, rb)], 2, value, 8);
        case Jump(_, d) =>
          var value := TakeOperand(d);
          PadParts(head, 0, LongBytes(value));
          codes := AddressMemory(codes, 1, value, 8);
        case Call(d) =>
          var value := TakeOperand(d);
          PadParts(head, 0, LongBytes(value));
          codes := AddressMemory(codes, 1, value, 8);
      }
    }

    /** The labels in front of a line. */
    method ParseLabels(labels: seq<string>) returns (ok: bool)
      modifies `symtab
      ensures ok <==> AddLabels(old(symtab), vmaddr, labels).Some?
      ensures ok ==> symtab == AddLabels(old(symtab), vmaddr, labels).value
    {
      for i := 0 to |labels|
        invariant AddLabels(symtab, vmaddr, labels[i..]) == AddLabels(old(symtab), vmaddr, labels)
      {
        ok := AddSymbol(labels[i]);
        if !ok { return; }
        assert labels[i..][1..] == labels[i + 1..];
      }
      return true;
    }

    /** The statement of a line: its codes, its address, and the counter behind it. */
    method ParseStmt(s: Stmt) returns (ok: bool, addr: Long, codes: Codes)
      modifies `vmaddr, `reltab
      ensures ok <==> !DividesByZero(Some(s))
      ensures ok ==> addr == StartOf(old(vmaddr), Some(s)) && codes == RawCodes(Some(s)) && vmaddr == Wrap(addr + StmtBytes(Some(s)))
      ensures ok ==> reltab == if NameIn(Some(s)).Some? then [Reloc(NameIn(Some(s)).value, |lines|)] + old(reltab) else old(reltab)
    {
      hide HPack, AlignUp, Wrap, RawCodes, NameIn;
      ok, addr := true, vmaddr;
      vmaddr := Wrap(vmaddr + StmtBytes(Some(s)));
      WrapLong(addr);
      if s.Pos? || s.Align? { DirectiveCodes(s); }
      match s {
        case Code(i) =>
          codes := EncodeCode(i);
        case Data(w, v) =>
          codes := EncodeData(w, v);
        case Pos(v) =>
          addr, vmaddr, codes := v, v, ZEROS[0 := HPack(I_DIRECTIVE, D_POS)];
          WrapLong(v);
        case Align(v) =>
          codes := ZEROS[0 := HPack(I_DIRECTIVE, D_ALIGN)];
          if v == 0 { return false, addr, codes; }
          RoundUp(v);
          addr := vmaddr;
          WrapLong(addr);
      }
    }

    method EncodeData(w: Width, v: Operand) returns (codes: Codes)
      modifies `reltab
      ensures codes == RawCodes(Some(Data(w, v)))
      ensures var n := NameIn(Some(Data(w, v)));
        reltab == if n.Some? then [Reloc(n.value, |lines|)] + old(reltab) else old(reltab)
    {
      hide LongBytes, HPack;
      var value := TakeOperand(v);
      codes := AddressMemory(ZEROS[0 := HPack(I_DIRECTIVE, 0)], 0, value, w);
      assert codes == Pad(LongBytes(value)[..w]);
    }

    method RoundUp(step: Long)
      requires step != 0
      modifies `vmaddr
      ensures vmaddr == AlignUp(old(vmaddr), step)
      ensures 0 <= old(vmaddr) && 0 < step && old(vmaddr) + step - 1 < TWO63 ==> vmaddr % step == 0 && old(vmaddr) <= vmaddr < old(vmaddr) + step
    {
      if 0 < step && vmaddr + step - 1 < TWO63 { AlignUpRounds(vmaddr, step); }
      vmaddr := Wrap(TruncDiv(Wrap(vmaddr + step - 1), step) * step);
    }

    method ParseLine(l: Line) returns (ok: bool)
      modifies this
      ensures ok <==> ParseF(old(View()), l).Some?
      ensures ok ==> View() == ParseF(old(View()), l).value
    {
      hide RawCodes, StmtBytes, AddLabels, NameIn;
      var bin := Bin(false, 0, ZEROS, 0);
      ok := ParseLabels(l.labels);
      if !ok { return; }
      if l.labels != [] {
        bin := bin.(ins := true, addr := vmaddr);
      }
      if l.stmt.Some? {
        bin := bin.(ins := true, bytes := StmtBytes(l.stmt));
        var addr, codes;
        ok, addr, codes := ParseStmt(l.stmt.value);
        if !ok { return; }
        bin := bin.(addr := addr, codes := codes);
      } else {
        NoStmt();
        WrapLong(vmaddr);
      }
      lines := lines + [bin];
    }

    method Assemble(p: Program) returns (ok: bool)
      requires View() == Asm(0, [], [], [])
      modifies this
      ensures ok <==> ParseAll(p).Some?
      ensures ok ==> View() == ParseAll(p).value
    {
      hide ParseF;
      for i := 0 to |p|
        invariant ParseAll(p[..i]) == Some(View())
      {
        assert p[..i + 1][..i] == p[..i];
        ok := ParseLine(p[i]);
        if !ok {
          ParseFailsForGood(p, i + 1);
          return;
        }
      }
      assert p[..|p|] == p;
      return true;
    }

    method Relocate() returns (ok: bool)
      requires forall i :: 0 <= i < |reltab| ==> reltab[i].line < |lines|
      modifies `lines
      ensures ok <==> RelocateF(old(lines), reltab, symtab).Some?
      ensures ok ==> lines == RelocateF(old(lines), reltab, symtab).value
    {
      hide LongBytes;
      for i := 0 to |reltab|
        invariant |lines| == |old(lines)|
        invariant RelocateF(lines, reltab[i..], symtab) == RelocateF(old(lines), reltab, symtab)
      {
        assert reltab[i..][1..] == reltab[i + 1..];
        var a := FindSym(reltab[i].name);
        if a == None { return false; }
        var b := lines[reltab[i].line];
        var codes := AddressMemory(b.codes, PatchOffset(b.codes), a.value, 8);
        assert LongBytes(a.value)[..8] == LongBytes(a.value);
        lines := lines[reltab[i].line := b.(codes := codes)];
      }
      return true;
    }

    method Binfile() returns (ok: bool, file: seq<Byte>)
      requires GoodBins(lines)
      ensures ok <==> WriteLines([], lines).Some?
      ensures ok ==> file == WriteLines([], lines).value
    {
      file := [];
      for i := 0 to |lines|
        invariant WriteLines(file, lines[i..]) == WriteLines([], lines)
      {
        assert lines[i..][1..] == lines[i + 1..];
        if lines[i].ins {
          if lines[i].addr < 0 { return false, file; }
          file := WriteAt(file, lines[i].addr, lines[i].codes[..lines[i].bytes]);
        }
      }
      return true, file;
    }
  }

  lemma {:induction false} ParseFailsForGood(p: Program, k: nat)
    requires k <= |p| && ParseAll(p[..k]) == None
    ensures ParseAll(p) == None
    decreases |p|
  {
    if k == |p| {
      assert p[..k] == p;
    } else {
      assert p[..|p| - 1][..k] == p[..k];
      ParseFailsForGood(p[..|p| - 1], k);
    }
  }
}
