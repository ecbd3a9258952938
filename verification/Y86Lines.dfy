/** The program text by lines: where labels point, and running without addresses. */
module Y86Lines {
  import opened Prelude
  import opened Bytes
  import opened Words
  import opened Y86Isa
  import opened Y86Asm
  import opened Y86Sim
  import opened Y86Correct

  /** A label of line k stands for the address where line k begins. */
  lemma {:induction false} LabelOfLine(p: Program, k: nat, name: string)
    requires Distinct(AllLabels(p)) && k < |p| && name in p[k].labels
    ensures LabelAddr(p, name) == Some(Vm(p[..k]))
  {
    var q := p[..|p| - 1];
    DistinctJoin(AllLabels(q), p[|p| - 1].labels);
    DefinedNames(q, name);
    if k < |p| - 1 {
      assert q[k] == p[k] && q[..k] == p[..k];
      LabelOfLine(q, k, name);
    }
  }

  lemma {:induction false} OnlyCodeAt(p: Program, j: nat, k: nat)
    requires DisjointLines(p) && j <= k < |p| && IsCode(p[k].stmt)
    ensures CodeAt(p, j, AddrOf(p, k)) == Some(k)
    decreases k - j
  {
    assert StmtBytes(p[k].stmt) > 0 && (IsCode(p[j].stmt) ==> StmtBytes(p[j].stmt) > 0);
    hide AddrOf, StmtBytes;
    if j < k { OnlyCodeAt(p, j + 1, k); }
  }

  /** The counter stands still over lines without a statement. */
  lemma {:induction false} VmGap(p: Program, j: nat, k: nat)
    requires j <= k <= |p| && forall i :: j <= i < k ==> p[i].stmt == None
    ensures Vm(p[..k]) == Vm(p[..j])
    decreases k - j
  {
    if j < k {
      VmGap(p, j, k - 1);
      assert p[..k][..k - 1] == p[..k - 1] && p[..k][k - 1] == p[k - 1];
      WrapLong(Vm(p[..k - 1]));
    }
  }

  /** The next instruction at or after line k, if no data or directive stands before it. */
  function NextLine(p: Program, k: nat): (r: Option<nat>)
    ensures r.Some? ==> k <= r.value < |p| && IsCode(p[r.value].stmt) && forall i :: k <= i < r.value ==> p[i].stmt == None
    decreases |p| - k
  {
    if k >= |p| then None
    else if p[k].stmt == None then NextLine(p, k + 1)
    else if IsCode(p[k].stmt) then Some(k) else None
  }

  /** The line that carries a label. */
  function LabelLine(p: Program, name: string, k: nat): (r: Option<nat>)
    ensures r.Some? ==> r.value < |p| && name in p[r.value].labels
    decreases |p| - k
  {
    if k >= |p| then None else if name in p[k].labels then Some(k) else LabelLine(p, name, k + 1)
  }

  lemma VmAfter(p: Program, k: nat)
    requires k < |p|
    ensures Vm(p[..k + 1]) == Wrap(AddrOf(p, k) + StmtBytes(p[k].stmt))
  {
    assert p[..k + 1][..k] == p[..k] && p[..k + 1][k] == p[k];
  }

  /** Where the next instruction after line k lies: right behind it. */
  lemma NextFollows(p: Program, k: nat)
    requires k < |p| && IsCode(p[k].stmt)
    ensures Vm(p[..k + 1]) == Wrap(AddrOf(p, k) + StmtBytes(p[k].stmt))
    ensures var n := NextLine(p, k + 1); n.Some? ==> AddrOf(p, n.value) == Wrap(AddrOf(p, k) + StmtBytes(p[k].stmt))
  {
    VmAfter(p, k);
    hide Vm;
    var n := NextLine(p, k + 1);
    if n.Some? { VmGap(p, k + 1, n.value); }
  }

  /** A label stands for the next instruction in the text, on its own line or below. */
  lemma LabelNamesNext(p: Program, k: nat, name: string)
    requires Distinct(AllLabels(p)) && k < |p| && name in p[k].labels
    ensures var c := NextLine(p, k); c.Some? ==> LabelAddr(p, name) == Some(AddrOf(p, c.value))
  {
    LabelOfLine(p, k, name);
    var c := NextLine(p, k);
    if c.Some? { VmGap(p, k, c.value); }
  }

  /** With .pos or .align between, it stands for the next instruction exactly if the directive does not move the counter. */
  lemma LabelBeforeDirective(p: Program, k: nat, d: nat, name: string)
    requires Distinct(AllLabels(p)) && k <= d < |p| && name in p[k].labels
    requires (forall i :: k <= i < d ==> p[i].stmt == None) && p[d].stmt.Some? && (p[d].stmt.value.Pos? || p[d].stmt.value.Align?)
    ensures var c, vm := NextLine(p, d + 1), Vm(p[..k]);
      c.Some? ==> (LabelAddr(p, name) == Some(AddrOf(p, c.value)) <==>
        match p[d].stmt.value
        case Pos(v) => v == vm
        case Align(v) => AlignUp(vm, v) == vm)
  {
    hide LabelAddr, AllLabels, AlignUp, Wrap, Vm, NextLine, Distinct;
    LabelOfLine(p, k, name);
    VmGap(p, k, d);
    VmAfter(p, d);
    var c, vm := NextLine(p, d + 1), Vm(p[..k]);
    WrapLong(StartOf(vm, p[d].stmt));
    if c.Some? { VmGap(p, d + 1, c.value); }
  }

  /** For the alignments that programs use, that is if the counter is aligned already. */
  lemma AlignedStays(vm: Long, v: Long)
    requires 0 <= vm && 0 < v && vm + v - 1 < TWO63
    ensures AlignUp(vm, v) == vm <==> vm % v == 0
  {
    AlignUpRounds(vm, v);
    var a := AlignUp(vm, v);
    hide AlignUp;
    if vm % v == 0 && a != vm {
      assert a == vm / v * v + (a - vm) && vm == vm / v * v + vm % v;
      DivModUnique(a, v, vm / v, a - vm);
    }
  }

  /** The instruction that an operand sends control to. */
  function Dest(p: Program, o: Operand): (c: Option<nat>)
    ensures c.Some? ==> c.value < |p| && IsCode(p[c.value].stmt)
  {
    match o
    case Imm(v) => CodeAt(p, 0, v)
    case Sym(name) => var k := LabelLine(p, name, 0); if k.Some? then NextLine(p, k.value) else None
  }

  /** One step of the text by lines: the pc is never looked at. The last component is the line to go on with, if the text has one. */
  function LineStep(p: Program, s: State, k: nat): (State, Stat, Option<nat>)
    requires k < |p| && IsCode(p[k].stmt)
  {
    var (t, e) := Exec(InstrOf(p, k), s, Vm(p[..k + 1]));
    (t.(pc := s.pc), e,
     match p[k].stmt.value.i
     case Jump(c, d) => if CondDoit(s.cc, c) then Dest(p, d) else NextLine(p, k + 1)
     case Call(d) => Dest(p, d)
     case Ret => if Readable(s, Rsp(s)) then CodeAt(p, 0, WordAt(s, Rsp(s))) else None
     case _ => NextLine(p, k + 1))
  }

  /** Where an instruction that succeeds goes on. */
  function PcAfter(i: Instr<Long>, s: State, next: Long): int {
    match i
    case Jump(c, d) => if CondDoit(s.cc, c) then d else next
    case Call(d) => d
    case Ret => if Readable(s, Rsp(s)) then WordAt(s, Rsp(s)) else next
    case _ => next
  }

  lemma ExecPc(i: Instr<Long>, s: State, next: Long)
    ensures var (t, e) := Exec(i, s, next); t.pc == if e == AOK then PcAfter(i, s, next) else s.pc
    ensures i.Ret? && Exec(i, s, next).1 == AOK ==> Readable(s, Rsp(s))
  {
    hide CondDoit, ComputeAlu, ComputeCc, LongBytes, BytesLong, Splice, Wrap;
  }

  /** The line LineStep goes on with lies where the machine goes on. */
  lemma NextLies(p: Program, s: State, k: nat)
    requires Distinct(AllLabels(p)) && k < |p| && IsCode(p[k].stmt)
    ensures var (_, e, next) := LineStep(p, s, k);
      e == AOK && next.Some? ==>
        next.value < |p| && IsCode(p[next.value].stmt) && PcAfter(InstrOf(p, k), s, Vm(p[..k + 1])) == AddrOf(p, next.value)
  {
    hide Exec, CondDoit, AllLabels, LabelAddr, AddrOf, Vm, CodeAt, NextLine, LabelLine, NameAddr, BytesLong, Dest, Distinct, Rsp;
    var i := p[k].stmt.value.i;
    NextFollows(p, k);
    ExecPc(InstrOf(p, k), s, Vm(p[..k + 1]));
    if i.Jump? || i.Call? {
      DestAddr(p, p[k].stmt);
    }
  }

  lemma InstrSize(p: Program, k: nat)
    requires k < |p| && IsCode(p[k].stmt)
    ensures SizeOf(InstrOf(p, k)) == StmtBytes(p[k].stmt)
  {
    ResolveSize(p[k].stmt.value.i, NameAddr(p, p[k].stmt));
  }

  /** Control follows the text: to the line an operand names, back to the line a return address stands for, or to the next line. */
  lemma LineStepLands(p: Program, s: State, k: nat)
    requires Distinct(AllLabels(p)) && DisjointLines(p) && k < |p| && IsCode(p[k].stmt) && s.pc == AddrOf(p, k)
    ensures var (t, e, next) := LineStep(p, s, k);
      CodeAt(p, 0, s.pc) == Some(k)
      && (e != AOK ==> SourceStep(p, s) == (t, e))
      && (e == AOK && next.Some? ==>
            next.value < |p| && IsCode(p[next.value].stmt) && SourceStep(p, s) == (t.(pc := AddrOf(p, next.value)), AOK))
  {
    hide Exec, PcAfter, DisjointLines, Distinct, AllLabels, AddrOf, Vm, CodeAt, NextLine, Dest, InstrOf, SizeOf, StmtBytes, Wrap, CondDoit;
    OnlyCodeAt(p, 0, k);
    NextFollows(p, k);
    NextLies(p, s, k);
    InstrSize(p, k);
    ExecPc(InstrOf(p, k), s, Vm(p[..k + 1]));
  }

  /** The address that an operand stands for is that of the instruction it names. */
  lemma DestAddr(p: Program, s: Option<Stmt>)
    requires Distinct(AllLabels(p)) && IsCode(s)
    requires s.value.i.Jump? || s.value.i.Call?
    ensures var d := s.value.i.dest; Dest(p, d).Some? ==> Value(d, NameAddr(p, s)) == AddrOf(p, Dest(p, d).value)
  {
    var n := NameIn(s);
    if n.Some? && LabelLine(p, n.value, 0).Some? { LabelNamesNext(p, LabelLine(p, n.value, 0).value, n.value); }
    hide LabelAddr, AllLabels, AddrOf, NextLine, LabelLine, CodeAt;
  }

  /** A taken jump to a label goes on with the instruction the label stands in front of, on its line or below. */
  lemma JumpLandsOnLabel(p: Program, s: State, j: nat, k: nat, name: string)
    requires Distinct(AllLabels(p)) && DisjointLines(p)
    requires k < |p| && name in p[k].labels && NextLine(p, k).Some?
    requires j < |p| && s.pc == AddrOf(p, j) && IsCode(p[j].stmt)
    requires p[j].stmt.value.i.Jump? && p[j].stmt.value.i.dest == Sym(name) && CondDoit(s.cc, p[j].stmt.value.i.cond)
    ensures var c := NextLine(p, k).value; SourceStep(p, s) == (s.(pc := AddrOf(p, c)), AOK) && CodeAt(p, 0, AddrOf(p, c)) == Some(c)
  {
    hide DisjointLines, Distinct, AllLabels, LabelAddr, AddrOf, Wrap, CondDoit, CodeAt, NextLine, Vm, SizeOf;
    LabelNamesNext(p, k, name);
    OnlyCodeAt(p, 0, j);
    OnlyCodeAt(p, 0, NextLine(p, k).value);
  }

  /** n steps by lines; None once control leaves the instructions of the text. */
  function LineRun(p: Program, s: State, k: nat, n: nat): Option<(State, Stat, nat)>
    requires k < |p| && IsCode(p[k].stmt)
    decreases n
  {
    if n == 0 then Some((s, AOK, k))
    else
      var (t, e, next) := LineStep(p, s, k);
      if e != AOK then Some((t, e, k))
      else if next.Some? && next.value < |p| && IsCode(p[next.value].stmt) then LineRun(p, t, next.value, n - 1)
      else None
  }

  /** Running by addresses is running by lines: the pc always is the address of the line. */
  lemma {:induction false} LineRunsAgree(p: Program, s: State, k: nat, n: nat)
    requires Distinct(AllLabels(p)) && DisjointLines(p) && k < |p| && IsCode(p[k].stmt)
    requires LineRun(p, s, k, n).Some?
    ensures var (t, e, k') := LineRun(p, s, k, n).value;
      k' < |p| && SourceRun(p, s.(pc := AddrOf(p, k)), n) == (t.(pc := AddrOf(p, k')), e)
    decreases n
  {
    hide LineStep, SourceStep, DisjointLines, Distinct, AllLabels, AddrOf, CodeAt;
    if n > 0 {
      var s0 := s.(pc := AddrOf(p, k));
      LineStepLands(p, s0, k);
      PcIgnored(p, s, AddrOf(p, k), k);
      var (t, e, next) := LineStep(p, s, k);
      if e == AOK { LineRunsAgree(p, t, next.value, n - 1); }
    }
  }

  lemma ExecIgnoresPc(i: Instr<Long>, s: State, pc: int, next: Long)
    ensures var (t, e) := Exec(i, s, next); var (t', e') := Exec(i, s.(pc := pc), next);
      e' == e && t'.(pc := pc) == t.(pc := pc)
  {
    hide CondDoit, ComputeAlu, ComputeCc, LongBytes, BytesLong, Splice, Wrap;
  }

  /** Stepping by lines does not look at the pc. */
  lemma PcIgnored(p: Program, s: State, pc: int, k: nat)
    requires k < |p| && IsCode(p[k].stmt)
    ensures var (t, e, next) := LineStep(p, s, k); LineStep(p, s.(pc := pc), k) == (t.(pc := pc), e, next)
  {
    hide Exec, InstrOf, Dest, NextLine, Vm, CodeAt, CondDoit, BytesLong;
    ExecIgnoresPc(InstrOf(p, k), s, pc, Vm(p[..k + 1]));
  }

  /** n steps by lines find an instruction to go on with, and none stores over code. */
  ghost predicate SafeLines(p: Program, s: State, k: nat, n: nat)
    requires k < |p| && IsCode(p[k].stmt)
    decreases n
  {
    n == 0 || (
      (StoreAddr(InstrOf(p, k), s).Some? ==> forall j :: 0 <= j < |p| && IsCode(p[j].stmt) ==>
          Apart(StoreAddr(InstrOf(p, k), s).value, 8, AddrOf(p, j), StmtBytes(p[j].stmt)))
      && var (t, e, next) := LineStep(p, s, k);
         e == AOK ==> next.Some? && next.value < |p| && IsCode(p[next.value].stmt) && SafeLines(p, t, next.value, n - 1))
  }

  lemma {:induction false} SafeLinesStay(p: Program, s: State, k: nat, n: nat)
    requires Distinct(AllLabels(p)) && DisjointLines(p) && k < |p| && IsCode(p[k].stmt) && SafeLines(p, s, k, n)
    ensures LineRun(p, s, k, n).Some? && StaysOnCode(p, s.(pc := AddrOf(p, k)), n)
    decreases n
  {
    hide LineStep, SourceStep, DisjointLines, Distinct, AllLabels, AddrOf, CodeAt, InstrOf, Apart;
    if n > 0 {
      var s0 := s.(pc := AddrOf(p, k));
      LineStepLands(p, s0, k);
      PcIgnored(p, s, AddrOf(p, k), k);
      var (t, e, next) := LineStep(p, s, k);
      assert SafeHere(p, s0);
      if e == AOK { SafeLinesStay(p, t, next.value, n - 1); }
    }
  }

  /** Assembling preserves meaning, by lines: the loaded image does what the lines of the text do, label by label. */
  lemma AssembledRunsByLines(p: Program, k: nat, n: nat)
    requires Image(p).Some? && DisjointLines(p) && |Image(p).value| < MEM_SIZE
    requires k < |p| && IsCode(p[k].stmt) && AddrOf(p, k) == 0 && SafeLines(p, StartState(Image(p).value), k, n)
    ensures var start := StartState(Image(p).value);
      LineRun(p, start, k, n).Some?
      && var (t, e, k') := LineRun(p, start, k, n).value;
         k' < |p| && MachineRun(start, n) == (t.(pc := AddrOf(p, k')), e)
  {
    hide Image, MachineRun, SourceRun, StaysOnCode, SafeLines, LineRun, DisjointLines, Distinct, AllLabels, AddrOf;
    var start := StartState(Image(p).value);
    assert start.(pc := 0) == start;
    AcceptedExactly(p);
    SafeLinesStay(p, start, k, n);
    LineRunsAgree(p, start, k, n);
    AssembledRunsLikeSource(p, n);
  }
}
