/** The assembler and the simulator together: assembled bytes run like the labelled program text. */
module Y86Correct {
  import opened Prelude
  import opened Bytes
  import opened Words
  import opened Y86Isa
  import opened Y86Asm
  import opened Y86Sim

  // ---------- symbols ----------

  lemma {:induction false} AddLabelsExact(syms: seq<Symbol>, vm: Long, labels: seq<string>)
    ensures AddLabels(syms, vm, labels).Some? <==>
      Distinct(labels) && forall i :: 0 <= i < |labels| ==> FindSymbol(syms, labels[i]) == None
    ensures AddLabels(syms, vm, labels).Some? ==> forall n ::
      FindSymbol(AddLabels(syms, vm, labels).value, n)
      == if FindSymbol(syms, n).Some? then FindSymbol(syms, n) else if n in labels then Some(vm) else None
    decreases labels
  {
    if labels != [] {
      var syms', rest := [Symbol(labels[0], vm)] + syms, labels[1..];
      assert syms'[1..] == syms;
      AddLabelsExact(syms', vm, rest);
      assert forall n :: FindSymbol(syms', n) == if n == labels[0] then Some(vm) else FindSymbol(syms, n);
      assert forall i :: 0 < i < |labels| ==> labels[i] == rest[i - 1];
      assert forall n :: n in labels <==> n == labels[0] || n in rest;
      assert Distinct(labels) <==> Distinct(rest) && labels[0] !in rest by {
        if labels[0] in rest {
          var j :| 0 <= j < |rest| && rest[j] == labels[0];
          assert labels[j + 1] == labels[0];
        }
        forall i, j | Distinct(labels) && 0 <= i < j < |rest| ensures rest[i] != rest[j] {
          assert labels[i + 1] != labels[j + 1];
        }
      }
    }
  }

  lemma {:induction false} DefinedNames(p: Program, n: string)
    ensures LabelAddr(p, n).Some? <==> n in AllLabels(p)
  {
    if p != [] { DefinedNames(p[..|p| - 1], n); }
  }

  lemma DistinctJoin(a: seq<string>, b: seq<string>)
    ensures Distinct(a + b) <==> Distinct(a) && Distinct(b) && forall i :: 0 <= i < |b| ==> b[i] !in a
  {
    if Distinct(a + b) {
      forall i, j | 0 <= i < j < |a| ensures a[i] != a[j] { assert (a + b)[i] != (a + b)[j]; }
      forall i, j | 0 <= i < j < |b| ensures b[i] != b[j] { assert (a + b)[|a| + i] != (a + b)[|a| + j]; }
      forall i, j | 0 <= i < |b| && 0 <= j < |a| ensures b[i] != a[j] { assert (a + b)[j] != (a + b)[|a| + i]; }
    } else {
      var i, j :| 0 <= i < j < |a + b| && (a + b)[i] == (a + b)[j];
      assert if j < |a| then a[i] == a[j] else if i < |a| then b[j - |a|] == a[i] else b[i - |a|] == b[j - |a|];
    }
  }

  // ---------- what parsing leaves behind ----------

  ghost predicate Parsed(p: Program, st: Asm) {
    st.vm == Vm(p) && |st.lines| == |p|
    && (forall k :: 0 <= k < |p| ==> st.lines[k] == RawBin(Vm(p[..k]), p[k]))
    && (forall n :: FindSymbol(st.syms, n) == LabelAddr(p, n))
    && RelocsExact(p, st.rels)
  }

  /** One entry for every line that names a symbol, and no other. */
  ghost predicate RelocsExact(p: Program, rels: seq<Reloc>) {
    (forall i :: 0 <= i < |rels| ==> rels[i].line < |p| && NameIn(p[rels[i].line].stmt) == Some(rels[i].name))
    && OneEach(rels)
    && (forall k :: 0 <= k < |p| && NameIn(p[k].stmt).Some? ==> Refers(rels, k))
  }

  ghost predicate OneEach(rels: seq<Reloc>) {
    forall i, j :: 0 <= i < j < |rels| ==> rels[i].line != rels[j].line
  }

  ghost predicate Refers(rels: seq<Reloc>, k: nat) {
    exists i :: 0 <= i < |rels| && rels[i].line == k
  }

  lemma RelocsSame(p: Program, rels: seq<Reloc>)
    requires p != [] && RelocsExact(p[..|p| - 1], rels) && NameIn(p[|p| - 1].stmt) == None
    ensures RelocsExact(p, rels)
  {
  }

  lemma RelocsGrow(p: Program, rels: seq<Reloc>)
    requires p != [] && RelocsExact(p[..|p| - 1], rels) && NameIn(p[|p| - 1].stmt).Some?
    ensures RelocsExact(p, [Reloc(NameIn(p[|p| - 1].stmt).value, |p| - 1)] + rels)
  {
    hide NameIn;
    var k, q := |p| - 1, p[..|p| - 1];
    var r := [Reloc(NameIn(p[k].stmt).value, k)] + rels;
    assert forall j :: 0 <= j < k ==> q[j] == p[j];
    assert forall i :: 1 <= i < |r| ==> r[i] == rels[i - 1];
    forall j | 0 <= j < |p| && NameIn(p[j].stmt).Some? ensures Refers(r, j) {
      if j == k {
        assert r[0].line == k;
      } else {
        assert Refers(rels, j);
        var i :| 0 <= i < |rels| && rels[i].line == j;
        assert r[i + 1] == rels[i];
      }
    }
  }

  lemma ParseFExact(st: Asm, q: Program, l: Line)
    requires Parsed(q, st)
    ensures ParseF(st, l).Some? <==>
      Distinct(l.labels) && (forall i :: 0 <= i < |l.labels| ==> l.labels[i] !in AllLabels(q)) && !DividesByZero(l.stmt)
  {
    hide RawBin, RelocsExact, Distinct, NameIn, StartOf, StmtBytes;
    AddLabelsExact(st.syms, st.vm, l.labels);
    forall i | 0 <= i < |l.labels| ensures FindSymbol(st.syms, l.labels[i]) == None <==> l.labels[i] !in AllLabels(q) {
      DefinedNames(q, l.labels[i]);
    }
  }

  /** All labels differ and no alignment is zero. */
  ghost predicate Parses(p: Program) {
    Distinct(AllLabels(p)) && forall k :: 0 <= k < |p| ==> !DividesByZero(p[k].stmt)
  }

  lemma ParsesGrows(p: Program)
    requires p != []
    ensures var q, l := p[..|p| - 1], p[|p| - 1];
      Parses(p) <==> Parses(q) && Distinct(l.labels) && (forall i :: 0 <= i < |l.labels| ==> l.labels[i] !in AllLabels(q)) && !DividesByZero(l.stmt)
  {
    var q, l := p[..|p| - 1], p[|p| - 1];
    DistinctJoin(AllLabels(q), l.labels);
    assert AllLabels(p) == AllLabels(q) + l.labels;
    assert forall k :: 0 <= k < |q| ==> q[k] == p[k];
    hide Distinct, AllLabels, DividesByZero;
  }

  /** Parsing succeeds exactly for distinct labels and nonzero alignments; then every table is exact. */
  lemma {:induction false} ParseExact(p: Program)
    ensures ParseAll(p).Some? <==> Parses(p)
    ensures ParseAll(p).Some? ==> Parsed(p, ParseAll(p).value)
  {
    if p != [] {
      hide Parses, ParseF, Parsed, DividesByZero, AllLabels, Distinct;
      ParseExact(p[..|p| - 1]);
      ParsesGrows(p);
      if ParseAll(p[..|p| - 1]).Some? {
        ParseFExact(ParseAll(p[..|p| - 1]).value, p[..|p| - 1], p[|p| - 1]);
        if ParseAll(p).Some? {
          ParsedGrows(p, ParseAll(p[..|p| - 1]).value);
        }
      }
    }
  }

  /** One more line moves the counter and may define labels. */
  lemma TextGrows(p: Program)
    requires p != []
    ensures var q, l := p[..|p| - 1], p[|p| - 1];
      Vm(p) == Wrap(StartOf(Vm(q), l.stmt) + StmtBytes(l.stmt))
      && forall n :: LabelAddr(p, n) == if LabelAddr(q, n).Some? then LabelAddr(q, n) else if n in l.labels then Some(Vm(q)) else None
  {
  }

  lemma ParsedGrows(p: Program, st: Asm)
    requires p != [] && Parsed(p[..|p| - 1], st) && ParseF(st, p[|p| - 1]).Some?
    ensures Parsed(p, ParseF(st, p[|p| - 1]).value)
  {
    hide RawBin, RelocsExact, StartOf, StmtBytes, Distinct, Vm, LabelAddr, AddLabels, NameIn;
    var q, l := p[..|p| - 1], p[|p| - 1];
    var st' := ParseF(st, l).value;
    TextGrows(p);
    AddLabelsExact(st.syms, st.vm, l.labels);
    LinesGrow(p, st.lines);
    if NameIn(l.stmt).Some? { RelocsGrow(p, st.rels); } else { RelocsSame(p, st.rels); }
  }

  lemma LinesGrow(p: Program, lines: seq<Bin>)
    requires p != [] && |lines| == |p| - 1
    requires forall k :: 0 <= k < |p| - 1 ==> lines[k] == RawBin(Vm(p[..|p| - 1][..k]), p[..|p| - 1][k])
    ensures var lines' := lines + [RawBin(Vm(p[..|p| - 1]), p[|p| - 1])];
      forall k :: 0 <= k < |p| ==> lines'[k] == RawBin(Vm(p[..k]), p[k])
  {
    hide RawBin, Vm;
    var q := p[..|p| - 1];
    forall k | 0 <= k < |q| ensures q[k] == p[k] && p[..k] == q[..k] {}
  }

  // ---------- relocation ----------

  /** Relocation succeeds exactly when every name is defined; it patches exactly the referring lines. */
  lemma {:induction false} RelocateExact(lines: seq<Bin>, rels: seq<Reloc>, syms: seq<Symbol>)
    requires OneEach(rels) && forall i :: 0 <= i < |rels| ==> rels[i].line < |lines|
    ensures RelocateF(lines, rels, syms).Some? <==> forall i :: 0 <= i < |rels| ==> FindSymbol(syms, rels[i].name).Some?
    ensures RelocateF(lines, rels, syms).Some? ==>
      var r := RelocateF(lines, rels, syms).value;
      |r| == |lines|
      && (forall k :: 0 <= k < |lines| && !Refers(rels, k) ==> r[k] == lines[k])
      && (forall i :: 0 <= i < |rels| ==> r[rels[i].line] == Patch(lines[rels[i].line], FindSymbol(syms, rels[i].name).value))
    decreases rels
  {
    hide Patch;
    if rels != [] {
      var r0, rest := rels[0], rels[1..];
      var a := FindSymbol(syms, r0.name);
      assert forall i :: 0 < i < |rels| ==> rels[i] == rest[i - 1];
      if a.Some? {
        var lines' := lines[r0.line := Patch(lines[r0.line], a.value)];
        RelocateExact(lines', rest, syms);
        assert !Refers(rest, r0.line);
        forall k | 0 <= k < |lines| && !Refers(rels, k) ensures k != r0.line && !Refers(rest, k) {
          assert rels[0].line != k;
          forall i | 0 <= i < |rest| ensures rest[i].line != k { assert rels[i + 1].line != k; }
        }
      }
    }
  }

  /** The address that the name in a statement stands for. */
  function NameAddr(p: Program, s: Option<Stmt>): Long {
    if NameIn(s).Some? && LabelAddr(p, NameIn(s).value).Some? then LabelAddr(p, NameIn(s).value).value else 0
  }

  lemma UnnamedBytes(s: Option<Stmt>, a: Long)
    requires NameIn(s) == None
    ensures Emitted(s, a) == Emitted(s, 0)
  {
  }

  lemma PadPrefix(bs: seq<Byte>)
    requires |bs| <= 10
    ensures Pad(bs)[..|bs|] == bs
  {
  }

  /** Eight bytes spliced behind the head replace the eight that were there. */
  lemma SpliceTail(head: seq<Byte>, was: seq<Byte>, bs: seq<Byte>)
    requires 1 <= |head| <= 2 && |was| == |bs| == 8
    ensures Splice(Pad(head + was), |head|, bs)[..|head| + 8] == head + bs
  {
  }

  lemma PatchedCode(i: Instr<Operand>, a: Long)
    requires NameIn(Some(Code(i))).Some?
    ensures var codes := RawCodes(Some(Code(i)));
      Splice(codes, PatchOffset(codes), LongBytes(a))[..SizeOf(i)] == Encode(Resolve(i, a))
  {
    hide LongBytes, HPack, High, Low, Splice, Pad;
    var (icode, ifun) := CodeOf(i);
    UnpackByte(icode, ifun);
    var h, zeros := [HPack(icode, ifun)], LongBytes(0);
    if i.Irmovq? {
      var head := h + [HPack(15, i.rb)];
      SpliceTail(head, zeros, LongBytes(a));
      PadPrefix(head + zeros);
    } else {
      SpliceTail(h, zeros, LongBytes(a));
      PadPrefix(h + zeros);
    }
  }

  lemma PatchedData(w: Width, name: string, a: Long)
    ensures var codes := RawCodes(Some(Data(w, Sym(name))));
      PatchOffset(codes) == 0 && Splice(codes, 0, LongBytes(a))[..w] == LongBytes(a)[..w]
  {
    var codes := RawCodes(Some(Data(w, Sym(name))));
    assert LongBytes(0)[0] == 0;
    hide LongBytes;
    assert codes[0] == 0;
  }

  /** Patching puts the address into the operand field, wherever the encoding has it, and nowhere else. */
  lemma PatchedBytes(vm: Long, l: Line, a: Long)
    requires NameIn(l.stmt).Some?
    ensures Patch(RawBin(vm, l), a).codes[..StmtBytes(l.stmt)] == Emitted(l.stmt, a)
  {
    hide RawCodes, PatchOffset, LongBytes, Splice, Encode, Resolve, StartOf;
    match l.stmt.value
    case Code(i) => PatchedCode(i, a);
    case Data(w, v) => PatchedData(w, v.name, a);
  }

  // ---------- the image ----------

  function Relocated(st: Asm): Option<seq<Bin>>
    requires forall i :: 0 <= i < |st.rels| ==> st.rels[i].line < |st.lines|
  {
    RelocateF(st.lines, st.rels, st.syms)
  }

  /** The whole assembler: parse, relocate, write. */
  function Image(p: Program): Option<seq<Byte>> {
    ParseExact(p);
    var st := ParseAll(p);
    if st == None then None
    else
      var lines := Relocated(st.value);
      if lines == None then None
      else
        FinalLines(p);
        WriteLines([], lines.value)
  }

  /** After relocation every line carries exactly its bytes, at its address. */
  lemma FinalLines(p: Program)
    requires ParseAll(p).Some?
    ensures Parsed(p, ParseAll(p).value)
    ensures var st := ParseAll(p).value;
      var r := Relocated(st);
      (r.Some? <==> forall k :: 0 <= k < |p| && NameIn(p[k].stmt).Some? ==> LabelAddr(p, NameIn(p[k].stmt).value).Some?)
      && (r.Some? ==> |r.value| == |p| && GoodBins(r.value) && forall k :: 0 <= k < |p| ==> FinalBin(p, k, r.value[k]))
  {
    ParseExact(p);
    var st := ParseAll(p).value;
    RelocateExact(st.lines, st.rels, st.syms);
    forall k | 0 <= k < |p| && NameIn(p[k].stmt).Some? ensures Refers(st.rels, k) {}
    var r := Relocated(st);
    if r.Some? {
      forall k | 0 <= k < |p| ensures FinalBin(p, k, r.value[k]) {
        FinalLine(p, st, r.value, k);
      }
    }
  }

  /** b is line k as it is written. */
  ghost predicate FinalBin(p: Program, k: nat, b: Bin)
    requires k < |p|
  {
    b.ins == (p[k].labels != [] || p[k].stmt.Some?)
    && (b.ins ==> b.addr == AddrOf(p, k))
    && b.bytes == StmtBytes(p[k].stmt) && 0 <= b.bytes <= 10
    && b.codes[..b.bytes] == Emitted(p[k].stmt, NameAddr(p, p[k].stmt))
  }

  lemma FinalLine(p: Program, st: Asm, r: seq<Bin>, k: nat)
    requires Parsed(p, st) && k < |p| && |r| == |p|
    requires forall j :: 0 <= j < |p| && !Refers(st.rels, j) ==> r[j] == st.lines[j]
    requires forall i :: 0 <= i < |st.rels| ==>
      FindSymbol(st.syms, st.rels[i].name).Some?
      && r[st.rels[i].line] == Patch(st.lines[st.rels[i].line], FindSymbol(st.syms, st.rels[i].name).value)
    ensures FinalBin(p, k, r[k])
  {
    hide LongBytes, Encode, Resolve, Emitted, RawCodes, PatchOffset, StartOf, Vm, LabelAddr, FindSymbol;
    if Refers(st.rels, k) {
      var i :| 0 <= i < |st.rels| && st.rels[i].line == k;
      PatchedBytes(Vm(p[..k]), p[k], FindSymbol(st.syms, st.rels[i].name).value);
    } else {
      UnnamedLine(Vm(p[..k]), p[k], NameAddr(p, p[k].stmt));
    }
  }

  lemma UnnamedLine(vm: Long, l: Line, a: Long)
    requires NameIn(l.stmt) == None
    ensures RawBin(vm, l).codes[..StmtBytes(l.stmt)] == Emitted(l.stmt, a)
  {
    hide Emitted, Pad;
    UnnamedBytes(l.stmt, a);
    PadPrefix(Emitted(l.stmt, 0));
    match l.stmt
    case Some(Code(_)) =>
    case Some(Data(_, _)) =>
    case _ => assert RawBin(vm, l).codes[..0] == Emitted(l.stmt, a);
  }

  lemma WriteHolds(file: seq<Byte>, addr: nat, bs: seq<Byte>)
    ensures bs != [] ==> Holds(WriteAt(file, addr, bs), addr, bs)
  {
  }

  lemma WriteKeeps(file: seq<Byte>, addr: nat, bs: seq<Byte>, q: int, cs: seq<Byte>)
    requires Holds(file, q, cs) && (bs == [] || Apart(q, |cs|, addr, |bs|))
    ensures Holds(WriteAt(file, addr, bs), q, cs)
  {
  }

  /** Later lines that lie apart keep what the file holds. */
  lemma {:induction false} LinesKeep(file: seq<Byte>, lines: seq<Bin>, q: int, cs: seq<Byte>)
    requires GoodBins(lines) && Holds(file, q, cs) && WriteLines(file, lines).Some?
    requires forall i :: 0 <= i < |lines| && lines[i].ins && lines[i].bytes > 0 ==> Apart(q, |cs|, lines[i].addr, lines[i].bytes)
    ensures Holds(WriteLines(file, lines).value, q, cs)
    decreases lines
  {
    if lines != [] {
      var l, rest := lines[0], lines[1..];
      assert GoodBins(rest) && forall i :: 0 <= i < |rest| ==> rest[i] == lines[i + 1];
      if l.ins {
        WriteKeeps(file, l.addr, l.codes[..l.bytes], q, cs);
        LinesKeep(WriteAt(file, l.addr, l.codes[..l.bytes]), rest, q, cs);
      } else {
        LinesKeep(file, rest, q, cs);
      }
    }
  }

  /** Line k is in the image unless a later line overwrites it. */
  lemma {:induction false} LinesHold(file: seq<Byte>, lines: seq<Bin>, k: nat)
    requires GoodBins(lines) && k < |lines| && lines[k].ins && lines[k].bytes > 0 && WriteLines(file, lines).Some?
    requires forall i :: k < i < |lines| && lines[i].ins && lines[i].bytes > 0 ==>
      Apart(lines[k].addr, lines[k].bytes, lines[i].addr, lines[i].bytes)
    ensures Holds(WriteLines(file, lines).value, lines[k].addr, lines[k].codes[..lines[k].bytes])
    decreases lines
  {
    var l, rest := lines[0], lines[1..];
    assert GoodBins(rest) && forall i :: 0 <= i < |rest| ==> rest[i] == lines[i + 1];
    var file' := if l.ins then WriteAt(file, l.addr, l.codes[..l.bytes]) else file;
    if k == 0 {
      WriteHolds(file, l.addr, l.codes[..l.bytes]);
      LinesKeep(file', rest, l.addr, l.codes[..l.bytes]);
    } else {
      LinesHold(file', rest, k - 1);
    }
  }

  lemma {:induction false} WriteSucceeds(file: seq<Byte>, lines: seq<Bin>)
    requires GoodBins(lines)
    ensures WriteLines(file, lines).Some? <==> forall i :: 0 <= i < |lines| && lines[i].ins ==> 0 <= lines[i].addr
    decreases lines
  {
    if lines != [] {
      var l, rest := lines[0], lines[1..];
      assert GoodBins(rest) && forall i :: 0 < i < |lines| ==> lines[i] == rest[i - 1];
      if !l.ins {
        WriteSucceeds(file, rest);
      } else if l.addr >= 0 {
        WriteSucceeds(WriteAt(file, l.addr, l.codes[..l.bytes]), rest);
      }
    }
  }

  ghost predicate NamesDefined(p: Program) {
    forall k :: 0 <= k < |p| && NameIn(p[k].stmt).Some? ==> NameIn(p[k].stmt).value in AllLabels(p)
  }

  ghost predicate AddressesNonNegative(p: Program) {
    forall k :: 0 <= k < |p| && (p[k].labels != [] || p[k].stmt.Some?) ==> 0 <= AddrOf(p, k)
  }

  lemma RelocatesExactly(p: Program)
    requires ParseAll(p).Some?
    ensures Parsed(p, ParseAll(p).value)
    ensures Relocated(ParseAll(p).value).Some? <==> NamesDefined(p)
  {
    hide LabelAddr, AllLabels, NameIn, RelocateF;
    FinalLines(p);
    forall k | 0 <= k < |p| && NameIn(p[k].stmt).Some?
      ensures LabelAddr(p, NameIn(p[k].stmt).value).Some? <==> NameIn(p[k].stmt).value in AllLabels(p)
    {
      DefinedNames(p, NameIn(p[k].stmt).value);
    }
    assert NamesDefined(p) <==>
      forall k :: 0 <= k < |p| && NameIn(p[k].stmt).Some? ==> LabelAddr(p, NameIn(p[k].stmt).value).Some?;
  }

  lemma WritesExactly(p: Program)
    requires ParseAll(p).Some?
    ensures Parsed(p, ParseAll(p).value)
    ensures Relocated(ParseAll(p).value).Some? ==> (Image(p).Some? <==> AddressesNonNegative(p))
    ensures Image(p).Some? ==> Relocated(ParseAll(p).value).Some?
  {
    hide RelocateF, WriteLines, AddrOf, Emitted, NameAddr;
    FinalLines(p);
    var r := Relocated(ParseAll(p).value);
    if r.Some? {
      WriteSucceeds([], r.value);
      forall k | 0 <= k < |p|
        ensures r.value[k].ins <==> p[k].labels != [] || p[k].stmt.Some?
        ensures r.value[k].ins ==> r.value[k].addr == AddrOf(p, k)
      {
        assert FinalBin(p, k, r.value[k]);
      }
      assert AddressesNonNegative(p) <==> forall k :: 0 <= k < |p| && r.value[k].ins ==> 0 <= r.value[k].addr;
    }
  }

  /** The assembler accepts exactly the programs with distinct labels, nonzero alignments, defined names and nonnegative addresses. */
  lemma AcceptedExactly(p: Program)
    ensures Image(p).Some? <==>
      Distinct(AllLabels(p)) && (forall k :: 0 <= k < |p| ==> !DividesByZero(p[k].stmt))
      && NamesDefined(p) && AddressesNonNegative(p)
  {
    ParseExact(p);
    if ParseAll(p).Some? {
      RelocatesExactly(p);
      WritesExactly(p);
    }
  }

  ghost predicate DisjointLines(p: Program) {
    forall j, k :: 0 <= j < k < |p| && StmtBytes(p[j].stmt) > 0 && StmtBytes(p[k].stmt) > 0 ==>
      Apart(AddrOf(p, j), StmtBytes(p[j].stmt), AddrOf(p, k), StmtBytes(p[k].stmt))
  }

  /** The image holds every line's bytes, names replaced by addresses, at the line's address. */
  lemma ImageHoldsLines(p: Program, k: nat)
    requires Image(p).Some? && DisjointLines(p) && k < |p| && StmtBytes(p[k].stmt) > 0
    ensures Holds(Image(p).value, AddrOf(p, k), Emitted(p[k].stmt, NameAddr(p, p[k].stmt)))
  {
    ParseExact(p);
    FinalLines(p);
    var st := ParseAll(p).value;
    var r := Relocated(st).value;
    assert FinalBin(p, k, r[k]);
    forall i | k < i < |r| && r[i].ins && r[i].bytes > 0 ensures Apart(r[k].addr, r[k].bytes, r[i].addr, r[i].bytes) {
      assert FinalBin(p, i, r[i]);
    }
    LinesHold([], r, k);
  }

  // ---------- running ----------

  lemma {:induction false} LinesExtent(file: seq<Byte>, lines: seq<Bin>, limit: nat)
    requires GoodBins(lines) && WriteLines(file, lines).Some?
    ensures |WriteLines(file, lines).value| <= limit <==>
      |file| <= limit && forall i :: 0 <= i < |lines| && lines[i].ins && lines[i].bytes > 0 ==> lines[i].addr + lines[i].bytes <= limit
    decreases lines
  {
    if lines != [] {
      var l, rest := lines[0], lines[1..];
      assert GoodBins(rest);
      assert forall i :: 0 < i < |lines| ==> lines[i] == rest[i - 1];
      var file' := if l.ins then WriteAt(file, l.addr, l.codes[..l.bytes]) else file;
      assert |file'| == if l.ins && l.bytes > 0 && l.addr + l.bytes > |file| then l.addr + l.bytes else |file|;
      hide WriteAt;
      LinesExtent(file', rest, limit);
    }
  }

  lemma {:induction false} LinesGap(file: seq<Byte>, lines: seq<Bin>, q: nat)
    requires GoodBins(lines) && WriteLines(file, lines).Some?
    requires forall i :: 0 <= i < |lines| && lines[i].ins && lines[i].bytes > 0 ==> Apart(q, 1, lines[i].addr, lines[i].bytes)
    requires q < |file| ==> file[q] == 0
    ensures q < |WriteLines(file, lines).value| ==> WriteLines(file, lines).value[q] == 0
    decreases lines
  {
    if lines != [] {
      var l, rest := lines[0], lines[1..];
      assert GoodBins(rest);
      assert forall i :: 0 < i < |lines| ==> lines[i] == rest[i - 1];
      var file' := if l.ins then WriteAt(file, l.addr, l.codes[..l.bytes]) else file;
      assert q < |file'| ==> file'[q] == 0;
      hide WriteAt;
      LinesGap(file', rest, q);
    }
  }

  lemma ImageIsLines(p: Program) returns (r: seq<Bin>)
    requires Image(p).Some?
    ensures |r| == |p| && GoodBins(r) && WriteLines([], r) == Image(p) && forall k :: 0 <= k < |p| ==> FinalBin(p, k, r[k])
  {
    hide RelocateF, WriteLines, FinalBin;
    FinalLines(p);
    r := Relocated(ParseAll(p).value).value;
  }

  /** The image ends where its furthest line does. */
  lemma ImageExtent(p: Program, limit: nat)
    requires Image(p).Some?
    ensures |Image(p).value| <= limit <==> forall k :: 0 <= k < |p| && StmtBytes(p[k].stmt) > 0 ==> AddrOf(p, k) + StmtBytes(p[k].stmt) <= limit
  {
    hide Image, WriteLines, AddrOf, Emitted, NameAddr;
    var r := ImageIsLines(p);
    forall k | 0 <= k < |p| ensures FinalBin(p, k, r[k]) && (StmtBytes(p[k].stmt) > 0 ==> r[k].ins) {}
    hide FinalBin;
    LinesExtent([], r, limit);
  }

  /** Bytes that no line covers are zero. */
  lemma ImageGap(p: Program, q: nat)
    requires Image(p).Some? && q < |Image(p).value|
    requires forall k :: 0 <= k < |p| && StmtBytes(p[k].stmt) > 0 ==> Apart(q, 1, AddrOf(p, k), StmtBytes(p[k].stmt))
    ensures Image(p).value[q] == 0
  {
    hide Image, WriteLines, AddrOf, Emitted, NameAddr;
    var r := ImageIsLines(p);
    assert forall k :: 0 <= k < |p| ==> FinalBin(p, k, r[k]);
    LinesGap([], r, q);
  }

  predicate IsCode(s: Option<Stmt>) {
    s.Some? && s.value.Code?
  }

  /** The first code line, from line k on, at address pc. */
  function CodeAt(p: Program, k: nat, pc: int): (r: Option<nat>)
    requires k <= |p|
    ensures r.Some? ==> k <= r.value < |p| && IsCode(p[r.value].stmt) && AddrOf(p, r.value) == pc
    decreases |p| - k
  {
    if k == |p| then None
    else if IsCode(p[k].stmt) && AddrOf(p, k) == pc then Some(k)
    else CodeAt(p, k + 1, pc)
  }

  /** The instruction of code line k, with its label replaced by the address it stands for. */
  function InstrOf(p: Program, k: nat): Instr<Long>
    requires k < |p| && IsCode(p[k].stmt)
  {
    Resolve(p[k].stmt.value.i, NameAddr(p, p[k].stmt))
  }

  /** One step of the program text itself: no bytes are read, only the text. */
  function SourceStep(p: Program, s: State): (State, Stat) {
    match CodeAt(p, 0, s.pc)
    case None => (s, INS)
    case Some(k) => Exec(InstrOf(p, k), s, Wrap(s.pc + SizeOf(InstrOf(p, k))))
  }

  function SourceRun(p: Program, s: State, n: nat): (State, Stat)
    decreases n
  {
    if n == 0 then (s, AOK)
    else
      var (t, e) := SourceStep(p, s);
      if e == AOK then SourceRun(p, t, n - 1) else (t, e)
  }

  /** Where instruction i stores eight bytes, if it does. */
  function StoreAddr(i: Instr<Long>, s: State): Option<int> {
    match i
    case Rmmovq(_, d, rb) => Some(Wrap(s.regs[rb] + d))
    case Call(_) => Some(Wrap(Rsp(s) - 8))
    case Pushq(_) => Some(Wrap(Rsp(s) - 8))
    case _ => None
  }

  /** At s the text has an instruction to run, and it does not store over code. */
  ghost predicate SafeHere(p: Program, s: State) {
    match CodeAt(p, 0, s.pc)
    case None => false
    case Some(k) =>
      StoreAddr(InstrOf(p, k), s).Some? ==>
        forall j :: 0 <= j < |p| && IsCode(p[j].stmt) ==>
          Apart(StoreAddr(InstrOf(p, k), s).value, 8, AddrOf(p, j), StmtBytes(p[j].stmt))
  }

  /** The first n steps of the text stay on its instructions and leave its code alone. */
  ghost predicate StaysOnCode(p: Program, s: State, n: nat)
    decreases n
  {
    n == 0 || (SafeHere(p, s) && (SourceStep(p, s).1 == AOK ==> StaysOnCode(p, SourceStep(p, s).0, n - 1)))
  }

  ghost predicate CodeIntact(p: Program, m: seq<Byte>) {
    forall k :: 0 <= k < |p| && IsCode(p[k].stmt) ==> Holds(m, AddrOf(p, k), Encode(InstrOf(p, k)))
  }

  lemma ExecMemory(i: Instr<Long>, s: State, next: Long)
    ensures var m := Exec(i, s, next).0.mem;
      |m| == |s.mem|
      && forall k :: 0 <= k < |m| && (StoreAddr(i, s) == None || Apart(StoreAddr(i, s).value, 8, k, 1)) ==> m[k] == s.mem[k]
  {
  }

  /** A step that stores beside the code leaves the code. */
  lemma StepKeepsCode(p: Program, s: State)
    requires CodeIntact(p, s.mem) && SafeHere(p, s)
    ensures CodeIntact(p, SourceStep(p, s).0.mem) && |SourceStep(p, s).0.mem| == |s.mem|
  {
    hide Exec, Encode, StoreAddr, Resolve, AddrOf;
    var k := CodeAt(p, 0, s.pc).value;
    var i := InstrOf(p, k);
    var m := SourceStep(p, s).0.mem;
    ExecMemory(i, s, Wrap(s.pc + SizeOf(i)));
    forall j | 0 <= j < |p| && IsCode(p[j].stmt) ensures Holds(m, AddrOf(p, j), Encode(InstrOf(p, j))) {
      var a, bs := AddrOf(p, j), Encode(InstrOf(p, j));
      ResolveSize(p[j].stmt.value.i, NameAddr(p, p[j].stmt));
      assert m[a..a + |bs|] == s.mem[a..a + |bs|];
    }
  }

  lemma ResolveSize(i: Instr<Operand>, a: Long)
    ensures SizeOf(Resolve(i, a)) == SizeOf(i)
  {
  }

  /** Where the code is intact, one machine step is one step of the text. */
  lemma StepsAgree(p: Program, s: State)
    requires CodeIntact(p, s.mem) && SafeHere(p, s) && |s.mem| < TWO31
    ensures NextI(s) == SourceStep(p, s)
  {
    hide NextI, Exec, Encode, Resolve;
    var i := InstrOf(p, CodeAt(p, 0, s.pc).value);
    StepRefinesExec(i, s);
  }

  /** Simulation over n steps: registers, flags, memory, program counter and status all agree. */
  lemma {:induction false} RunsAgree(p: Program, s: State, n: nat)
    requires CodeIntact(p, s.mem) && StaysOnCode(p, s, n) && |s.mem| < TWO31
    ensures MachineRun(s, n) == SourceRun(p, s, n)
    decreases n
  {
    hide NextI, SourceStep, SafeHere, CodeIntact;
    if n > 0 {
      StepsAgree(p, s);
      StepKeepsCode(p, s);
      var (t, e) := SourceStep(p, s);
      if e == AOK { RunsAgree(p, t, n - 1); }
    }
  }

  /** The state in which the simulator starts on a loaded image. */
  function StartState(file: seq<Byte>): State
    requires |file| < MEM_SIZE
  {
    State(0, seq(15, i => 0), DEFAULT_CC, Splice(Zeros(MEM_SIZE), 0, file))
  }

  lemma LoadedHolds(file: seq<Byte>, a: int, bs: seq<Byte>)
    requires |file| < MEM_SIZE && Holds(file, a, bs)
    ensures Holds(StartState(file).mem, a, bs)
  {
  }

  /** Assembling preserves meaning: the loaded image runs as the program text says. */
  lemma AssembledRunsLikeSource(p: Program, n: nat)
    requires Image(p).Some? && DisjointLines(p) && |Image(p).value| < MEM_SIZE
    requires StaysOnCode(p, StartState(Image(p).value), n)
    ensures MachineRun(StartState(Image(p).value), n) == SourceRun(p, StartState(Image(p).value), n)
  {
    hide Image, MachineRun, SourceRun, StaysOnCode, Encode, Resolve;
    var f := Image(p).value;
    var s := StartState(f);
    forall k | 0 <= k < |p| && IsCode(p[k].stmt) ensures Holds(s.mem, AddrOf(p, k), Encode(InstrOf(p, k))) {
      ImageHoldsLines(p, k);
      LoadedHolds(f, AddrOf(p, k), Encode(InstrOf(p, k)));
    }
    RunsAgree(p, s, n);
  }

  // ---------- the tools themselves ----------

  method AssembleFile(p: Program) returns (ok: bool, file: seq<Byte>)
    ensures ok <==> Image(p).Some?
    ensures ok ==> file == Image(p).value
  {
    hide ParseAll, RelocateF, WriteLines;
    ParseExact(p);
    file := [];
    var asm := new Assembler();
    ok := asm.Assemble(p);
    if !ok { return; }
    FinalLines(p);
    ok := asm.Relocate();
    if !ok { return; }
    ok, file := asm.Binfile();
  }

  /** Assemble, load and run: what the simulator reports is what the program text does. */
  method AssembleAndRun(p: Program, maxSteps: nat) returns (ok: bool, final: State, e: Stat)
    requires DisjointLines(p)
    requires Image(p).Some? && |Image(p).value| < MEM_SIZE ==> StaysOnCode(p, StartState(Image(p).value), maxSteps)
    ensures ok <==> Image(p).Some? && |Image(p).value| < MEM_SIZE
    ensures ok ==> (final, e) == SourceRun(p, StartState(Image(p).value), maxSteps)
  {
    hide Image, SourceRun, StaysOnCode, MachineRun, DisjointLines;
    var file;
    ok, file := AssembleFile(p);
    final, e := State(0, seq(15, i => 0), DEFAULT_CC, []), AOK;
    if !ok { return; }
    var sim := new Machine(MEM_SIZE);
    assert sim.m[..] == Zeros(MEM_SIZE);
    ok := sim.LoadBinfile(file);
    if !ok { return; }
    assert sim.View() == StartState(file);
    var steps;
    steps, e := sim.Run(maxSteps);
    final := sim.View();
    AssembledRunsLikeSource(p, maxSteps);
  }

  // ---------- a program ----------

  /** loop: jmp loop */
  const LOOP: Program := [Line(["loop"], Some(Code(Jump(0, Sym("loop")))))]

  lemma LoopFacts()
    ensures AllLabels(LOOP) == ["loop"] && LabelAddr(LOOP, "loop") == Some(0) && AddrOf(LOOP, 0) == 0
    ensures CodeAt(LOOP, 0, 0) == Some(0)
  {
    assert LOOP[..0] == [] && Vm([]) == 0 && LabelAddr([], "loop") == None && AllLabels([]) == [];
  }

  lemma LoopAssembles()
    ensures Image(LOOP).Some? && DisjointLines(LOOP) && |Image(LOOP).value| == 9
  {
    LoopFacts();
    hide AllLabels, LabelAddr, Image, AddrOf;
    AcceptedExactly(LOOP);
    ImageExtent(LOOP, 9);
    ImageExtent(LOOP, 8);
  }

  lemma {:induction false} LoopStays(s: State, n: nat)
    requires s.pc == 0
    ensures StaysOnCode(LOOP, s, n) && SourceRun(LOOP, s, n) == (s, AOK)
    decreases n
  {
    LoopFacts();
    hide AllLabels, LabelAddr, CodeAt;
    assert InstrOf(LOOP, 0) == Jump(0, 0);
    assert s.(pc := 0) == s;
    if n > 0 { LoopStays(s, n - 1); }
  }

  /** A jump to its own label: assembled, loaded and run for any number of steps, the machine stays where it is. */
  lemma LoopRunsForever(n: nat)
    ensures Image(LOOP).Some? && |Image(LOOP).value| < MEM_SIZE
    ensures MachineRun(StartState(Image(LOOP).value), n) == (StartState(Image(LOOP).value), AOK)
  {
    LoopAssembles();
    LoopStays(StartState(Image(LOOP).value), n);
    hide Image, StartState, StaysOnCode, SourceRun, MachineRun;
    AssembledRunsLikeSource(LOOP, n);
  }
}
