/** lab6/ncopy.ys: the unrolled copy-and-count routine on a step machine that also has iaddq. */
module Ncopy {
  import opened Prelude
  import opened Bytes
  import opened Words
  import opened Y86Isa
  import opened Y86Sim

  const RAX: Reg := 0
  const RDX: Reg := 2
  const RBX: Reg := 3
  const RSI: Reg := 6
  const RDI: Reg := 7

  datatype Op =
    | Iaddq(v: Long, r: Reg)
    | Andq(r: Reg)
    | Xorq(r: Reg)
    | Load(disp: int, ra: Reg)   // mrmovq disp(%rdi), ra
    | Save(ra: Reg, disp: int)   // rmmovq ra, disp(%rsi)
    | Jmp(cond: Cond, dest: nat)

  const LE: Cond := 1
  const LT: Cond := 2
  const GE: Cond := 5

  const LOOP1 := 3
  const NPOS12 := 47
  const LOOP2 := 49
  const NPOS13 := 61
  const LOOP := 63
  const DONE := 70

  /** The routine: instruction number and instruction; labels on the right. */
  function OpAt(pc: int): Op
    requires 0 <= pc < DONE
  {
    match pc
    case 0 => Xorq(RAX)
    case 1 => Iaddq(-8, RDX)
    case 2 => Jmp(LT, NPOS12)
    case 3 => Load(0, 8)  // Loop1
    case 4 => Load(8, 9)
    case 5 => Load(16, 10)
    case 6 => Load(24, 11)
    case 7 => Load(32, 12)
    case 8 => Load(40, 13)
    case 9 => Load(48, 14)
    case 10 => Load(56, RBX)
    case 11 => Save(8, 0)
    case 12 => Save(9, 8)
    case 13 => Save(10, 16)
    case 14 => Save(11, 24)
    case 15 => Save(12, 32)
    case 16 => Save(13, 40)
    case 17 => Save(14, 48)
    case 18 => Save(RBX, 56)
    case 19 => Iaddq(64, RDI)
    case 20 => Iaddq(64, RSI)
    case 21 => Andq(8)  // Npos1
    case 22 => Jmp(LE, 24)
    case 23 => Iaddq(1, RAX)
    case 24 => Andq(9)  // Npos2
    case 25 => Jmp(LE, 27)
    case 26 => Iaddq(1, RAX)
    case 27 => Andq(10)  // Npos3
    case 28 => Jmp(LE, 30)
    case 29 => Iaddq(1, RAX)
    case 30 => Andq(11)  // Npos4
    case 31 => Jmp(LE, 33)
    case 32 => Iaddq(1, RAX)
    case 33 => Andq(12)  // Npos5
    case 34 => Jmp(LE, 36)
    case 35 => Iaddq(1, RAX)
    case 36 => Andq(13)  // Npos6
    case 37 => Jmp(LE, 39)
    case 38 => Iaddq(1, RAX)
    case 39 => Andq(14)  // Npos7
    case 40 => Jmp(LE, 42)
    case 41 => Iaddq(1, RAX)
    case 42 => Andq(RBX)  // Npos8
    case 43 => Jmp(LE, 45)
    case 44 => Iaddq(1, RAX)
    case 45 => Iaddq(-8, RDX)  // Npos9
    case 46 => Jmp(GE, LOOP1)
    case 47 => Iaddq(6, RDX)  // Npos12
    case 48 => Jmp(LT, LOOP)
    case 49 => Load(0, 8)  // Loop2
    case 50 => Load(8, 9)
    case 51 => Save(8, 0)
    case 52 => Save(9, 8)
    case 53 => Iaddq(16, RDI)
    case 54 => Iaddq(16, RSI)
    case 55 => Andq(8)  // Npos10
    case 56 => Jmp(LE, 58)
    case 57 => Iaddq(1, RAX)
    case 58 => Andq(9)  // Npos11
    case 59 => Jmp(LE, 61)
    case 60 => Iaddq(1, RAX)
    case 61 => Iaddq(-2, RDX)  // Npos13
    case 62 => Jmp(GE, LOOP2)
    case 63 => Iaddq(1, RDX)  // Loop
    case 64 => Jmp(LT, DONE)
    case 65 => Load(0, 8)
    case 66 => Save(8, 0)
    case 67 => Andq(8)
    case 68 => Jmp(LE, DONE)
    case _ => Iaddq(1, RAX)
  }

  // ---------- the machine ----------

  /** Flags of a result, seen in full: exact is the sum before wrapping. */
  function FlagsOf(exact: int): Flags {
    Flags(Wrap(exact) == 0, Wrap(exact) < 0, Wrap(exact) != exact)
  }

  function Exec(o: Op, s: State): Option<State> {
    match o
    case Iaddq(v, r) => Some(s.(regs := s.regs[r := Wrap(s.regs[r] + v)], cc := FlagsOf(s.regs[r] + v), pc := s.pc + 1))
    case Andq(r) => var v := And(s.regs[r], s.regs[r]); Some(s.(regs := s.regs[r := v], cc := FlagsOf(v), pc := s.pc + 1))
    case Xorq(r) => var v := Xor(s.regs[r], s.regs[r]); Some(s.(regs := s.regs[r := v], cc := FlagsOf(v), pc := s.pc + 1))
    case Load(d, ra) =>
      var a := Wrap(s.regs[RDI] + d);
      if Readable(s, a) then Some(s.(regs := s.regs[ra := WordAt(s, a)], pc := s.pc + 1)) else None
    case Save(ra, d) =>
      var a := Wrap(s.regs[RSI] + d);
      if Readable(s, a) then Some(s.(mem := Splice(s.mem, a, LongBytes(s.regs[ra])), pc := s.pc + 1)) else None
    case Jmp(c, dest) => Some(s.(pc := if CondDoit(s.cc, c) then dest else s.pc + 1))
  }

  /** One instruction; None at Done, outside the code, or on a bad address. */
  function Step(s: State): Option<State> {
    if 0 <= s.pc < DONE then Exec(OpAt(s.pc), s) else None
  }

  function Steps(s: State, n: nat): Option<State>
    decreases n
  {
    if n == 0 then Some(s)
    else match Step(s)
         case None => None
         case Some(t) => Steps(t, n - 1)
  }

  lemma {:induction false} StepsAdd(s: State, n: nat, m: nat)
    requires Steps(s, n).Some?
    ensures Steps(s, n + m) == Steps(Steps(s, n).value, m)
    decreases n
  {
    hide Step;
    if n > 0 { StepsAdd(Step(s).value, n - 1, m); }
  }

  ghost predicate Reaches(s: State, t: State) {
    exists n :: Steps(s, n) == Some(t)
  }

  lemma ReachStep(s: State, t: State)
    requires Step(s) == Some(t)
    ensures Reaches(s, t)
  {
    hide Step;
    assert Steps(t, 0) == Some(t);
    assert Steps(s, 1) == Some(t);
  }

  lemma ReachSelf(s: State)
    ensures Reaches(s, s)
  {
    assert Steps(s, 0) == Some(s);
  }

  lemma ReachTrans(s: State, t: State, u: State)
    requires Reaches(s, t) && Reaches(t, u)
    ensures Reaches(s, u)
  {
    hide Step;
    var n :| Steps(s, n) == Some(t);
    var m :| Steps(t, m) == Some(u);
    StepsAdd(s, n, m);
  }

  // ---------- the specification ----------

  /** Word j of the block at src. */
  function Word(m: seq<Byte>, src: int, j: nat): Long
    requires 0 <= src && src + 8 * j + 8 <= |m|
  {
    BytesLong(m[src + 8 * j..src + 8 * j + 8])
  }

  /** How many of the first n words at src are positive. */
  function Positives(m: seq<Byte>, src: int, n: nat): (c: nat)
    requires 0 <= src && src + 8 * n <= |m|
    ensures c <= n
  {
    if n == 0 then 0 else Positives(m, src, n - 1) + if Word(m, src, n - 1) > 0 then 1 else 0
  }

  /** m with the first n words at src copied to dst. */
  function Copied(m: seq<Byte>, src: int, dst: int, n: nat): seq<Byte>
    requires 0 <= src && src + 8 * n <= |m| && 0 <= dst && dst + 8 * n <= |m|
  {
    Splice(m, dst, m[src..src + 8 * n])
  }

  /** Source and destination of n words lie in memory and apart. */
  predicate Fits(m: seq<Byte>, src: int, dst: int, n: nat) {
    |m| < TWO63 && (n > 0 ==>
      0 <= src && src + 8 * n <= |m| && 0 <= dst && dst + 8 * n <= |m| && (src + 8 * n <= dst || dst + 8 * n <= src))
  }

  /** k of n words are done: memory, pointers, count; pc and the loop counter are rest. */
  ghost predicate At(s: State, pc: int, m: seq<Byte>, src: int, dst: int, n: nat, k: nat, rdx: int) {
    n > 0 && Fits(m, src, dst, n) && k <= n
    && s.pc == pc && s.mem == Copied(m, src, dst, k)
    && s.regs[RDI] == src + 8 * k && s.regs[RSI] == dst + 8 * k
    && s.regs[RAX] == Positives(m, src, k) && s.regs[RDX] == rdx
  }

  // ---------- loads and saves ----------

  /** Copying word k next extends the copied block. */
  lemma CopyOne(m: seq<Byte>, src: int, dst: int, n: nat, k: nat)
    requires Fits(m, src, dst, n) && k < n
    ensures var c := Copied(m, src, dst, k);
      0 <= src && src + 8 * k + 8 <= |m| && |c| == |m| && 0 <= dst && dst + 8 * k + 8 <= |m|
      && Splice(c, dst + 8 * k, LongBytes(Word(m, src, k))) == Copied(m, src, dst, k + 1)
  {
    LongOfBytes(m[src + 8 * k..src + 8 * k + 8]);
    hide LongBytes, BytesLong;
    var c, d := Copied(m, src, dst, k), Copied(m, src, dst, k + 1);
    var e := Splice(c, dst + 8 * k, m[src + 8 * k..src + 8 * k + 8]);
    assert e == d;
  }

  /** The source is not disturbed by what has been copied. */
  lemma SourceKept(m: seq<Byte>, src: int, dst: int, n: nat, k: nat, j: nat)
    requires Fits(m, src, dst, n) && k <= n && j < n
    ensures 0 <= src && src + 8 * j + 8 <= |m| && 0 <= dst && src + 8 * k <= |m| && dst + 8 * k <= |m|
    ensures |Copied(m, src, dst, k)| == |m| && Word(Copied(m, src, dst, k), src, j) == Word(m, src, j)
  {
    hide BytesLong;
    var c := Copied(m, src, dst, k);
    assert c[src + 8 * j..src + 8 * j + 8] == m[src + 8 * j..src + 8 * j + 8];
  }

  /** mrmovq of word k + i, while k words are copied. */
  lemma LoadWord(s: State, m: seq<Byte>, src: int, dst: int, n: nat, k: nat, i: nat, ra: Reg)
    requires Fits(m, src, dst, n) && k + i < n && s.mem == Copied(m, src, dst, k) && s.regs[RDI] == src + 8 * k
    requires 0 <= s.pc < DONE && OpAt(s.pc) == Load(8 * i, ra)
    ensures Step(s) == Some(s.(regs := s.regs[ra := Word(m, src, k + i)], pc := s.pc + 1))
  {
    hide BytesLong, OpAt;
    SourceKept(m, src, dst, n, k, k + i);
    WrapLong(src + 8 * k + 8 * i);
    assert src + 8 * k + 8 * i == src + 8 * (k + i);
  }

  /** rmmovq of word k + i from its register, after the ones before it. */
  lemma SaveWord(s: State, m: seq<Byte>, src: int, dst: int, n: nat, k: nat, i: nat, ra: Reg)
    requires Fits(m, src, dst, n) && k + i < n && s.mem == Copied(m, src, dst, k + i) && s.regs[RSI] == dst + 8 * k
    requires 0 <= s.pc < DONE && OpAt(s.pc) == Save(ra, 8 * i)
    requires 0 <= src && src + 8 * (k + i) + 8 <= |m| && s.regs[ra] == Word(m, src, k + i)
    ensures Step(s) == Some(s.(mem := Copied(m, src, dst, k + i + 1), pc := s.pc + 1))
  {
    hide BytesLong, LongBytes, OpAt;
    CopyOne(m, src, dst, n, k + i);
    WrapLong(dst + 8 * k + 8 * i);
    assert dst + 8 * k + 8 * i == dst + 8 * (k + i);
  }

  /** andq, jle, iaddq: count register r if it is positive. */
  lemma CountOne(s: State, r: Reg) returns (t: State)
    requires 0 <= s.pc < DONE - 2 && OpAt(s.pc) == Andq(r) && OpAt(s.pc + 1) == Jmp(LE, s.pc + 3) && OpAt(s.pc + 2) == Iaddq(1, RAX)
    requires r != RAX && 0 <= s.regs[RAX] < TWO63 - 1
    ensures Reaches(s, t) && t.pc == s.pc + 3 && t.mem == s.mem
    ensures t.regs == s.regs[RAX := s.regs[RAX] + if s.regs[r] > 0 then 1 else 0]
  {
    hide OpAt, And;
    var v := s.regs[r];
    SelfBits(v);
    WrapLong(v);
    assert s.regs[r := v] == s.regs;
    var s1 := s.(cc := FlagsOf(v), pc := s.pc + 1);
    assert Step(s) == Some(s1);
    ReachStep(s, s1);
    var s2 := s1.(pc := if v > 0 then s.pc + 2 else s.pc + 3);
    assert Step(s1) == Some(s2);
    ReachStep(s1, s2);
    ReachTrans(s, s1, s2);
    if v > 0 {
      WrapLong(s.regs[RAX] + 1);
      t := s2.(regs := s.regs[RAX := s.regs[RAX] + 1], cc := FlagsOf(s.regs[RAX] + 1), pc := s.pc + 3);
      assert Step(s2) == Some(t);
      ReachStep(s2, t);
      ReachTrans(s, s2, t);
    } else {
      t := s2;
      assert s.regs[RAX := s.regs[RAX] + 0] == s.regs;
    }
  }

  /** iaddq and a conditional jump on the sum. */
  lemma AddAndJump(s: State, v: Long, r: Reg, c: Cond, dest: nat) returns (t: State)
    requires 0 <= s.pc < DONE - 1 && OpAt(s.pc) == Iaddq(v, r) && OpAt(s.pc + 1) == Jmp(c, dest)
    requires c == LT || c == GE
    ensures Reaches(s, t) && t.mem == s.mem && t.regs == s.regs[r := Wrap(s.regs[r] + v)]
    ensures t.pc == if (s.regs[r] + v < 0) == (c == LT) then dest else s.pc + 2
  {
    hide OpAt;
    var sum := s.regs[r] + v;
    var s1 := s.(regs := s.regs[r := Wrap(sum)], cc := FlagsOf(sum), pc := s.pc + 1);
    assert Step(s) == Some(s1);
    ReachStep(s, s1);
    assert FlagsOf(sum).sf != FlagsOf(sum).of <==> sum < 0;
    t := s1.(pc := if (sum < 0) == (c == LT) then dest else s.pc + 2);
    assert Step(s1) == Some(t);
    ReachStep(s1, t);
    ReachTrans(s, s1, t);
  }

  // ---------- the loops ----------

  /** The register that holds word i of an iteration. */
  function WordReg(i: nat): Reg
    requires i < 8
  {
    if i < 7 then 8 + i else RBX
  }

  /** From p on: w loads, w saves, both pointers advanced, w counts. */
  ghost predicate BlockShape(p: nat, w: nat) {
    w <= 8 && p + 5 * w + 2 < DONE
    && (forall i {:trigger WordReg(i)} :: 0 <= i < w ==>
          OpAt(p + i) == Load(8 * i, WordReg(i)) && OpAt(p + w + i) == Save(WordReg(i), 8 * i)
          && OpAt(p + 2 * w + 2 + 3 * i) == Andq(WordReg(i)) && OpAt(p + 2 * w + 4 + 3 * i) == Iaddq(1, RAX)
          && OpAt(p + 2 * w + 3 + 3 * i) == Jmp(LE, p + 2 * w + 5 + 3 * i))
    && OpAt(p + 2 * w) == Iaddq(8 * w, RDI) && OpAt(p + 2 * w + 1) == Iaddq(8 * w, RSI)
  }

  lemma FirstLoopShape(i: nat)
    requires i < 8
    ensures OpAt(LOOP1 + i) == Load(8 * i, WordReg(i)) && OpAt(LOOP1 + 8 + i) == Save(WordReg(i), 8 * i)
    ensures OpAt(LOOP1 + 18 + 3 * i) == Andq(WordReg(i)) && OpAt(LOOP1 + 20 + 3 * i) == Iaddq(1, RAX)
    ensures OpAt(LOOP1 + 19 + 3 * i) == Jmp(LE, LOOP1 + 21 + 3 * i)
  {
  }

  lemma SecondLoopShape(i: nat)
    requires i < 2
    ensures OpAt(LOOP2 + i) == Load(8 * i, WordReg(i)) && OpAt(LOOP2 + 2 + i) == Save(WordReg(i), 8 * i)
    ensures OpAt(LOOP2 + 6 + 3 * i) == Andq(WordReg(i)) && OpAt(LOOP2 + 8 + 3 * i) == Iaddq(1, RAX)
    ensures OpAt(LOOP2 + 7 + 3 * i) == Jmp(LE, LOOP2 + 9 + 3 * i)
  {
  }

  /** The instructions that are not part of a block, or that are used one by one. */
  lemma CodeFacts()
    ensures OpAt(LOOP1 + 16) == Iaddq(64, RDI) && OpAt(LOOP1 + 17) == Iaddq(64, RSI)
    ensures OpAt(NPOS12) == Iaddq(6, RDX) && OpAt(NPOS12 + 1) == Jmp(LT, LOOP)
    ensures OpAt(LOOP2) == Load(0, 8) && OpAt(LOOP2 + 1) == Load(8, 9) && OpAt(LOOP2 + 2) == Save(8, 0) && OpAt(LOOP2 + 3) == Save(9, 8)
    ensures OpAt(LOOP2 + 4) == Iaddq(16, RDI) && OpAt(LOOP2 + 5) == Iaddq(16, RSI)
    ensures OpAt(LOOP2 + 6) == Andq(8) && OpAt(LOOP2 + 7) == Jmp(LE, LOOP2 + 9) && OpAt(LOOP2 + 8) == Iaddq(1, RAX)
    ensures OpAt(LOOP2 + 9) == Andq(9) && OpAt(LOOP2 + 10) == Jmp(LE, LOOP2 + 12) && OpAt(LOOP2 + 11) == Iaddq(1, RAX)
    ensures OpAt(NPOS13) == Iaddq(-2, RDX) && OpAt(NPOS13 + 1) == Jmp(GE, LOOP2)
    ensures OpAt(LOOP) == Iaddq(1, RDX) && OpAt(LOOP + 1) == Jmp(LT, DONE)
    ensures OpAt(LOOP + 2) == Load(0, 8) && OpAt(LOOP + 3) == Save(8, 0)
    ensures OpAt(LOOP + 4) == Andq(8) && OpAt(LOOP + 5) == Jmp(LE, DONE) && OpAt(LOOP + 6) == Iaddq(1, RAX)
  {
  }

  lemma BlocksHaveShape()
    ensures BlockShape(LOOP1, 8) && BlockShape(LOOP2, 2)
  {
    hide OpAt;
    CodeFacts();
    forall i: nat | i < 8 { FirstLoopShape(i); }
    forall i: nat | i < 2 { SecondLoopShape(i); }
  }

  lemma Extend(s: State, t: State, u: State)
    requires Reaches(s, t) && Step(t) == Some(u)
    ensures Reaches(s, u)
  {
    ReachStep(t, u);
    ReachTrans(s, t, u);
  }

  /** Registers that hold no words. */
  ghost predicate SameOthers(r: Regs, r': Regs) {
    r'[RAX] == r[RAX] && r'[RDX] == r[RDX] && r'[RSI] == r[RSI] && r'[RDI] == r[RDI]
  }

  /** The first i words of the iteration are in their registers. */
  ghost predicate Holding(r: Regs, m: seq<Byte>, src: int, k: nat, i: nat)
    requires 0 <= src && src + 8 * (k + i) <= |m| && i <= 8
  {
    forall j {:trigger WordReg(j)} :: 0 <= j < i ==> r[WordReg(j)] == Word(m, src, k + j)
  }

  lemma Loads(s: State, p: nat, w: nat, m: seq<Byte>, src: int, dst: int, n: nat, k: nat, rdx: int) returns (t: State)
    requires BlockShape(p, w) && At(s, p, m, src, dst, n, k, rdx) && k + w <= n
    ensures Reaches(s, t) && t.pc == p + w && t.mem == s.mem && SameOthers(s.regs, t.regs) && Holding(t.regs, m, src, k, w)
  {
    hide OpAt, Copied, Word, Step;
    ReachSelf(s);
    t := s;
    var i := 0;
    while i < w
      invariant 0 <= i <= w && Reaches(s, t) && t.pc == p + i && t.mem == s.mem
      invariant SameOthers(s.regs, t.regs) && Holding(t.regs, m, src, k, i)
    {
      var r := WordReg(i);
      LoadWord(t, m, src, dst, n, k, i, r);
      var u := t.(regs := t.regs[r := Word(m, src, k + i)], pc := t.pc + 1);
      Extend(s, t, u);
      t := u;
      i := i + 1;
    }
  }

  lemma Saves(s: State, p: nat, w: nat, m: seq<Byte>, src: int, dst: int, n: nat, k: nat) returns (t: State)
    requires BlockShape(p, w) && Fits(m, src, dst, n) && n > 0 && k + w <= n && s.pc == p + w
    requires s.mem == Copied(m, src, dst, k) && s.regs[RSI] == dst + 8 * k && Holding(s.regs, m, src, k, w)
    ensures Reaches(s, t) && t.pc == p + 2 * w && t.mem == Copied(m, src, dst, k + w) && t.regs == s.regs
  {
    hide OpAt, Copied, Word, Step;
    ReachSelf(s);
    t := s;
    var i := 0;
    while i < w
      invariant 0 <= i <= w && Reaches(s, t) && t.pc == p + w + i && t.regs == s.regs && t.mem == Copied(m, src, dst, k + i)
    {
      var r := WordReg(i);
      SaveWord(t, m, src, dst, n, k, i, r);
      var u := t.(mem := Copied(m, src, dst, k + i + 1), pc := t.pc + 1);
      Extend(s, t, u);
      t := u;
      i := i + 1;
    }
  }

  lemma Counts(s: State, p: nat, w: nat, m: seq<Byte>, src: int, dst: int, n: nat, k: nat) returns (t: State)
    requires BlockShape(p, w) && Fits(m, src, dst, n) && n > 0 && k + w <= n && s.pc == p + 2 * w + 2
    requires Holding(s.regs, m, src, k, w) && s.regs[RAX] == Positives(m, src, k)
    ensures Reaches(s, t) && t.pc == p + 5 * w + 2 && t.mem == s.mem
    ensures t.regs == s.regs[RAX := Positives(m, src, k + w)]
  {
    hide OpAt, Word, Step;
    ReachSelf(s);
    t := s;
    assert s.regs[RAX := s.regs[RAX]] == s.regs;
    var i := 0;
    while i < w
      invariant 0 <= i <= w && Reaches(s, t) && t.pc == p + 2 * w + 2 + 3 * i && t.mem == s.mem
      invariant t.regs == s.regs[RAX := Positives(m, src, k + i)]
    {
      var r := WordReg(i);
      assert s.regs[r] == Word(m, src, k + i);
      var u := CountOne(t, r);
      ReachTrans(s, t, u);
      assert Positives(m, src, k + i + 1) == Positives(m, src, k + i) + if Word(m, src, k + i) > 0 then 1 else 0;
      t := u;
      i := i + 1;
    }
  }

  /** One iteration of either loop, up to its counter update. */
  lemma Iteration(s: State, p: nat, w: nat, m: seq<Byte>, src: int, dst: int, n: nat, k: nat, rdx: int) returns (t: State)
    requires BlockShape(p, w) && At(s, p, m, src, dst, n, k, rdx) && k + w <= n
    ensures Reaches(s, t) && At(t, p + 5 * w + 2, m, src, dst, n, k + w, rdx)
  {
    hide OpAt, Copied, Word, Step;
    var a := Loads(s, p, w, m, src, dst, n, k, rdx);
    var b := Saves(a, p, w, m, src, dst, n, k);
    ReachTrans(s, a, b);
    var c := Advance(b, RDI, 8 * w, src + 8 * k);
    ReachTrans(s, b, c);
    var d := Advance(c, RSI, 8 * w, dst + 8 * k);
    ReachTrans(s, c, d);
    t := Counts(d, p, w, m, src, dst, n, k);
    ReachTrans(s, d, t);
  }

  lemma Advance(s: State, r: Reg, inc: nat, at: int) returns (t: State)
    requires 0 <= s.pc < DONE && inc <= 64 && OpAt(s.pc) == Iaddq(inc, r) && s.regs[r] == at && 0 <= at && at + inc < TWO63
    ensures Reaches(s, t) && t.pc == s.pc + 1 && t.mem == s.mem && t.regs == s.regs[r := at + inc]
  {
    hide OpAt;
    WrapLong(at + inc);
    t := s.(regs := s.regs[r := at + inc], cc := FlagsOf(at + inc), pc := s.pc + 1);
    ReachStep(s, t);
  }

  lemma {:induction false} RunLoop1(s: State, m: seq<Byte>, src: int, dst: int, n: nat, k: nat) returns (t: State, k': nat)
    requires k + 8 <= n && At(s, LOOP1, m, src, dst, n, k, n - k - 8)
    ensures Reaches(s, t) && k' <= n < k' + 8 && At(t, NPOS12, m, src, dst, n, k', n - k' - 8)
    decreases n - k
  {
    BlocksHaveShape();
    hide BlockShape, Copied, Word, Step;
    var a := Iteration(s, LOOP1, 8, m, src, dst, n, k, n - k - 8);
    var b := AddAndJump(a, -8, RDX, GE, LOOP1);
    ReachTrans(s, a, b);
    WrapLong(n - k - 16);
    if n - k - 16 >= 0 {
      t, k' := RunLoop1(b, m, src, dst, n, k + 8);
      ReachTrans(s, b, t);
    } else {
      t, k' := b, k + 8;
    }
  }

  lemma {:induction false} RunLoop2(s: State, m: seq<Byte>, src: int, dst: int, n: nat, k: nat) returns (t: State, k': nat)
    requires k + 2 <= n && At(s, LOOP2, m, src, dst, n, k, n - k - 2)
    ensures Reaches(s, t) && k' <= n < k' + 2 && At(t, LOOP, m, src, dst, n, k', n - k' - 2)
    decreases n - k
  {
    BlocksHaveShape();
    hide BlockShape, Copied, Word, Step;
    var a := Iteration(s, LOOP2, 2, m, src, dst, n, k, n - k - 2);
    var b := AddAndJump(a, -2, RDX, GE, LOOP2);
    ReachTrans(s, a, b);
    WrapLong(n - k - 4);
    if n - k - 4 >= 0 {
      t, k' := RunLoop2(b, m, src, dst, n, k + 2);
      ReachTrans(s, b, t);
    } else {
      t, k' := b, k + 2;
    }
  }

  /** The word after the loops, with whatever is left in the loop counter. */
  lemma LastWord(s: State, m: seq<Byte>, src: int, dst: int, n: nat, k: nat) returns (t: State)
    requires k < n && At(s, LOOP + 2, m, src, dst, n, k, s.regs[RDX])
    ensures Reaches(s, t) && t.pc == DONE && t.mem == Copied(m, src, dst, k + 1) && t.regs[RAX] == Positives(m, src, k + 1)
  {
    hide Copied, Word, Step, OpAt;
    CodeFacts();
    LoadWord(s, m, src, dst, n, k, 0, 8);
    var a := s.(regs := s.regs[8 := Word(m, src, k)], pc := s.pc + 1);
    ReachStep(s, a);
    SaveWord(a, m, src, dst, n, k, 0, 8);
    var b := a.(mem := Copied(m, src, dst, k + 1), pc := a.pc + 1);
    Extend(s, a, b);
    t := CountOne(b, 8);
    ReachTrans(s, b, t);
  }

  /** The last word, if one is left. */
  lemma RunTail(s: State, m: seq<Byte>, src: int, dst: int, n: nat, k: nat) returns (t: State)
    requires k <= n < k + 2 && At(s, LOOP, m, src, dst, n, k, n - k - 2)
    ensures Reaches(s, t) && t.pc == DONE && t.mem == Copied(m, src, dst, n) && t.regs[RAX] == Positives(m, src, n)
  {
    CodeFacts();
    hide Copied, Word, Step, OpAt;
    t := AddAndJump(s, 1, RDX, LT, DONE);
    if k < n {
      var a := t;
      t := LastWord(a, m, src, dst, n, k);
      ReachTrans(s, a, t);
    }
  }

  function Max0(len: int): nat {
    if len > 0 then len else 0
  }

  /** What the routine is for: dst gets the words of src, %rax the number of positive ones, nothing else in memory changes. */
  ghost predicate Done(s: State, t: State) {
    var n := Max0(s.regs[RDX]);
    t.pc == DONE
    && (n == 0 ==> t.mem == s.mem && t.regs[RAX] == 0)
    && (n > 0 && Fits(s.mem, s.regs[RDI], s.regs[RSI], n) ==>
          t.mem == Copied(s.mem, s.regs[RDI], s.regs[RSI], n) && t.regs[RAX] == Positives(s.mem, s.regs[RDI], n))
  }

  lemma Prologue(s: State) returns (t: State)
    requires s.pc == 0
    ensures var less := (s.regs[RDX] as int) - 8;
      Reaches(s, t) && t.mem == s.mem && t.regs == s.regs[RAX := 0][RDX := Wrap(less)] && t.pc == if less < 0 then NPOS12 else LOOP1
  {
    hide Xor;
    SelfBits(s.regs[RAX]);
    var a := s.(regs := s.regs[RAX := 0], cc := FlagsOf(0), pc := 1);
    assert Step(s) == Some(a);
    ReachStep(s, a);
    t := AddAndJump(a, -8, RDX, LT, NPOS12);
    ReachTrans(s, a, t);
  }

  /** The routine works for every length that survives the first subtraction. */
  lemma NcopyWorks(s: State) returns (t: State)
    requires s.pc == 0 && s.regs[RDX] >= -TWO63 + 8
    requires Fits(s.mem, s.regs[RDI], s.regs[RSI], Max0(s.regs[RDX]))
    ensures Reaches(s, t) && Done(s, t)
  {
    hide Word, Step, OpAt;
    var len, m, src, dst := s.regs[RDX], s.mem, s.regs[RDI], s.regs[RSI];
    var a := Prologue(s);
    WrapLong(len - 8);
    if len > 0 {
      NothingCopied(m, src, dst);
      var k, b := 0, a;
      if len >= 8 {
        b, k := RunLoop1(a, m, src, dst, len, 0);
        ReachTrans(s, a, b);
      }
      t := RunRest(b, m, src, dst, len, k);
      ReachTrans(s, b, t);
    } else {
      CodeFacts();
      var b := AddAndJump(a, 6, RDX, LT, LOOP);
      ReachTrans(s, a, b);
      WrapLong(len - 2);
      t := AddAndJump(b, 1, RDX, LT, DONE);
      ReachTrans(s, b, t);
    }
  }

  lemma NothingCopied(m: seq<Byte>, src: int, dst: int)
    requires 0 <= src <= |m| && 0 <= dst <= |m|
    ensures Copied(m, src, dst, 0) == m
  {
  }

  lemma RunRest(s: State, m: seq<Byte>, src: int, dst: int, n: nat, k: nat) returns (t: State)
    requires k <= n < k + 8 && At(s, NPOS12, m, src, dst, n, k, n - k - 8)
    ensures Reaches(s, t) && t.pc == DONE && t.mem == Copied(m, src, dst, n) && t.regs[RAX] == Positives(m, src, n)
  {
    hide Word, Step, OpAt, Copied;
    CodeFacts();
    var a := AddAndJump(s, 6, RDX, LT, LOOP);
    WrapLong(n - k - 2);
    var k', b := k, a;
    if n - k - 2 >= 0 {
      b, k' := RunLoop2(a, m, src, dst, n, k);
      ReachTrans(s, a, b);
    }
    t := RunTail(b, m, src, dst, n, k');
    ReachTrans(s, b, t);
  }

  /** Correctness for one length: every start with room for the words ends with them copied. */
  ghost predicate Works(len: Long) {
    forall s: State :: s.pc == 0 && s.regs[RDX] == len && Fits(s.mem, s.regs[RDI], s.regs[RSI], Max0(len)) ==>
      exists t :: Reaches(s, t) && Done(s, t)
  }

  /** A run has one end. */
  lemma OneEnd(s: State, t: State, u: State)
    requires Reaches(s, t) && Reaches(s, u) && (t.pc == DONE || Step(t) == None) && (u.pc == DONE || Step(u) == None)
    ensures t == u
  {
    assert Step(t) == None && Step(u) == None;
    hide Step;
    var n: nat :| Steps(s, n) == Some(t);
    var m: nat :| Steps(s, m) == Some(u);
    if n <= m { StepsAdd(s, n, m - n); } else { StepsAdd(s, m, n - m); }
  }

  // ---------- the lengths that wrap ----------

  /** For the eight most negative lengths the first subtraction wraps, and the twofold loop is entered although nothing is to be copied. */
  lemma WrappedLengthEnters(s: State) returns (t: State)
    requires s.pc == 0 && s.regs[RDX] < -TWO63 + 8
    ensures Reaches(s, t) && t.pc == LOOP2 && t.mem == s.mem
    ensures t.regs == s.regs[RAX := 0][RDX := Wrap((s.regs[RDX] as int) - 2 + TWO64)]
  {
    hide Step, OpAt;
    CodeFacts();
    var a := Prologue(s);
    var v: int := s.regs[RDX] - 8 + TWO64;
    assert a.regs[RDX] == v;
    t := AddAndJump(a, 6, RDX, LT, LOOP);
    ReachTrans(s, a, t);
    assert t.regs == s.regs[RAX := 0][RDX := Wrap(v + 6)];
  }

  /** If the first source word cannot be read, that is a fault. */
  lemma WrappedLengthFaults(s: State) returns (t: State)
    requires s.pc == 0 && s.regs[RDX] < -TWO63 + 8 && !Readable(s, s.regs[RDI])
    ensures Reaches(s, t) && Step(t) == None && t.pc == LOOP2
  {
    hide Step, OpAt;
    t := WrappedLengthEnters(s);
    var u, ok := TwoLoads(t);
  }

  /** Words moved before the loop counter turns negative, for the lengths from -2^63 + 2 on. */
  function Stray(len: int): nat {
    if len < -TWO63 + 4 then 3 else 2
  }

  /** One turn of the twofold loop, after which its counter has turned negative in truth, though not always in the register. */
  lemma WrappedTurn(s: State) returns (t: State)
    requires s.pc == 0 && -TWO63 + 2 <= s.regs[RDX] < -TWO63 + 8 && Fits(s.mem, s.regs[RDI], s.regs[RSI], 3)
    ensures Reaches(s, t)
    ensures var len := s.regs[RDX] as int;
      At(t, LOOP, s.mem, s.regs[RDI], s.regs[RSI], 3, 2, if len < -TWO63 + 4 then len - 4 + TWO64 else len - 4)
  {
    BlocksHaveShape();
    CodeFacts();
    hide Step, OpAt, Copied, Word, BlockShape;
    var len, m, src, dst := s.regs[RDX] as int, s.mem, s.regs[RDI], s.regs[RSI];
    var a := WrappedLengthEnters(s);
    NothingCopied(m, src, dst);
    WrapLong(len - 2);
    var b := Iteration(a, LOOP2, 2, m, src, dst, 3, 0, a.regs[RDX]);
    ReachTrans(s, a, b);
    t := AddAndJump(b, -2, RDX, GE, LOOP2);
    ReachTrans(s, b, t);
  }

  /** From -2^63 + 2 on the routine ends at Done, having copied and counted two or three words. */
  lemma WrappedLengthCopies(s: State) returns (t: State)
    requires s.pc == 0 && -TWO63 + 2 <= s.regs[RDX] < -TWO63 + 8 && Fits(s.mem, s.regs[RDI], s.regs[RSI], 3)
    ensures Reaches(s, t) && t.pc == DONE
    ensures var n := Stray(s.regs[RDX]);
      t.mem == Copied(s.mem, s.regs[RDI], s.regs[RSI], n) && t.regs[RAX] == Positives(s.mem, s.regs[RDI], n)
  {
    CodeFacts();
    hide Step, OpAt, Copied, Word;
    var a := WrappedTurn(s);
    t := AddAndJump(a, 1, RDX, LT, DONE);
    ReachTrans(s, a, t);
    if s.regs[RDX] < -TWO63 + 4 {
      var b := t;
      t := LastWord(b, s.mem, s.regs[RDI], s.regs[RSI], 3, 2);
      ReachTrans(s, b, t);
    }
  }

  /** The loads and stores of the twofold loop: done, or stuck on a bad address. */
  lemma HalfIteration(s: State) returns (t: State, ok: bool)
    requires s.pc == LOOP2 && |s.mem| < TWO63
    ensures Reaches(s, t)
    ensures !ok ==> Step(t) == None && t.pc < DONE
    ensures ok ==> t.pc == LOOP2 + 4 && SameOthers(s.regs, t.regs) && |t.mem| == |s.mem| && 0 <= s.regs[RDI] <= |s.mem| - 16
  {
    t, ok := TwoLoads(s);
    if ok {
      var a := t;
      t, ok := TwoStores(a);
      ReachTrans(s, a, t);
    }
  }

  lemma TwoLoads(s: State) returns (t: State, ok: bool)
    requires s.pc == LOOP2 && (|s.mem| < TWO63 || !Readable(s, s.regs[RDI]))
    ensures Reaches(s, t)
    ensures !ok ==> Step(t) == None && t.pc < DONE && (!Readable(s, s.regs[RDI]) ==> t == s)
    ensures ok ==> t.pc == LOOP2 + 2 && SameOthers(s.regs, t.regs) && t.mem == s.mem && 0 <= s.regs[RDI] <= |s.mem| - 16
  {
    hide BytesLong, Wrap, OpAt;
    CodeFacts();
    var a := s.regs[RDI];
    WrapLong(a);
    ReachSelf(s);
    if !Readable(s, a) { return s, false; }
    t := s.(regs := s.regs[8 := WordAt(s, a)], pc := LOOP2 + 1);
    ReachStep(s, t);
    WrapLong(a + 8);
    if !Readable(t, a + 8) { return t, false; }
    var u := t.(regs := t.regs[9 := WordAt(t, a + 8)], pc := LOOP2 + 2);
    Extend(s, t, u);
    return u, true;
  }

  lemma TwoStores(s: State) returns (t: State, ok: bool)
    requires s.pc == LOOP2 + 2
    ensures Reaches(s, t)
    ensures !ok ==> Step(t) == None && t.pc < DONE
    ensures ok ==> t.pc == LOOP2 + 4 && t.regs == s.regs && |t.mem| == |s.mem|
  {
    hide LongBytes, Wrap, OpAt;
    CodeFacts();
    var top: int := s.regs[RSI];
    var a, b := Wrap(top), Wrap(top + 8);
    ReachSelf(s);
    if !Readable(s, a) { return s, false; }
    t := s.(mem := Splice(s.mem, a, LongBytes(s.regs[8])), pc := LOOP2 + 3);
    ReachStep(s, t);
    if !Readable(t, b) { return t, false; }
    var u := t.(mem := Splice(t.mem, b, LongBytes(t.regs[9])), pc := LOOP2 + 4);
    Extend(s, t, u);
    return u, true;
  }

  /** The rest of the twofold loop, up to its counter update, wherever %rsi points. */
  lemma OtherHalf(s: State) returns (t: State)
    requires s.pc == LOOP2 + 4 && 0 <= s.regs[RDI] < TWO63 - 16 && 0 <= s.regs[RAX] < TWO63 - 2
    ensures Reaches(s, t) && t.pc == NPOS13 && t.mem == s.mem && t.regs[RDI] == (s.regs[RDI] as int) + 16 && t.regs[RDX] == s.regs[RDX]
    ensures 0 <= t.regs[RAX] <= (s.regs[RAX] as int) + 2
  {
    BlocksHaveShape();
    hide OpAt, Step, Wrap, BlockShape;
    CodeFacts();
    var a := Advance(s, RDI, 16, s.regs[RDI]);
    var b := AddAny(a, RSI, 16);
    ReachTrans(s, a, b);
    var c := CountOne(b, 8);
    ReachTrans(s, b, c);
    t := CountOne(c, 9);
    ReachTrans(s, c, t);
  }

  lemma AddAny(s: State, r: Reg, inc: nat) returns (t: State)
    requires 0 <= s.pc < DONE && inc <= 64 && OpAt(s.pc) == Iaddq(inc, r)
    ensures Reaches(s, t) && t.pc == s.pc + 1 && t.mem == s.mem && t.regs == s.regs[r := Wrap((s.regs[r] as int) + inc)]
  {
    hide OpAt;
    var next: int := (s.regs[r] as int) + inc;
    t := s.(regs := s.regs[r := Wrap(next)], cc := FlagsOf(next), pc := s.pc + 1);
    ReachStep(s, t);
  }

  /** With so large a loop counter, %rdi leaves memory first. */
  lemma {:induction false} RunsOff(s: State) returns (t: State)
    requires s.pc == LOOP2 && |s.mem| < TWO63 && 8 * (s.regs[RDX] as int) >= |s.mem| - s.regs[RDI]
    requires 0 <= s.regs[RAX] && (s.regs[RAX] as int) + s.regs[RDX] <= TWO63 - 1
    ensures Reaches(s, t) && Step(t) == None && t.pc < DONE
    decreases |s.mem| - s.regs[RDI]
  {
    CodeFacts();
    hide OpAt, Step;
    var ok;
    t, ok := HalfIteration(s);
    if ok {
      var a := OtherHalf(t);
      ReachTrans(s, t, a);
      var b := AddAndJump(a, -2, RDX, GE, LOOP2);
      ReachTrans(s, a, b);
      WrapLong(a.regs[RDX] - 2);
      t := RunsOff(b);
      ReachTrans(s, b, t);
    }
  }

  /** For -2^63 and -2^63 + 1 the routine never reaches Done, whatever memory holds. */
  lemma WrappedLengthRunsOff(s: State) returns (t: State)
    requires s.pc == 0 && s.regs[RDX] < -TWO63 + 2 && |s.mem| < TWO63
    ensures Reaches(s, t) && Step(t) == None && t.pc < DONE
  {
    hide Step;
    var a := WrappedLengthEnters(s);
    t := RunsOff(a);
    ReachTrans(s, a, t);
  }

  /** With a wrapped length and room for three words, the routine does nothing wrong exactly if the words it should have left alone
      were copied before and none is positive, and the length is not one of the two smallest. */
  lemma WrappedOutcome(s: State)
    requires s.pc == 0 && s.regs[RDX] < -TWO63 + 8 && Fits(s.mem, s.regs[RDI], s.regs[RSI], 3)
    ensures (exists t :: Reaches(s, t) && Done(s, t)) <==>
      s.regs[RDX] >= -TWO63 + 2
      && var n := Stray(s.regs[RDX]);
         Copied(s.mem, s.regs[RDI], s.regs[RSI], n) == s.mem && Positives(s.mem, s.regs[RDI], n) == 0
  {
    hide Step, Copied, Positives;
    if s.regs[RDX] < -TWO63 + 2 {
      var u := WrappedLengthRunsOff(s);
      forall t | Reaches(s, t) ensures !Done(s, t) {
        if t.pc == DONE {
          OneEnd(s, t, u);
        }
      }
    } else {
      var u := WrappedLengthCopies(s);
      forall t | Reaches(s, t) && t.pc == DONE ensures t == u {
        OneEnd(s, t, u);
      }
    }
  }

  /** The routine is correct exactly for the lengths that 8 can be taken from without overflow. */
  lemma WorksExactly(len: Long)
    ensures Works(len) <==> len >= -TWO63 + 8
  {
    if len >= -TWO63 + 8 {
      forall s: State | s.pc == 0 && s.regs[RDX] == len && Fits(s.mem, s.regs[RDI], s.regs[RSI], Max0(len))
        ensures exists t :: Reaches(s, t) && Done(s, t)
      {
        var t := NcopyWorks(s);
      }
    } else {
      FailsOnRealMemory(len);
    }
  }

  /** Three words of ones at 0, zeros behind them. */
  function Sample(len: Long): State {
    var regs: Regs := [0, 0, len, 0, 0, 0, 24, 0, 0, 0, 0, 0, 0, 0, 0];
    State(0, regs, DEFAULT_CC, seq(64, i => if i < 24 then 1 else 0))
  }

  lemma FailsOnRealMemory(len: Long)
    requires len < -TWO63 + 8
    ensures var s := Sample(len);
      s.pc == 0 && s.regs[RDX] == len && Fits(s.mem, s.regs[RDI], s.regs[RSI], 3) && !exists t :: Reaches(s, t) && Done(s, t)
  {
    var s := Sample(len);
    WrappedOutcome(s);
    assert Copied(s.mem, 0, 24, Stray(len))[24] == 1 && s.mem[24] == 0;
  }

  // ---------- the routine in place ----------

  /** One instruction on the registers, flags and memory of a machine. */
  method StepInPlace(c: Machine) returns (ok: bool)
    requires c.Valid()
    modifies c, c.r, c.m
    ensures Step(old(c.View())) == if ok then Some(c.View()) else None
  {
    hide OpAt, RegsOf, BytesLong, LongBytes, And, Xor;
    if !(0 <= c.pc < DONE) { return false; }
    match OpAt(c.pc) {
    case Iaddq(v, r) =>
      var a := c.GetRegVal(r);
      c.SetRegVal(r, Wrap(a + v));
      c.cc := FlagsOf(a + v);
      c.pc := c.pc + 1;
    case Andq(r) =>
      var a := c.GetRegVal(r);
      c.SetRegVal(r, And(a, a));
      c.cc := FlagsOf(And(a, a));
      c.pc := c.pc + 1;
    case Xorq(r) =>
      var a := c.GetRegVal(r);
      c.SetRegVal(r, Xor(a, a));
      c.cc := FlagsOf(Xor(a, a));
      c.pc := c.pc + 1;
    case Load(d, ra) =>
      var a := c.GetRegVal(RDI);
      var found, v := GetLongVal(c.m, Wrap(a + d));
      if !found { return false; }
      c.SetRegVal(ra, v);
      c.pc := c.pc + 1;
    case Save(ra, d) =>
      var a := c.GetRegVal(RSI);
      var v := c.GetRegVal(ra);
      var stored := SetLongVal(c.m, Wrap(a + d), v);
      if !stored { return false; }
      c.pc := c.pc + 1;
    case Jmp(cond, dest) =>
      c.pc := if CondDoit(c.cc, cond) then dest else c.pc + 1;
    }
    return true;
  }

  /** Runs the routine to its end. */
  method RunInPlace(c: Machine)
    requires c.Valid() && c.pc == 0
    requires var s := c.View();
      s.regs[RDX] >= -TWO63 + 8 && Fits(s.mem, s.regs[RDI], s.regs[RSI], Max0(s.regs[RDX]))
    modifies c, c.r, c.m
    ensures Done(old(c.View()), c.View())
  {
    hide Step, RegsOf, Fits, Steps, Copied, Positives;
    ghost var s := c.View();
    ghost var t := NcopyWorks(s);
    ghost var left: nat :| Steps(s, left) == Some(t);
    while c.pc != DONE
      invariant Steps(c.View(), left) == Some(t)
      invariant Done(s, t) && t.pc == DONE
      decreases left
    {
      StepsLeft(c.View(), t, left);
      var ok := StepInPlace(c);
      left := left - 1;
    }
    StepsLeft(c.View(), t, left);
  }

  /** Away from Done a run that ends at Done has a step to go; at Done it has none. */
  lemma StepsLeft(s: State, t: State, left: nat)
    requires Steps(s, left) == Some(t) && t.pc == DONE
    ensures s.pc == DONE ==> s == t
    ensures s.pc != DONE ==> left > 0 && Step(s).Some? && Steps(Step(s).value, left - 1) == Some(t)
  {
  }
}
