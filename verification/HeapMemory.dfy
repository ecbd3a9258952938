/**
 * How lab7/mm.c lays blocks and the free list out in memory: a header and a footer word for every block,
 * and two link words at the start of every free payload.
 *
 * Rep says that memory represents a heap. For every operation there is a lemma from what its writes may
 * change to the heap that memory represents after them; they read only memory as it was and as it is,
 * so that the methods need no reasoning about intermediate states.
 */
module HeapMemory {
  import opened Prelude
  import opened Bytes
  import opened HeapModel

  const WSIZE := 4
  const WORD_LIMIT := 0x1_0000_0000

  /** The 32-bit word at p. */
  function Word(m: seq<Byte>, p: int): nat
    requires 0 <= p <= |m| - WSIZE
  {
    FromBytes(m[p..p + WSIZE])
  }

  lemma WordOfBytes(m: seq<Byte>, p: int, v: nat)
    requires 0 <= p <= |m| - WSIZE && v < WORD_LIMIT && m[p..p + WSIZE] == ToBytes(v, WSIZE)
    ensures Word(m, p) == v
  {
    assert Pow256(4) == 256 * Pow256(3) && Pow256(3) == 256 * Pow256(2) && Pow256(2) == 256 * Pow256(1);
    FromToBytes(v, WSIZE);
  }

  lemma FourBytes(v: nat)
    ensures ToBytes(v, WSIZE) == [v % 256, v / 256 % 256, v / 65536 % 256, v / 16777216 % 256]
  {
    assert ToBytes(v, 4) == [v % 256] + ToBytes(v / 256, 3);
    assert ToBytes(v / 256, 3) == [v / 256 % 256] + ToBytes(v / 256 / 256, 2);
    assert v / 256 / 256 == v / 65536 && v / 65536 / 256 == v / 16777216;
    assert ToBytes(v / 65536, 2) == [v / 65536 % 256] + ToBytes(v / 65536 / 256, 1);
    assert ToBytes(v / 16777216, 1) == [v / 16777216 % 256] + ToBytes(v / 16777216 / 256, 0);
  }

  /** The header and footer word of a block. */
  function Tag(b: Block): int {
    b.size + if b.used then 1 else 0
  }

  function SizeOf(w: nat): int { w / 8 * 8 }

  function AllocOf(w: nat): int { w % 2 }

  function Pack(size: int, alloc: int): int { size + alloc }

  /** The n bytes at p are all that may differ between m0 and m1. */
  ghost predicate OnlyAt(m0: seq<Byte>, m1: seq<Byte>, p: int, n: int) {
    |m0| == |m1|
    && (forall k :: 0 <= k < |m0| && Apart(k, 1, p, n) ==> m1[k] == m0[k])
    && (forall q {:trigger Word(m1, q)} :: 0 <= q <= |m0| - WSIZE && Apart(q, WSIZE, p, n) ==> Word(m1, q) == Word(m0, q))
  }

  lemma OnlyAtWords(m0: seq<Byte>, m1: seq<Byte>, p: int, n: int)
    requires |m0| == |m1|
    requires forall k :: 0 <= k < |m0| && Apart(k, 1, p, n) ==> m1[k] == m0[k]
    ensures OnlyAt(m0, m1, p, n)
  {
    forall q {:trigger Word(m1, q)} | 0 <= q <= |m0| - WSIZE && Apart(q, WSIZE, p, n)
      ensures Word(m1, q) == Word(m0, q)
    {
      assert m1[q..q + WSIZE] == m0[q..q + WSIZE];
    }
  }

  // ---------- the explicit free list in memory ----------

  /** The link word that stands for p, or for the absence of a neighbour. */
  function Link(p: int): int {
    if p == NULL then 0 else p - 8
  }

  /** The link cells of the list lie apart in a memory of n bytes. */
  ghost predicate Cells(fl: seq<int>, n: int) {
    (forall i :: 0 <= i < |fl| ==> FIRST <= fl[i] <= n - DSIZE)
    && (forall i, j :: 0 <= i < j < |fl| ==> Apart(fl[i], DSIZE, fl[j], DSIZE))
    && n < 0x8000_0000
  }

  /** An address off the heap, for the list neighbour that does not exist. */
  const NOWHERE := -8

  /** Entry i of fl, or b if there is none. */
  ghost function Entry(fl: seq<int>, i: int, b: int): int {
    if 0 <= i < |fl| then fl[i] else b
  }

  ghost predicate LinksAt(m: seq<Byte>, fl: seq<int>, i: int)
    requires Cells(fl, |m|) && 0 <= i < |fl|
  {
    Word(m, fl[i]) == Link(Entry(fl, i - 1, NULL)) && Word(m, fl[i] + WSIZE) == Link(Entry(fl, i + 1, NULL))
  }

  ghost predicate Links(m: seq<Byte>, fl: seq<int>) {
    Cells(fl, |m|) && forall i {:trigger LinksAt(m, fl, i)} :: 0 <= i < |fl| ==> LinksAt(m, fl, i)
  }

  /** Only the link cells of the three blocks may differ. */
  ghost predicate OnlyCells(m0: seq<Byte>, m1: seq<Byte>, a: int, b: int, c: int) {
    |m0| == |m1|
    && (forall k :: 0 <= k < |m0| && Apart(k, 1, a, DSIZE) && Apart(k, 1, b, DSIZE) && Apart(k, 1, c, DSIZE) ==> m1[k] == m0[k])
    && (forall q {:trigger Word(m1, q)} ::
          0 <= q <= |m0| - WSIZE && Apart(q, WSIZE, a, DSIZE) && Apart(q, WSIZE, b, DSIZE) && Apart(q, WSIZE, c, DSIZE)
          ==> Word(m1, q) == Word(m0, q))
  }

  lemma InsertedLinks(m0: seq<Byte>, m1: seq<Byte>, fl: seq<int>, b: int)
    requires Links(m0, fl) && Cells(fl + [b], |m0|) && FIRST <= b <= |m0| - DSIZE
    requires OnlyCells(m0, m1, b, NOWHERE, Entry(fl, |fl| - 1, NOWHERE))
    requires Word(m1, b) == Link(Entry(fl, |fl| - 1, NULL)) && Word(m1, b + WSIZE) == 0
    requires fl != [] ==> var l := fl[|fl| - 1]; Word(m1, l) == Word(m0, l) && Word(m1, l + WSIZE) == Link(b)
    ensures Links(m1, fl + [b])
  {
    hide Word;
    var fl' := fl + [b];
    assert fl'[|fl|] == b;
    forall i {:trigger LinksAt(m1, fl', i)} | 0 <= i < |fl'| ensures LinksAt(m1, fl', i) {
      if i < |fl| {
        assert LinksAt(m0, fl, i) && fl'[i] == fl[i];
      }
    }
  }

  /** Three link writes stay within the three cells. */
  lemma ThreeWrites(m0: seq<Byte>, m1: seq<Byte>, m2: seq<Byte>, m3: seq<Byte>, a: int, b: int, c: int)
    requires OnlyAt(m0, m1, b + WSIZE, WSIZE) && OnlyAt(m1, m2, c, WSIZE) && OnlyAt(m2, m3, a, DSIZE)
    ensures OnlyCells(m0, m3, a, b, c)
  {
    hide Word;
  }

  /** The two words of a cell. */
  lemma CellHalves(m: seq<Byte>, p: nat)
    requires p + DSIZE <= |m|
    ensures Word(m, p) == FromBytes(m[p..p + DSIZE][..WSIZE]) && Word(m, p + WSIZE) == FromBytes(m[p..p + DSIZE][WSIZE..])
  {
    assert m[p..p + DSIZE][..WSIZE] == m[p..p + WSIZE] && m[p..p + DSIZE][WSIZE..] == m[p + WSIZE..p + DSIZE];
  }

  lemma LinksCells(m: seq<Byte>, fl: seq<int>)
    requires Links(m, fl)
    ensures Cells(fl, |m|)
  {
  }

  /** What the list says about entry i, its neighbours and a cell b that could take its place. */
  lemma AroundEntry(m: seq<Byte>, fl: seq<int>, i: nat, b: int)
    requires Links(m, fl) && i < |fl| && Cells(fl[i := b], |m|)
    ensures |m| < 0x8000_0000 && FIRST <= fl[i] <= |m| - DSIZE && FIRST <= b <= |m| - DSIZE
    ensures Word(m, fl[i]) == Link(Entry(fl, i - 1, NULL)) && Word(m, fl[i] + WSIZE) == Link(Entry(fl, i + 1, NULL))
    ensures i > 0 ==> FIRST <= fl[i - 1] <= |m| - DSIZE && Apart(fl[i - 1], DSIZE, fl[i], DSIZE) && Apart(fl[i - 1], DSIZE, b, DSIZE)
    ensures i < |fl| - 1 ==> FIRST <= fl[i + 1] <= |m| - DSIZE && Apart(fl[i], DSIZE, fl[i + 1], DSIZE) && Apart(b, DSIZE, fl[i + 1], DSIZE)
    ensures 0 < i < |fl| - 1 ==> Apart(fl[i - 1], DSIZE, fl[i + 1], DSIZE)
    ensures i > 0 ==> fl[0] != fl[i]
    ensures i < |fl| - 1 ==> fl[|fl| - 1] != fl[i]
  {
    hide Word;
    var fl' := fl[i := b];
    assert fl'[i] == b && LinksAt(m, fl, i);
    assert i > 0 ==> fl'[i - 1] == fl[i - 1] && Apart(fl'[i - 1], DSIZE, fl'[i], DSIZE);
    assert i < |fl| - 1 ==> fl'[i + 1] == fl[i + 1] && Apart(fl'[i], DSIZE, fl'[i + 1], DSIZE);
  }

  lemma ReplacedLinks(m0: seq<Byte>, m1: seq<Byte>, fl: seq<int>, i: nat, b: int)
    requires Links(m0, fl) && i < |fl| && Cells(fl[i := b], |m0|) && FIRST <= b <= |m0| - DSIZE
    requires OnlyCells(m0, m1, b, Entry(fl, i - 1, NOWHERE), Entry(fl, i + 1, NOWHERE))
    requires Word(m1, b) == Word(m0, fl[i]) && Word(m1, b + WSIZE) == Word(m0, fl[i] + WSIZE)
    requires i > 0 ==> Word(m1, fl[i - 1]) == Word(m0, fl[i - 1]) && Word(m1, fl[i - 1] + WSIZE) == Link(b)
    requires i < |fl| - 1 ==> Word(m1, fl[i + 1]) == Link(b) && Word(m1, fl[i + 1] + WSIZE) == Word(m0, fl[i + 1] + WSIZE)
    ensures Links(m1, fl[i := b])
  {
    hide Word;
    var fl' := fl[i := b];
    forall j {:trigger LinksAt(m1, fl', j)} | 0 <= j < |fl| ensures LinksAt(m1, fl', j) {
      assert LinksAt(m0, fl, j);
      assert fl'[i] == b;
    }
  }

  lemma CellsWithout(fl: seq<int>, n: int, i: nat)
    requires Cells(fl, n) && i < |fl|
    ensures Cells(fl[..i] + fl[i + 1..], n)
  {
    var fl' := fl[..i] + fl[i + 1..];
    assert forall j :: 0 <= j < |fl'| ==> fl'[j] == fl[if j < i then j else j + 1];
  }

  lemma EntriesWithout(fl: seq<int>, i: nat, j: nat)
    requires i < |fl| && j < |fl| - 1
    ensures var fl', k := fl[..i] + fl[i + 1..], if j < i then j else j + 1;
      fl'[j] == fl[k]
      && Entry(fl', j - 1, NULL) == Entry(fl, if k == i + 1 then i - 1 else k - 1, NULL)
      && Entry(fl', j + 1, NULL) == Entry(fl, if k + 1 == i then i + 1 else k + 1, NULL)
  {
  }

  lemma RemovedCells(fl: seq<int>, n: int, i: nat, j: nat)
    requires Cells(fl, n) && i < |fl| && j < |fl| - 1
    ensures var fl', k := fl[..i] + fl[i + 1..], if j < i then j else j + 1;
      Cells(fl', n) && fl'[j] == fl[k]
      && Entry(fl', j - 1, NULL) == Entry(fl, if k == i + 1 then i - 1 else k - 1, NULL)
      && Entry(fl', j + 1, NULL) == Entry(fl, if k + 1 == i then i + 1 else k + 1, NULL)
      && FIRST <= fl[k] <= n - DSIZE && Apart(fl[k], DSIZE, fl[i], DSIZE)
      && (i > 0 && k != i - 1 ==> Apart(fl[k], DSIZE, fl[i - 1], DSIZE))
      && (i < |fl| - 1 && k != i + 1 ==> Apart(fl[k], DSIZE, fl[i + 1], DSIZE))
  {
    hide Entry, Apart;
    CellsWithout(fl, n, i);
    EntriesWithout(fl, i, j);
    ApartEntries(fl, n, i, if j < i then j else j + 1);
  }

  lemma ApartEntries(fl: seq<int>, n: int, i: nat, k: nat)
    requires Cells(fl, n) && i < |fl| && k < |fl| && k != i
    ensures FIRST <= fl[k] <= n - DSIZE && Apart(fl[k], DSIZE, fl[i], DSIZE)
    ensures i > 0 && k != i - 1 ==> Apart(fl[k], DSIZE, fl[i - 1], DSIZE)
    ensures i < |fl| - 1 && k != i + 1 ==> Apart(fl[k], DSIZE, fl[i + 1], DSIZE)
  {
  }

  /** Cells away from the two that may differ keep both their links. */
  lemma FarCell(m0: seq<Byte>, m1: seq<Byte>, q: int, b: int, c: int)
    requires OnlyCells(m0, m1, NOWHERE, b, c) && FIRST <= q <= |m0| - DSIZE && Apart(q, DSIZE, b, DSIZE) && Apart(q, DSIZE, c, DSIZE)
    ensures Word(m1, q) == Word(m0, q) && Word(m1, q + WSIZE) == Word(m0, q + WSIZE)
  {
    hide Word;
  }

  lemma SameLength(m0: seq<Byte>, m1: seq<Byte>, a: int, b: int, c: int)
    requires OnlyCells(m0, m1, a, b, c)
    ensures |m0| == |m1|
  {
  }

  lemma RemovedLinksAt(m0: seq<Byte>, m1: seq<Byte>, fl: seq<int>, i: nat, j: nat)
    requires Links(m0, fl) && i < |fl| && j < |fl| - 1
    requires OnlyCells(m0, m1, NOWHERE, Entry(fl, i - 1, NOWHERE), Entry(fl, i + 1, NOWHERE))
    requires i > 0 ==> Word(m1, fl[i - 1]) == Word(m0, fl[i - 1]) && Word(m1, fl[i - 1] + WSIZE) == Link(Entry(fl, i + 1, NULL))
    requires i < |fl| - 1 ==> Word(m1, fl[i + 1]) == Link(Entry(fl, i - 1, NULL)) && Word(m1, fl[i + 1] + WSIZE) == Word(m0, fl[i + 1] + WSIZE)
    ensures Cells(fl[..i] + fl[i + 1..], |m1|) && LinksAt(m1, fl[..i] + fl[i + 1..], j)
  {
    hide Word, OnlyCells, Cells;
    SameLength(m0, m1, NOWHERE, Entry(fl, i - 1, NOWHERE), Entry(fl, i + 1, NOWHERE));
    var k := if j < i then j else j + 1;
    assert LinksAt(m0, fl, k);
    RemovedCells(fl, |m0|, i, j);
    if k != i - 1 && k != i + 1 { FarCell(m0, m1, fl[k], Entry(fl, i - 1, NOWHERE), Entry(fl, i + 1, NOWHERE)); }
  }

  lemma RemovedLinks(m0: seq<Byte>, m1: seq<Byte>, fl: seq<int>, i: nat)
    requires Links(m0, fl) && i < |fl|
    requires OnlyCells(m0, m1, NOWHERE, Entry(fl, i - 1, NOWHERE), Entry(fl, i + 1, NOWHERE))
    requires i > 0 ==> Word(m1, fl[i - 1]) == Word(m0, fl[i - 1]) && Word(m1, fl[i - 1] + WSIZE) == Link(Entry(fl, i + 1, NULL))
    requires i < |fl| - 1 ==> Word(m1, fl[i + 1]) == Link(Entry(fl, i - 1, NULL)) && Word(m1, fl[i + 1] + WSIZE) == Word(m0, fl[i + 1] + WSIZE)
    ensures Links(m1, fl[..i] + fl[i + 1..])
  {
    hide Word, LinksAt;
    var fl' := fl[..i] + fl[i + 1..];
    assert Cells(fl', |m1|);
    hide Cells, OnlyCells;
    forall j {:trigger LinksAt(m1, fl', j)} | 0 <= j < |fl'| ensures LinksAt(m1, fl', j) {
      RemovedLinksAt(m0, m1, fl, i, j);
    }
  }

  // ---------- boundary tags in memory ----------

  ghost predicate TagsAt(m: seq<Byte>, bs: Blocks, a: int)
    requires a in bs
  {
    WSIZE <= a && 16 <= bs[a].size && Next(bs, a) <= |m|
    && Word(m, a - WSIZE) == Tag(bs[a]) && Word(m, Next(bs, a) - DSIZE) == Tag(bs[a])
  }

  /** Header and footer of every block outside except are right. */
  ghost predicate AllTags(m: seq<Byte>, bs: Blocks, except: set<int>) {
    forall a {:trigger TagsAt(m, bs, a)} :: a in bs && a !in except ==> TagsAt(m, bs, a)
  }

  /** The prologue block and the epilogue header. */
  ghost predicate Ends(m: seq<Byte>, brk: int) {
    FIRST <= brk <= |m| && Word(m, 4) == Pack(DSIZE, 1) && Word(m, 8) == Pack(DSIZE, 1) && Word(m, brk - WSIZE) == Pack(0, 1)
  }

  /** Only the tags of a block of n bytes at x may differ. */
  ghost predicate OnlyTags(m0: seq<Byte>, m1: seq<Byte>, x: int, n: int) {
    |m0| == |m1|
    && (forall k :: 0 <= k < |m0| && Apart(k, 1, x - WSIZE, WSIZE) && Apart(k, 1, x + n - DSIZE, WSIZE) ==> m1[k] == m0[k])
    && (forall q {:trigger Word(m1, q)} ::
          0 <= q <= |m0| - WSIZE && Apart(q, WSIZE, x - WSIZE, WSIZE) && Apart(q, WSIZE, x + n - DSIZE, WSIZE)
          ==> Word(m1, q) == Word(m0, q))
  }

  /** The payload of every live block is the same in m0 and m1. */
  ghost predicate SamePayloads(m0: seq<Byte>, m1: seq<Byte>, bs: Blocks) {
    |m0| == |m1| && forall a, k :: IsLive(bs, a) && 0 <= a <= k < Next(bs, a) - DSIZE && k < |m0| ==> m1[k] == m0[k]
  }

  lemma RetagOne(m0: seq<Byte>, m1: seq<Byte>, bs: Blocks, brk: int, x: int, except: set<int>)
    requires Tiled(bs, brk) && FIRST <= brk <= |m0| && x in bs && AllTags(m0, bs, except + {x})
    requires OnlyTags(m0, m1, x, bs[x].size) && TagsAt(m1, bs, x)
    ensures AllTags(m1, bs, except) && SamePayloads(m0, m1, bs)
  {
    hide Word;
    assert GoodBlock(bs, brk, x);
    forall a {:trigger TagsAt(m1, bs, a)} | a in bs && a !in except ensures TagsAt(m1, bs, a) {
      assert GoodBlock(bs, brk, a);
      assert a != x ==> TagsAt(m0, bs, a);
    }
  }

  /** Writing link cells leaves tags and payloads alone: b and c are free blocks, a lies inside the free block f. */
  lemma CellsInsideKeepTags(m0: seq<Byte>, m1: seq<Byte>, bs: Blocks, brk: int, f: int, a: int, b: int, c: int)
    requires Tiled(bs, brk) && Ends(m0, brk) && AllTags(m0, bs, {}) && OnlyCells(m0, m1, a, b, c)
    requires a == NOWHERE || (IsFree(bs, f) && f <= a && a + 16 <= Next(bs, f))
    requires (b == NOWHERE || IsFree(bs, b)) && (c == NOWHERE || IsFree(bs, c))
    ensures AllTags(m1, bs, {}) && Ends(m1, brk) && SamePayloads(m0, m1, bs)
  {
    hide Word;
    assert (f in bs ==> GoodBlock(bs, brk, f)) && (b in bs ==> GoodBlock(bs, brk, b)) && (c in bs ==> GoodBlock(bs, brk, c));
    forall x {:trigger TagsAt(m1, bs, x)} | x in bs ensures TagsAt(m1, bs, x) {
      assert GoodBlock(bs, brk, x);
      assert TagsAt(m0, bs, x);
    }
  }

  lemma CellsKeepTags(m0: seq<Byte>, m1: seq<Byte>, bs: Blocks, brk: int, a: int, b: int, c: int)
    requires Tiled(bs, brk) && Ends(m0, brk) && AllTags(m0, bs, {}) && OnlyCells(m0, m1, a, b, c)
    requires (a == NOWHERE || IsFree(bs, a)) && (b == NOWHERE || IsFree(bs, b)) && (c == NOWHERE || IsFree(bs, c))
    ensures AllTags(m1, bs, {}) && Ends(m1, brk) && SamePayloads(m0, m1, bs)
  {
    if a in bs { assert GoodBlock(bs, brk, a); }
    CellsInsideKeepTags(m0, m1, bs, brk, a, a, b, c);
  }

  lemma TagsKeepLinks(m0: seq<Byte>, m1: seq<Byte>, fl: seq<int>, x: int, n: int)
    requires Links(m0, fl) && OnlyTags(m0, m1, x, n)
    requires forall i :: 0 <= i < |fl| ==> Apart(fl[i], DSIZE, x - WSIZE, WSIZE) && Apart(fl[i], DSIZE, x + n - DSIZE, WSIZE)
    ensures Links(m1, fl)
  {
    hide Word;
    forall i {:trigger LinksAt(m1, fl, i)} | 0 <= i < |fl| ensures LinksAt(m1, fl, i) {
      assert LinksAt(m0, fl, i);
    }
  }

  lemma TagsKeepEnds(m0: seq<Byte>, m1: seq<Byte>, brk: int, x: int, n: int)
    requires Ends(m0, brk) && OnlyTags(m0, m1, x, n) && FIRST <= x && 16 <= n && x + n <= brk
    ensures Ends(m1, brk)
  {
  }

  /** No link cell of a listed block meets the tags of any block. */
  lemma CellsClearOfTags(bs: Blocks, brk: int, fl: seq<int>, x: int)
    requires Tiled(bs, brk) && x in bs && forall i :: 0 <= i < |fl| ==> fl[i] in bs
    ensures forall i :: 0 <= i < |fl| ==> Apart(fl[i], DSIZE, x - WSIZE, WSIZE) && Apart(fl[i], DSIZE, Next(bs, x) - DSIZE, WSIZE)
  {
    assert GoodBlock(bs, brk, x);
    forall i | 0 <= i < |fl|
      ensures Apart(fl[i], DSIZE, x - WSIZE, WSIZE) && Apart(fl[i], DSIZE, Next(bs, x) - DSIZE, WSIZE)
    {
      assert GoodBlock(bs, brk, fl[i]);
    }
  }

  lemma FreeCells(h: Heap, n: int)
    requires WF(h) && h.brk <= n < 0x8000_0000
    ensures Cells(h.free, n)
  {
    forall i | 0 <= i < |h.free| ensures FIRST <= h.free[i] <= n - DSIZE && h.free[i] in h.blocks {
      assert h.free[i] in h.free;
      assert GoodBlock(h.blocks, h.brk, h.free[i]);
    }
    forall i, j | 0 <= i < j < |h.free| ensures Apart(h.free[i], DSIZE, h.free[j], DSIZE) {
      assert GoodBlock(h.blocks, h.brk, h.free[i]) && GoodBlock(h.blocks, h.brk, h.free[j]);
    }
  }

  lemma TagFields(b: Block)
    requires b.size % 8 == 0 && b.size >= 0
    ensures SizeOf(Tag(b)) == b.size && AllocOf(Tag(b)) == (if b.used then 1 else 0)
  {
    EightTimes(b.size / 8, if b.used then 1 else 0);
  }

  lemma EightTimes(k: int, u: int)
    requires 0 <= u <= 1
    ensures (8 * k + u) / 8 == k && (8 * k + u) % 2 == u
  {
    assert 8 * k + u == 2 * (4 * k) + u;
  }

  /** Growing the heap: new tags for the last block, then a new epilogue. */
  ghost predicate ExtendWrites(m0: seq<Byte>, m1: seq<Byte>, m2: seq<Byte>, h: Heap, n: int)
    requires Tiled(h.blocks, h.brk)
  {
    var b := Extended(h);
    var s := h.brk + n - b;
    n >= 16 && n % 8 == 0 && h.brk + n <= |m0| == |m1| < 0x8000_0000
    && PutsTags(m0, m1, b, Block(s, false))
    && OnlyAt(m1, m2, h.brk + n - WSIZE, WSIZE) && Word(m2, h.brk + n - WSIZE) == Pack(0, 1)
  }

  lemma ExtendTags(m0: seq<Byte>, m1: seq<Byte>, m2: seq<Byte>, h: Heap, n: int)
    requires WF(h) && ExtendWrites(m0, m1, m2, h, n) && Ends(m0, h.brk) && AllTags(m0, h.blocks, {})
    ensures var h1 := Extend(h, n); Ends(m2, h1.brk) && AllTags(m2, h1.blocks, {})
    ensures SamePayloads(m0, m1, Extend(h, n).blocks)
  {
    hide Word;
    var b, h1 := Extended(h), Extend(h, n);
    ExtendWF(h, n);
    assert GoodBlock(h1.blocks, h1.brk, b) && Next(h1.blocks, b) == h1.brk by {
      if FreeAtEnd(h) { assert GoodBlock(h.blocks, h.brk, b); }
    }
    assert TagsAt(m1, h1.blocks, b);
    assert AllTags(m0, h1.blocks, {b}) by {
      forall a {:trigger TagsAt(m0, h1.blocks, a)} | a in h1.blocks && a != b ensures TagsAt(m0, h1.blocks, a) {
        assert TagsAt(m0, h.blocks, a);
      }
    }
    hide Extend, Prev;
    RetagOne(m0, m1, h1.blocks, h1.brk, b, {});
    forall a {:trigger TagsAt(m2, h1.blocks, a)} | a in h1.blocks ensures TagsAt(m2, h1.blocks, a) {
      assert TagsAt(m1, h1.blocks, a) && GoodBlock(h1.blocks, h1.brk, a);
    }
  }

  lemma ExtendLinks(m0: seq<Byte>, m1: seq<Byte>, m2: seq<Byte>, h: Heap, n: int)
    requires WF(h) && ExtendWrites(m0, m1, m2, h, n) && Links(m0, h.free)
    ensures Links(m2, h.free)
  {
    hide Word, LinksAt;
    var b, h1 := Extended(h), Extend(h, n);
    ExtendWF(h, n);
    FreeAreBlocks(h);
    CellsClearOfTags(h1.blocks, h1.brk, h.free, b);
    TagsKeepLinks(m0, m1, h.free, b, h.brk + n - b);
    forall i | 0 <= i < |h.free| ensures Apart(h.free[i], DSIZE, h.brk + n - WSIZE, WSIZE) {
      assert GoodBlock(h.blocks, h.brk, h.free[i]);
    }
    PutKeepsLinks(m1, m2, h.free, h.brk + n - WSIZE);
  }

  lemma ExtendPayloads(m0: seq<Byte>, m1: seq<Byte>, m2: seq<Byte>, h: Heap, n: int)
    requires WF(h) && ExtendWrites(m0, m1, m2, h, n) && SamePayloads(m0, m1, Extend(h, n).blocks)
    ensures SamePayloads(m0, m2, h.blocks)
  {
    hide Word, FreeListExact;
    forall a, k | IsLive(h.blocks, a) && 0 <= a <= k < Next(h.blocks, a) - DSIZE && k < |m0| ensures m2[k] == m0[k] {
      assert GoodBlock(h.blocks, h.brk, a);
      assert IsLive(Extend(h, n).blocks, a) && Next(Extend(h, n).blocks, a) == Next(h.blocks, a);
    }
  }

  lemma PutKeepsLinks(m0: seq<Byte>, m1: seq<Byte>, fl: seq<int>, p: int)
    requires Links(m0, fl) && OnlyAt(m0, m1, p, WSIZE)
    requires forall i :: 0 <= i < |fl| ==> Apart(fl[i], DSIZE, p, WSIZE)
    ensures Links(m1, fl)
  {
    hide Word;
    forall i {:trigger LinksAt(m1, fl, i)} | 0 <= i < |fl| ensures LinksAt(m1, fl, i) {
      assert LinksAt(m0, fl, i);
    }
  }

  /** The n bytes at p in m0 are the n bytes at q in m1. */
  ghost predicate SameBytes(m0: seq<Byte>, p: int, m1: seq<Byte>, q: int, n: int) {
    0 <= n && 0 <= p <= |m0| - n && 0 <= q <= |m1| - n && m1[q..q + n] == m0[p..p + n]
  }

  lemma SameTrans(m0: seq<Byte>, m1: seq<Byte>, m2: seq<Byte>, bs: Blocks, bs1: Blocks)
    requires SamePayloads(m0, m1, bs) && SamePayloads(m1, m2, bs1)
    requires forall a :: IsLive(bs, a) ==> IsLive(bs1, a) && bs1[a] == bs[a]
    ensures SamePayloads(m0, m2, bs)
  {
  }

  /** Memory m holds this tiling: tags, prologue and epilogue. */
  ghost predicate TagRep(m: seq<Byte>, bs: Blocks, brk: int) {
    Tiled(bs, brk) && |m| < 0x8000_0000 && Ends(m, brk) && AllTags(m, bs, {})
  }

  /** Memory m holds heap h: tags, ends and links. */
  ghost predicate Rep(m: seq<Byte>, h: Heap) {
    WF(h) && TagRep(m, h.blocks, h.brk) && Links(m, h.free)
  }

  lemma ExtendGrows(m0: seq<Byte>, m1: seq<Byte>, m2: seq<Byte>, h: Heap, n: int)
    requires Rep(m0, h) && ExtendWrites(m0, m1, m2, h, n)
    ensures Links(m2, h.free) && |m2| == |m0|
    ensures Cells(Extend(h, n).free, |m2|)
    ensures FreeAtEnd(h) ==> Rep(m2, Extend(h, n)) && SamePayloads(m0, m2, h.blocks)
  {
    ExtendWF(h, n);
    ExtendTags(m0, m1, m2, h, n);
    ExtendLinks(m0, m1, m2, h, n);
    ExtendPayloads(m0, m1, m2, h, n);
    FreeCells(Extend(h, n), |m2|);
  }

  lemma ExtendFresh(m0: seq<Byte>, m1: seq<Byte>, m2: seq<Byte>, m3: seq<Byte>, h: Heap, n: int)
    requires Rep(m0, h) && ExtendWrites(m0, m1, m2, h, n) && !FreeAtEnd(h)
    requires Links(m3, h.free + [h.brk]) && OnlyCells(m2, m3, h.brk, NOWHERE, Entry(h.free, |h.free| - 1, NOWHERE))
    ensures Rep(m3, Extend(h, n)) && SamePayloads(m0, m3, h.blocks)
  {
    hide Links;
    var h1 := Extend(h, n);
    ExtendWF(h, n);
    FreeAreBlocks(h);
    ExtendTags(m0, m1, m2, h, n);
    ExtendPayloads(m0, m1, m2, h, n);
    BelowBrk(h.blocks, h.brk);
    assert h.free != [] ==> h.free[|h.free| - 1] in h.free;
    CellsKeepTags(m2, m3, h1.blocks, h1.brk, h.brk, NOWHERE, Entry(h.free, |h.free| - 1, NOWHERE));
    SameTrans(m0, m2, m3, h.blocks, h1.blocks);
  }

  // ---------- what the tags around a block say ----------

  lemma ReadTags(m: seq<Byte>, bs: Blocks, brk: int, a: int)
    requires TagRep(m, bs, brk) && a in bs
    ensures FIRST <= a && a + 16 <= Next(bs, a) <= brk <= |m| && a % 8 == 0 && bs[a].size % 8 == 0
    ensures SizeOf(Word(m, a - WSIZE)) == SizeOf(Word(m, Next(bs, a) - DSIZE)) == bs[a].size
    ensures AllocOf(Word(m, a - WSIZE)) == AllocOf(Word(m, Next(bs, a) - DSIZE)) == if bs[a].used then 1 else 0
  {
    hide Word;
    assert GoodBlock(bs, brk, a);
    assert TagsAt(m, bs, a);
    TagFields(bs[a]);
  }

  /** The footer before a boundary leads to the block that ends there, or to the prologue. */
  lemma ReadPrev(m: seq<Byte>, h: Heap, a: int)
    requires TagRep(m, h.blocks, h.brk) && (a in h.blocks || a == h.brk)
    ensures FIRST <= a <= h.brk
    ensures var p := a - SizeOf(Word(m, a - DSIZE));
      if FIRST < a then p == Prev(h, a) && p in h.blocks && FIRST <= p
      else p == 8 && AllocOf(Word(m, 4)) == 1 && AllocOf(Word(m, 8)) == 1 && SizeOf(Word(m, 4)) == 8
  {
    hide Word;
    if a in h.blocks { assert GoodBlock(h.blocks, h.brk, a); }
    TagFields(Block(8, true));
    if FIRST < a {
      ReadTags(m, h.blocks, h.brk, Prev(h, a));
    }
  }

  /** The header after a block is that of its successor, or the epilogue. */
  lemma ReadNext(m: seq<Byte>, bs: Blocks, brk: int, a: int)
    requires TagRep(m, bs, brk) && a in bs
    ensures var n := Next(bs, a);
      WSIZE <= n <= |m| && (AllocOf(Word(m, n - WSIZE)) == 0 <==> IsFree(bs, n))
      && (IsFree(bs, n) ==> SizeOf(Word(m, n - WSIZE)) == bs[n].size)
  {
    hide Word;
    ReadTags(m, bs, brk, a);
    assert GoodBlock(bs, brk, a);
    TagFields(Block(0, true));
    if Next(bs, a) in bs {
      ReadTags(m, bs, brk, Next(bs, a));
    } else {
      assert Next(bs, a) == brk;
    }
  }

  // ---------- retagging ----------

  /** m1 is m0 with the tags of block b written at x. */
  ghost predicate PutsTags(m0: seq<Byte>, m1: seq<Byte>, x: int, b: Block) {
    WSIZE <= x && 16 <= b.size && x + b.size <= |m1|
    && OnlyTags(m0, m1, x, b.size) && Word(m1, x - WSIZE) == Tag(b) && Word(m1, x + b.size - DSIZE) == Tag(b)
  }

  /** x is the only block of bs1 that is not in bs0, and m1 is m0 with its tags. */
  lemma OneTag(m0: seq<Byte>, m1: seq<Byte>, bs0: Blocks, bs1: Blocks, brk: int, x: int)
    requires TagRep(m0, bs0, brk) && Tiled(bs1, brk) && x in bs1
    requires forall a :: a in bs1 && a != x ==> a in bs0 && bs1[a] == bs0[a]
    requires PutsTags(m0, m1, x, bs1[x])
    ensures TagRep(m1, bs1, brk) && SamePayloads(m0, m1, bs1)
  {
    hide Word;
    assert AllTags(m0, bs1, {x}) by {
      forall a {:trigger TagsAt(m0, bs1, a)} | a in bs1 && a != x ensures TagsAt(m0, bs1, a) {
        assert TagsAt(m0, bs0, a);
      }
    }
    assert GoodBlock(bs1, brk, x) && TagsAt(m1, bs1, x);
    TagsKeepEnds(m0, m1, brk, x, bs1[x].size);
    RetagOne(m0, m1, bs1, brk, x, {});
  }

  /** The same with two new blocks x and y, tagged in this order. */
  lemma TwoTags(m0: seq<Byte>, m1: seq<Byte>, m2: seq<Byte>, bs0: Blocks, bs1: Blocks, brk: int, x: int, y: int)
    requires TagRep(m0, bs0, brk) && Tiled(bs1, brk) && x in bs1 && y in bs1 && x != y
    requires forall a :: a in bs1 && a != x && a != y ==> a in bs0 && bs1[a] == bs0[a]
    requires PutsTags(m0, m1, x, bs1[x]) && PutsTags(m1, m2, y, bs1[y])
    ensures TagRep(m2, bs1, brk) && SamePayloads(m0, m2, bs1)
  {
    hide Word;
    assert AllTags(m0, bs1, {y} + {x}) by {
      forall a {:trigger TagsAt(m0, bs1, a)} | a in bs1 && a != x && a != y ensures TagsAt(m0, bs1, a) {
        assert TagsAt(m0, bs0, a);
      }
    }
    assert GoodBlock(bs1, brk, x) && GoodBlock(bs1, brk, y) && TagsAt(m1, bs1, x) && TagsAt(m2, bs1, y);
    TagsKeepEnds(m0, m1, brk, x, bs1[x].size);
    TagsKeepEnds(m1, m2, brk, y, bs1[y].size);
    RetagOne(m0, m1, bs1, brk, x, {y});
    assert {} + {y} == {y};
    RetagOne(m1, m2, bs1, brk, y, {});
    SameTrans(m0, m1, m2, bs1, bs1);
  }

  // ---------- what each operation does to memory ----------

  /** Splitting a free block at its tail leaves the live blocks, and all but the two parts. */
  lemma PlaceSplitBlocks(h: Heap, a: int, n: int)
    requires WF(h) && IsFree(h.blocks, a) && a in h.free && 16 <= n && n % 8 == 0 && h.blocks[a].size - n >= 16
    ensures var h1, rest := Place(h, a, n).0, h.blocks[a].size - n;
      WF(h1) && h1.free == h.free && h1.brk == h.brk && a in h1.blocks && a + rest in h1.blocks
      && h1.blocks[a] == Block(rest, false) && h1.blocks[a + rest] == Block(n, true)
      && (forall x :: x in h1.blocks && x != a && x != a + rest ==> x in h.blocks && h1.blocks[x] == h.blocks[x])
      && (forall x :: IsLive(h.blocks, x) ==> IsLive(h1.blocks, x) && h1.blocks[x] == h.blocks[x])
  {
    hide Tiled, NoAdjacentFree, FreeListExact;
    PlaceWF(h, a, n);
    BlockIsGood(h.blocks, h.brk, a);
    SplitTiled(h.blocks, h.brk, a, h.blocks[a].size - n, false, true);
  }

  lemma PlaceSplitMemory(m0: seq<Byte>, m1: seq<Byte>, m2: seq<Byte>, h: Heap, a: int, n: int)
    requires Rep(m0, h) && IsFree(h.blocks, a) && a in h.free
    requires 16 <= n && n % 8 == 0 && h.blocks[a].size - n >= 16
    requires var rest := h.blocks[a].size - n;
      PutsTags(m0, m1, a, Block(rest, false)) && PutsTags(m1, m2, a + rest, Block(n, true))
    ensures Rep(m2, Place(h, a, n).0) && SamePayloads(m0, m2, h.blocks)
  {
    hide Word, Place, Tiled, NoAdjacentFree, FreeListExact, Links, AllTags, Ends, OnlyTags, SamePayloads;
    var rest, h1 := h.blocks[a].size - n, Place(h, a, n).0;
    PlaceSplitBlocks(h, a, n);
    TwoTags(m0, m1, m2, h.blocks, h1.blocks, h.brk, a, a + rest);
    SubPayloads(m0, m2, h1.blocks, h.blocks);
    TwoTagsKeepLinks(m0, m1, m2, h1, a, a + rest);
  }

  lemma PlaceWholeTags(m0: seq<Byte>, m1: seq<Byte>, h: Heap, a: int)
    requires Rep(m0, h) && IsFree(h.blocks, a)
    requires PutsTags(m0, m1, a, Block(h.blocks[a].size, true))
    ensures Links(m1, h.free) && TagRep(m1, Mark(h.blocks, a, true), h.brk) && SamePayloads(m0, m1, h.blocks)
  {
    hide Word;
    var bs1 := Mark(h.blocks, a, true);
    MarkTiled(h.blocks, h.brk, a, true);
    OneTag(m0, m1, h.blocks, bs1, h.brk, a);
    FreeAreBlocks(h);
    CellsClearOfTags(h.blocks, h.brk, h.free, a);
    TagsKeepLinks(m0, m1, h.free, a, h.blocks[a].size);
    assert forall x :: IsLive(h.blocks, x) ==> IsLive(bs1, x) && Next(bs1, x) == Next(h.blocks, x);
  }

  /** After unlinking entry i of the list, whose neighbours are free blocks, tags and payloads are as before. */
  lemma UnlinkKeepsTags(m0: seq<Byte>, m1: seq<Byte>, bs: Blocks, brk: int, fl: seq<int>, i: nat)
    requires TagRep(m0, bs, brk) && i < |fl| && (forall j :: 0 <= j < |fl| && j != i ==> IsFree(bs, fl[j]))
    requires OnlyCells(m0, m1, NOWHERE, Entry(fl, i - 1, NOWHERE), Entry(fl, i + 1, NOWHERE))
    ensures TagRep(m1, bs, brk) && SamePayloads(m0, m1, bs)
  {
    hide Word;
    CellsKeepTags(m0, m1, bs, brk, NOWHERE, Entry(fl, i - 1, NOWHERE), Entry(fl, i + 1, NOWHERE));
  }

  lemma PlaceWholeMemory(m0: seq<Byte>, m1: seq<Byte>, m2: seq<Byte>, h: Heap, a: int, n: int)
    requires Rep(m0, h) && IsFree(h.blocks, a) && a in h.free
    requires 16 <= n <= h.blocks[a].size < n + 16 && n % 8 == 0
    requires PutsTags(m0, m1, a, Block(h.blocks[a].size, true))
    requires var i := IndexOf(h.free, a);
      Links(m2, Remove(h.free, a)) && OnlyCells(m1, m2, NOWHERE, Entry(h.free, i - 1, NOWHERE), Entry(h.free, i + 1, NOWHERE))
    ensures Rep(m2, Place(h, a, n).0) && SamePayloads(m0, m2, h.blocks)
  {
    hide Word;
    PlaceWF(h, a, n);
    PlaceWholeTags(m0, m1, h, a);
    forall j | 0 <= j < |h.free| && j != IndexOf(h.free, a) ensures IsFree(Mark(h.blocks, a, true), h.free[j]) {
      assert h.free[j] in h.free;
    }
    UnlinkKeepsTags(m1, m2, Mark(h.blocks, a, true), h.brk, h.free, IndexOf(h.free, a));
    SameTrans(m0, m1, m2, h.blocks, Mark(h.blocks, a, true));
  }

  /** mm_free before coalesce: block a is tagged free but neither merged nor listed. */
  ghost predicate Freeing(m: seq<Byte>, h: Heap, a: int) {
    WF(h) && IsLive(h.blocks, a) && TagRep(m, Mark(h.blocks, a, false), h.brk) && Links(m, h.free)
  }

  lemma MarkMemory(m0: seq<Byte>, m1: seq<Byte>, h: Heap, a: int)
    requires Rep(m0, h) && IsLive(h.blocks, a) && PutsTags(m0, m1, a, Block(h.blocks[a].size, false))
    ensures Freeing(m1, h, a) && SamePayloads(m0, m1, h.blocks - {a})
  {
    hide Word;
    var bs1 := Mark(h.blocks, a, false);
    MarkTiled(h.blocks, h.brk, a, false);
    OneTag(m0, m1, h.blocks, bs1, h.brk, a);
    FreeAreBlocks(h);
    CellsClearOfTags(h.blocks, h.brk, h.free, a);
    TagsKeepLinks(m0, m1, h.free, a, h.blocks[a].size);
    SubPayloads(m0, m1, bs1, h.blocks - {a});
  }

  lemma SubPayloads(m0: seq<Byte>, m1: seq<Byte>, bs: Blocks, sub: Blocks)
    requires SamePayloads(m0, m1, bs)
    requires forall a :: IsLive(sub, a) ==> IsLive(bs, a) && bs[a] == sub[a]
    ensures SamePayloads(m0, m1, sub)
  {
  }

  /** No tag write of a merged block touches a link cell, whichever of the old blocks begins and ends it. */
  lemma MergeKeepsLinks(m0: seq<Byte>, m1: seq<Byte>, bs: Blocks, brk: int, fl: seq<int>, x: int, y: int)
    requires TagRep(m0, bs, brk) && Links(m0, fl) && x in bs && y in bs && x <= y
    requires forall i :: 0 <= i < |fl| ==> fl[i] in bs
    requires OnlyTags(m0, m1, x, Next(bs, y) - x)
    ensures Links(m1, fl)
  {
    CellsClearOfTags(bs, brk, fl, x);
    CellsClearOfTags(bs, brk, fl, y);
    TagsKeepLinks(m0, m1, fl, x, Next(bs, y) - x);
  }

  lemma FreeAloneMemory(m0: seq<Byte>, m1: seq<Byte>, h: Heap, a: int)
    requires Freeing(m0, h, a) && !IsFree(h.blocks, Next(h.blocks, a)) && !(FIRST < a && IsFree(h.blocks, Prev(h, a)))
    requires Links(m1, h.free + [a]) && OnlyCells(m0, m1, a, NOWHERE, Entry(h.free, |h.free| - 1, NOWHERE))
    ensures Rep(m1, Free(h, a)) && SamePayloads(m0, m1, h.blocks - {a})
  {
    hide Word, Links;
    var bs1 := Mark(h.blocks, a, false);
    FreeWF(h, a);
    assert h.free != [] ==> h.free[|h.free| - 1] in h.free;
    CellsKeepTags(m0, m1, bs1, h.brk, a, NOWHERE, Entry(h.free, |h.free| - 1, NOWHERE));
    SubPayloads(m0, m1, bs1, h.blocks - {a});
  }

  /** The neighbours of entry i of the free list are free blocks other than it. */
  lemma ListNeighbours(h: Heap, a: int)
    requires WF(h) && a in h.free
    ensures forall j :: 0 <= j < |h.free| && j != IndexOf(h.free, a) ==> IsFree(h.blocks, h.free[j]) && h.free[j] != a
  {
  }

  lemma FreeNextMemory(m0: seq<Byte>, m1: seq<Byte>, m2: seq<Byte>, h: Heap, a: int)
    requires Freeing(m0, h, a) && !(FIRST < a && IsFree(h.blocks, Prev(h, a)))
    requires var next := Next(h.blocks, a);
      IsFree(h.blocks, next) && next in h.free
      && PutsTags(m0, m1, a, Block(h.blocks[a].size + h.blocks[next].size, false))
      && var i := IndexOf(h.free, next);
         Links(m2, Replace(h.free, next, a)) && OnlyCells(m1, m2, a, Entry(h.free, i - 1, NOWHERE), Entry(h.free, i + 1, NOWHERE))
    ensures Free(h, a).brk == h.brk && Free(h, a).free == Replace(h.free, Next(h.blocks, a), a)
    ensures Rep(m2, Free(h, a)) && SamePayloads(m0, m2, h.blocks - {a})
  {
    hide Word, Links;
    var next, marked := Next(h.blocks, a), Mark(h.blocks, a, false);
    var bs1 := Join(marked, a);
    FreeWF(h, a);
    JoinTiled(marked, h.brk, a);
    OneTag(m0, m1, marked, bs1, h.brk, a);
    ListNeighbours(h, next);
    var i := IndexOf(h.free, next);
    CellsKeepTags(m1, m2, bs1, h.brk, a, Entry(h.free, i - 1, NOWHERE), Entry(h.free, i + 1, NOWHERE));
    SameTrans(m0, m1, m2, bs1, bs1);
    SubPayloads(m0, m2, bs1, h.blocks - {a});
  }

  lemma FreePrevMemory(m0: seq<Byte>, m1: seq<Byte>, h: Heap, a: int)
    requires Freeing(m0, h, a) && !IsFree(h.blocks, Next(h.blocks, a)) && FIRST < a && IsFree(h.blocks, Prev(h, a))
    requires PutsTags(m0, m1, Prev(h, a), Block(h.blocks[Prev(h, a)].size + h.blocks[a].size, false))
    ensures Rep(m1, Free(h, a)) && SamePayloads(m0, m1, h.blocks - {a})
  {
    hide Word, PrevFrom;
    var p, marked := Prev(h, a), Mark(h.blocks, a, false);
    var bs1 := Join(marked, p);
    FreeWF(h, a);
    Around(h, a);
    JoinTiled(marked, h.brk, p);
    OneTag(m0, m1, marked, bs1, h.brk, p);
    FreeAreBlocks(h);
    MergeKeepsLinks(m0, m1, marked, h.brk, h.free, p, a);
    SubPayloads(m0, m1, bs1, h.blocks - {a});
  }

  lemma FreeBothTags(m0: seq<Byte>, m1: seq<Byte>, h: Heap, a: int)
    requires Freeing(m0, h, a) && FIRST < a && IsFree(h.blocks, Prev(h, a))
    requires var next := Next(h.blocks, a);
      IsFree(h.blocks, next)
      && PutsTags(m0, m1, Prev(h, a), Block(h.blocks[Prev(h, a)].size + h.blocks[a].size + h.blocks[next].size, false))
    ensures TagRep(m1, Free(h, a).blocks, h.brk) && SamePayloads(m0, m1, h.blocks - {a}) && Links(m1, h.free)
  {
    hide Word, PrevFrom, Prev, Tiled, NoAdjacentFree, FreeListExact, Links, AllTags, Ends, OnlyTags, SamePayloads;
    var p, next, marked := Prev(h, a), Next(h.blocks, a), Mark(h.blocks, a, false);
    FreeWF(h, a);
    Around(h, a);
    FreeChanges(h, a);
    FreeAreBlocks(h);
    hide Free;
    OneTag(m0, m1, marked, Free(h, a).blocks, h.brk, p);
    MergeKeepsLinks(m0, m1, marked, h.brk, h.free, p, next);
    SubPayloads(m0, m1, Free(h, a).blocks, h.blocks - {a});
  }

  lemma FreeBothMemory(m0: seq<Byte>, m1: seq<Byte>, m2: seq<Byte>, h: Heap, a: int)
    requires WF(h) && IsLive(h.blocks, a) && FIRST < a && IsFree(h.blocks, Prev(h, a))
    requires TagRep(m1, Free(h, a).blocks, h.brk) && SamePayloads(m0, m1, h.blocks - {a})
    requires var next := Next(h.blocks, a);
      IsFree(h.blocks, next) && next in h.free
      && var i := IndexOf(h.free, next);
         Links(m2, Remove(h.free, next)) && OnlyCells(m1, m2, NOWHERE, Entry(h.free, i - 1, NOWHERE), Entry(h.free, i + 1, NOWHERE))
    ensures Free(h, a).brk == h.brk && Free(h, a).free == Remove(h.free, Next(h.blocks, a))
    ensures Rep(m2, Free(h, a)) && SamePayloads(m0, m2, h.blocks - {a})
  {
    hide Word, PrevFrom, Links, OnlyCells, Tiled, FreeListExact, NoAdjacentFree, AllTags, Ends;
    var next, bs1 := Next(h.blocks, a), Free(h, a).blocks;
    assert Free(h, a).free == Remove(h.free, next) && Free(h, a).brk == h.brk;
    FreeWF(h, a);
    FreeChanges(h, a);
    ListNeighbours(h, next);
    hide Free, Prev, TagRep;
    UnlinkKeepsTags(m1, m2, bs1, h.brk, h.free, IndexOf(h.free, next));
    SameTrans(m0, m1, m2, h.blocks - {a}, bs1);
  }

  /** The link cells lie apart from the live block a and from the last word of the room behind it. */
  lemma CellsApartFromLive(h: Heap, a: int)
    requires WF(h) && IsLive(h.blocks, a)
    ensures forall i :: 0 <= i < |h.free| ==>
      Apart(h.free[i], DSIZE, a - WSIZE, h.blocks[a].size - DSIZE) && Apart(h.free[i], DSIZE, a + Room(h.blocks, a) - DSIZE, WSIZE)
  {
    var bs, next := h.blocks, Next(h.blocks, a);
    assert GoodBlock(bs, h.brk, a) && (IsFree(bs, next) ==> GoodBlock(bs, h.brk, next));
    forall i | 0 <= i < |h.free|
      ensures Apart(h.free[i], DSIZE, a - WSIZE, h.blocks[a].size - DSIZE)
      ensures Apart(h.free[i], DSIZE, a + Room(bs, a) - DSIZE, WSIZE)
    {
      assert h.free[i] in h.free && GoodBlock(bs, h.brk, h.free[i]);
    }
  }

  /** The two tag writes of a resize, before the list is updated. */
  lemma ShrinkTags(m0: seq<Byte>, m1: seq<Byte>, m2: seq<Byte>, h: Heap, a: int, n: int)
    requires Rep(m0, h) && IsLive(h.blocks, a) && 16 <= n <= h.blocks[a].size - 16 && n % 8 == 0
    requires PutsTags(m0, m1, a, Block(n, true)) && PutsTags(m1, m2, a + n, Block(Room(h.blocks, a) - n, false))
    ensures TagRep(m2, Resize(h, a, n).blocks, h.brk) && SamePayloads(m0, m2, Resize(h, a, n).blocks)
  {
    hide Word, Resize, Tiled, NoAdjacentFree, FreeListExact, Links, AllTags, Ends, OnlyTags, SamePayloads;
    ResizeTiled(h, a, n);
    ResizeChanges(h, a, n);
    TwoTags(m0, m1, m2, h.blocks, Resize(h, a, n).blocks, h.brk, a, a + n);
  }

  lemma ShrinkLinks(m0: seq<Byte>, m1: seq<Byte>, m2: seq<Byte>, h: Heap, a: int, n: int)
    requires Rep(m0, h) && IsLive(h.blocks, a) && 16 <= n <= h.blocks[a].size - 16
    requires PutsTags(m0, m1, a, Block(n, true)) && PutsTags(m1, m2, a + n, Block(Room(h.blocks, a) - n, false))
    ensures Links(m2, h.free)
  {
    hide Word, Tiled, NoAdjacentFree, FreeListExact, Links, AllTags, Ends, OnlyTags;
    CellsApartFromLive(h, a);
    TagsKeepLinks(m0, m1, h.free, a, n);
    TagsKeepLinks(m1, m2, h.free, a + n, Room(h.blocks, a) - n);
  }

  lemma ShrinkMergeMemory(m0: seq<Byte>, m2: seq<Byte>, m3: seq<Byte>, h: Heap, a: int, n: int)
    requires WF(h) && IsLive(h.blocks, a) && 16 <= n <= h.blocks[a].size - 16 && n % 8 == 0
    requires TagRep(m2, Resize(h, a, n).blocks, h.brk) && SamePayloads(m0, m2, Resize(h, a, n).blocks)
    requires var next := Next(h.blocks, a);
      IsFree(h.blocks, next) && next in h.free
      && var i := IndexOf(h.free, next);
         Links(m3, Replace(h.free, next, a + n)) && OnlyCells(m2, m3, a + n, Entry(h.free, i - 1, NOWHERE), Entry(h.free, i + 1, NOWHERE))
    ensures Resize(h, a, n).brk == h.brk && Resize(h, a, n).free == Replace(h.free, Next(h.blocks, a), a + n)
    ensures Rep(m3, Resize(h, a, n)) && SamePayloads(m0, m3, Resize(h, a, n).blocks)
  {
    hide Word, Links, OnlyCells, Tiled, NoAdjacentFree, FreeListExact, AllTags, Ends, SamePayloads, IndexOf;
    var next, i, bs1 := Next(h.blocks, a), IndexOf(h.free, Next(h.blocks, a)), Resize(h, a, n).blocks;
    BlockIsGood(h.blocks, h.brk, next);
    ResizeWF(h, a, n);
    ResizeChanges(h, a, n);
    ListNeighbours(h, next);
    assert Resize(h, a, n).free == Replace(h.free, next, a + n) && Resize(h, a, n).brk == h.brk;
    hide Resize;
    CellsKeepTags(m2, m3, bs1, h.brk, a + n, Entry(h.free, i - 1, NOWHERE), Entry(h.free, i + 1, NOWHERE));
    SameTrans(m0, m2, m3, bs1, bs1);
  }

  lemma ShrinkInsertMemory(m0: seq<Byte>, m2: seq<Byte>, m3: seq<Byte>, h: Heap, a: int, n: int)
    requires WF(h) && IsLive(h.blocks, a) && 16 <= n <= h.blocks[a].size - 16 && n % 8 == 0
    requires TagRep(m2, Resize(h, a, n).blocks, h.brk) && SamePayloads(m0, m2, Resize(h, a, n).blocks)
    requires !IsFree(h.blocks, Next(h.blocks, a))
    requires Links(m3, h.free + [a + n]) && OnlyCells(m2, m3, a + n, NOWHERE, Entry(h.free, |h.free| - 1, NOWHERE))
    ensures Resize(h, a, n).brk == h.brk && Resize(h, a, n).free == h.free + [a + n]
    ensures Rep(m3, Resize(h, a, n)) && SamePayloads(m0, m3, Resize(h, a, n).blocks)
  {
    hide Word, Links, OnlyCells;
    var bs1 := Resize(h, a, n).blocks;
    ResizeWF(h, a, n);
    ResizeChanges(h, a, n);
    assert h.free != [] ==> h.free[|h.free| - 1] in h.free;
    assert Resize(h, a, n).free == h.free + [a + n] && Resize(h, a, n).brk == h.brk;
    hide Resize;
    CellsKeepTags(m2, m3, bs1, h.brk, a + n, NOWHERE, Entry(h.free, |h.free| - 1, NOWHERE));
    SameTrans(m0, m2, m3, bs1, bs1);
  }

  lemma TwoTagsKeepLinks(m1: seq<Byte>, m2: seq<Byte>, m3: seq<Byte>, h: Heap, x: int, y: int)
    requires WF(h) && Links(m1, h.free) && x in h.blocks && y in h.blocks
    requires OnlyTags(m1, m2, x, h.blocks[x].size) && OnlyTags(m2, m3, y, h.blocks[y].size)
    ensures Links(m3, h.free)
  {
    FreeAreBlocks(h);
    CellsClearOfTags(h.blocks, h.brk, h.free, x);
    CellsClearOfTags(h.blocks, h.brk, h.free, y);
    TagsKeepLinks(m1, m2, h.free, x, h.blocks[x].size);
    TagsKeepLinks(m2, m3, h.free, y, h.blocks[y].size);
  }

  /** Growing into a free successor with split: the list first, then both tags. */
  lemma GrowCells(m0: seq<Byte>, m1: seq<Byte>, h: Heap, a: int, n: int)
    requires Rep(m0, h) && IsLive(h.blocks, a) && h.blocks[a].size < n <= Room(h.blocks, a) - 16
    requires var next := Next(h.blocks, a);
      IsFree(h.blocks, next) && next in h.free
      && OnlyCells(m0, m1, a + n, Entry(h.free, IndexOf(h.free, next) - 1, NOWHERE), Entry(h.free, IndexOf(h.free, next) + 1, NOWHERE))
    ensures TagRep(m1, h.blocks, h.brk) && SamePayloads(m0, m1, h.blocks)
  {
    hide Word, Links, SamePayloads;
    assert |m1| == |m0|;
    var bs, next := h.blocks, Next(h.blocks, a);
    var i := IndexOf(h.free, next);
    assert GoodBlock(bs, h.brk, a);
    ListNeighbours(h, next);
    hide OnlyCells, FreeListExact, NoAdjacentFree;
    CellsInsideKeepTags(m0, m1, bs, h.brk, next, a + n, Entry(h.free, i - 1, NOWHERE), Entry(h.free, i + 1, NOWHERE));
  }

  lemma GrowSplitMemory(m0: seq<Byte>, m1: seq<Byte>, m2: seq<Byte>, m3: seq<Byte>, h: Heap, a: int, n: int)
    requires Rep(m0, h) && IsLive(h.blocks, a) && h.blocks[a].size < n <= Room(h.blocks, a) - 16 && n % 8 == 0
    requires var next := Next(h.blocks, a);
      IsFree(h.blocks, next) && next in h.free
      && var i := IndexOf(h.free, next);
         Links(m1, Replace(h.free, next, a + n)) && OnlyCells(m0, m1, a + n, Entry(h.free, i - 1, NOWHERE), Entry(h.free, i + 1, NOWHERE))
    requires PutsTags(m1, m2, a, Block(n, true)) && PutsTags(m2, m3, a + n, Block(Room(h.blocks, a) - n, false))
    ensures Resize(h, a, n).brk == h.brk && Resize(h, a, n).free == Replace(h.free, Next(h.blocks, a), a + n)
    ensures Rep(m3, Resize(h, a, n)) && SamePayloads(m0, m3, h.blocks)
  {
    hide Word, Links, OnlyCells, SamePayloads, Tiled, FreeListExact, NoAdjacentFree, AllTags, Ends;
    GrowCells(m0, m1, h, a, n);
    var bs, next, h1 := h.blocks, Next(h.blocks, a), Resize(h, a, n);
    ResizeWF(h, a, n);
    ResizeChanges(h, a, n);
    assert h1.free == Replace(h.free, next, a + n) && h1.brk == h.brk;
    hide Resize;
    TwoTags(m1, m2, m3, bs, h1.blocks, h.brk, a, a + n);
    TwoTagsKeepLinks(m1, m2, m3, h1, a, a + n);
    GrowPayloads(m0, m1, m3, h, a, n);
  }

  lemma GrowPayloads(m0: seq<Byte>, m1: seq<Byte>, m3: seq<Byte>, h: Heap, a: int, n: int)
    requires WF(h) && IsLive(h.blocks, a) && h.blocks[a].size < n <= Room(h.blocks, a) - 16 && n % 8 == 0
    requires SamePayloads(m0, m1, h.blocks) && SamePayloads(m1, m3, Resize(h, a, n).blocks)
    ensures SamePayloads(m0, m3, h.blocks)
  {
    var bs1 := Resize(h, a, n).blocks;
    assert GoodBlock(h.blocks, h.brk, a);
    ResizeChanges(h, a, n);
    hide Resize;
    forall x, k | IsLive(h.blocks, x) && 0 <= x <= k < Next(h.blocks, x) - DSIZE && k < |m0| ensures m3[k] == m0[k] {
      assert IsLive(bs1, x) && Next(h.blocks, x) <= Next(bs1, x);
    }
  }

  lemma SwallowTags(m0: seq<Byte>, m1: seq<Byte>, h: Heap, a: int)
    requires Rep(m0, h) && IsLive(h.blocks, a) && IsFree(h.blocks, Next(h.blocks, a))
    requires PutsTags(m0, m1, a, Block(Room(h.blocks, a), true))
    ensures TagRep(m1, Swallow(h, a).blocks, h.brk) && Links(m1, h.free) && SamePayloads(m0, m1, h.blocks)
  {
    hide Word;
    var bs, bs1 := h.blocks, Join(h.blocks, a);
    JoinTiled(bs, h.brk, a);
    FreeAreBlocks(h);
    OneTag(m0, m1, bs, bs1, h.brk, a);
    assert GoodBlock(bs, h.brk, a);
    MergeKeepsLinks(m0, m1, bs, h.brk, h.free, a, Next(bs, a));
    assert GoodBlock(bs, h.brk, Next(bs, a));
    forall x, k | IsLive(bs, x) && 0 <= x <= k < Next(bs, x) - DSIZE && k < |m0| ensures m1[k] == m0[k] {
      assert IsLive(bs1, x) && Next(bs, x) <= Next(bs1, x);
    }
  }

  lemma SwallowMemory(m0: seq<Byte>, m1: seq<Byte>, m2: seq<Byte>, h: Heap, a: int)
    requires WF(h) && IsLive(h.blocks, a) && IsFree(h.blocks, Next(h.blocks, a))
    requires TagRep(m1, Swallow(h, a).blocks, h.brk) && SamePayloads(m0, m1, h.blocks)
    requires var next := Next(h.blocks, a);
      next in h.free
      && var i := IndexOf(h.free, next);
         Links(m2, Remove(h.free, next)) && OnlyCells(m1, m2, NOWHERE, Entry(h.free, i - 1, NOWHERE), Entry(h.free, i + 1, NOWHERE))
    ensures Rep(m2, Swallow(h, a)) && SamePayloads(m0, m2, h.blocks)
  {
    hide Word, Links, OnlyCells;
    var bs, next, bs1 := h.blocks, Next(h.blocks, a), Swallow(h, a).blocks;
    SwallowWF(h, a);
    ListNeighbours(h, next);
    assert GoodBlock(bs, h.brk, a) && GoodBlock(bs, h.brk, next);
    UnlinkKeepsTags(m1, m2, bs1, h.brk, h.free, IndexOf(h.free, next));
    forall x, k | IsLive(bs, x) && 0 <= x <= k < Next(bs, x) - DSIZE && k < |m0| ensures m2[k] == m0[k] {
      assert IsLive(bs1, x) && Next(bs, x) <= Next(bs1, x);
    }
  }

  lemma SameSelf(m: seq<Byte>, bs: Blocks)
    ensures SamePayloads(m, m, bs)
  {
  }

  /** What coalesce reads around the block being freed. */
  lemma FreeingTags(m: seq<Byte>, h: Heap, a: int)
    requires Freeing(m, h, a)
    ensures FIRST <= a < Next(h.blocks, a) <= h.brk <= |m| < 0x8000_0000 && a % 8 == 0
    ensures SizeOf(Word(m, a - WSIZE)) == h.blocks[a].size
    ensures SizeOf(Word(m, a - DSIZE)) <= a - 8
    ensures var p := a - SizeOf(Word(m, a - DSIZE));
      p < a && SizeOf(Word(m, p - WSIZE)) == a - p && (FIRST < a ==> p == Prev(h, a))
    ensures AllocOf(Word(m, a - DSIZE)) == (if FIRST < a && IsFree(h.blocks, Prev(h, a)) then 0 else 1)
    ensures AllocOf(Word(m, Next(h.blocks, a) - WSIZE)) == (if IsFree(h.blocks, Next(h.blocks, a)) then 0 else 1)
    ensures IsFree(h.blocks, Next(h.blocks, a)) ==>
        Next(h.blocks, a) in h.free && Next(h.blocks, a) + 16 <= Next(h.blocks, Next(h.blocks, a)) <= |m|
        && SizeOf(Word(m, Next(h.blocks, a) - WSIZE)) == h.blocks[Next(h.blocks, a)].size
        && SizeOf(Word(m, Next(h.blocks, Next(h.blocks, a)) - DSIZE)) == h.blocks[Next(h.blocks, a)].size
  {
    hide Word, Links, PrevFrom;
    var marked := Mark(h.blocks, a, false);
    var h1 := h.(blocks := marked);
    Around(h, a);
    ReadTags(m, marked, h.brk, a);
    ReadPrev(m, h1, a);
    if FIRST < a {
      var p := Prev(h1, a);
      assert Next(h.blocks, p) == a;
      ReadTags(m, marked, h.brk, p);
    }
    ReadNext(m, marked, h.brk, a);
    if IsFree(h.blocks, Next(h.blocks, a)) {
      ReadTags(m, marked, h.brk, Next(h.blocks, a));
    }
  }

  lemma FreeNextLinks(m0: seq<Byte>, m1: seq<Byte>, h: Heap, a: int)
    requires Freeing(m0, h, a) && !(FIRST < a && IsFree(h.blocks, Prev(h, a)))
    requires var next := Next(h.blocks, a);
      IsFree(h.blocks, next) && next in h.free && PutsTags(m0, m1, a, Block(h.blocks[a].size + h.blocks[next].size, false))
    ensures Links(m1, h.free) && Cells(Replace(h.free, Next(h.blocks, a), a), |m1|)
  {
    FreeWF(h, a);
    FreeAreBlocks(h);
    MergeKeepsLinks(m0, m1, Mark(h.blocks, a, false), h.brk, h.free, a, Next(h.blocks, a));
    FreeCells(Free(h, a), |m1|);
  }

  /** The merged block is aligned and ends inside memory. */
  lemma MergedSize(h: Heap, a: int)
    requires WF(h) && IsLive(h.blocks, a)
    ensures var p, s := Merged(h, a), Free(h, a).blocks;
      FIRST <= p && p % 8 == 0 && p in s && 16 <= s[p].size && s[p].size % 8 == 0 && p + s[p].size <= h.brk
    ensures FIRST < a ==> Next(h.blocks, Prev(h, a)) == a && Prev(h, a) < a
    ensures Free(h, a).blocks[Merged(h, a)].size
      == (if Merged(h, a) == a then 0 else h.blocks[Merged(h, a)].size) + h.blocks[a].size
         + (if IsFree(h.blocks, Next(h.blocks, a)) then h.blocks[Next(h.blocks, a)].size else 0)
  {
    FreeWF(h, a);
    FreeChanges(h, a);
    Around(h, a);
    assert GoodBlock(Free(h, a).blocks, h.brk, Merged(h, a));
  }

  /** Writing inside the payload of a live block keeps the heap and every other payload. */
  lemma PayloadWrite(m0: seq<Byte>, m1: seq<Byte>, h: Heap, a: int, p: int, n: int)
    requires Rep(m0, h) && IsLive(h.blocks, a) && a <= p && 0 <= n && p + n <= Next(h.blocks, a) - DSIZE && OnlyAt(m0, m1, p, n)
    ensures Rep(m1, h) && SamePayloads(m0, m1, h.blocks - {a})
  {
    hide Word;
    var bs := h.blocks;
    assert GoodBlock(bs, h.brk, a);
    forall x {:trigger TagsAt(m1, bs, x)} | x in bs ensures TagsAt(m1, bs, x) {
      assert GoodBlock(bs, h.brk, x);
      assert TagsAt(m0, bs, x);
    }
    PayloadWriteLinks(m0, m1, h, a, p, n);
  }

  lemma PayloadWriteLinks(m0: seq<Byte>, m1: seq<Byte>, h: Heap, a: int, p: int, n: int)
    requires Rep(m0, h) && IsLive(h.blocks, a) && a <= p && 0 <= n && p + n <= Next(h.blocks, a) - DSIZE && OnlyAt(m0, m1, p, n)
    ensures Links(m1, h.free)
  {
    hide Word, TagRep;
    FreeAreBlocks(h);
    forall i {:trigger LinksAt(m1, h.free, i)} | 0 <= i < |h.free| ensures LinksAt(m1, h.free, i) {
      assert LinksAt(m0, h.free, i) && h.free[i] in h.free && GoodBlock(h.blocks, h.brk, h.free[i]);
    }
  }

  /** What realloc reads around a live block. */
  lemma LiveTags(m: seq<Byte>, h: Heap, a: int)
    requires Rep(m, h) && IsLive(h.blocks, a)
    ensures FIRST <= a < Next(h.blocks, a) <= h.brk <= |m| < 0x8000_0000 && a % 8 == 0
    ensures SizeOf(Word(m, a - WSIZE)) == h.blocks[a].size && 16 <= h.blocks[a].size && h.blocks[a].size % 8 == 0
    ensures AllocOf(Word(m, Next(h.blocks, a) - WSIZE)) == (if IsFree(h.blocks, Next(h.blocks, a)) then 0 else 1)
    ensures IsFree(h.blocks, Next(h.blocks, a)) ==>
        Next(h.blocks, a) in h.free && SizeOf(Word(m, Next(h.blocks, a) - WSIZE)) == h.blocks[Next(h.blocks, a)].size
        && 16 <= h.blocks[Next(h.blocks, a)].size && h.blocks[Next(h.blocks, a)].size % 8 == 0
        && a + Room(h.blocks, a) <= |m|
  {
    hide Word, Links;
    ReadTags(m, h.blocks, h.brk, a);
    ReadNext(m, h.blocks, h.brk, a);
    if IsFree(h.blocks, Next(h.blocks, a)) {
      ReadTags(m, h.blocks, h.brk, Next(h.blocks, a));
    }
  }

  lemma MoveApart(m: seq<Byte>, h: Heap, a: int, b: int)
    requires Rep(m, h) && IsLive(h.blocks, a) && IsLive(h.blocks, b) && a != b && h.blocks[a].size <= h.blocks[b].size
    ensures var n := h.blocks[a].size - DSIZE; n > 0 && FIRST <= a && FIRST <= b && a + n <= |m| && b + n <= |m| && Apart(a, n, b, n)
  {
    assert GoodBlock(h.blocks, h.brk, a) && GoodBlock(h.blocks, h.brk, b);
  }

  /** Malloc, copy, free: the new block holds the old contents, every other block its own. */
  lemma MovePayloads(m0: seq<Byte>, m1: seq<Byte>, m2: seq<Byte>, m3: seq<Byte>, bs0: Blocks, bs1: Blocks, a: int, b: int, n: int)
    requires IsLive(bs0, a) && IsLive(bs1, b) && !IsLive(bs0, b) && b != a && |m0| == |m1| == |m2| == |m3|
    requires 0 < n == bs0[a].size - DSIZE <= bs1[b].size - DSIZE && 0 <= a <= |m0| - n && 0 <= b <= |m0| - n
    requires forall x :: IsLive(bs0, x) ==> IsLive(bs1, x) && bs1[x] == bs0[x]
    requires SamePayloads(m0, m1, bs0) && m2[b..b + n] == m1[a..a + n]
    requires SamePayloads(m1, m2, bs1 - {b}) && SamePayloads(m2, m3, bs1 - {a})
    ensures SamePayloads(m0, m3, bs0 - {a})
    ensures m3[b..b + n] == m0[a..a + n]
  {
    forall x, k | IsLive(bs0 - {a}, x) && 0 <= x <= k < Next(bs0 - {a}, x) - DSIZE && k < |m0| ensures m3[k] == m0[k] {
      assert IsLive(bs0, x) && Next(bs0, x) == Next(bs0 - {a}, x);
      assert IsLive(bs1 - {b}, x) && Next(bs1 - {b}, x) == Next(bs0, x);
      assert IsLive(bs1 - {a}, x) && Next(bs1 - {a}, x) == Next(bs0, x);
    }
    assert IsLive(bs1 - {a}, b) && Next(bs1 - {a}, b) == b + bs1[b].size;
    assert m3[b..b + n] == m2[b..b + n];
    assert Next(bs0, a) == a + n + DSIZE;
    assert m1[a..a + n] == m0[a..a + n];
  }

  /** A live block that stays where it is keeps its first n bytes. */
  lemma OwnBytes(m0: seq<Byte>, m1: seq<Byte>, h: Heap, a: int, n: int)
    requires SamePayloads(m0, m1, h.blocks) && WF(h) && h.brk <= |m0| && IsLive(h.blocks, a) && 0 <= n <= h.blocks[a].size - DSIZE
    ensures SameBytes(m0, a, m1, a, n)
  {
    assert GoodBlock(h.blocks, h.brk, a);
  }

  /** Prologue and epilogue alone hold the heap without blocks. */
  lemma EmptyHeap(m: seq<Byte>)
    requires |m| < 0x8000_0000 && Ends(m, FIRST)
    ensures Rep(m, Heap(map[], [], FIRST))
  {
  }

  lemma MinBytes(m0: seq<Byte>, p: int, m1: seq<Byte>, q: int, n: int, size: int)
    requires SameBytes(m0, p, m1, q, n) && 0 <= size
    ensures SameBytes(m0, p, m1, q, Min(n, size))
  {
    assert m0[p..p + Min(n, size)] == m0[p..p + n][..Min(n, size)];
    assert m1[q..q + Min(n, size)] == m1[q..q + n][..Min(n, size)];
  }
}
