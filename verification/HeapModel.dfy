/** The allocator of lab7/mm.c on values: the blocks that tile the heap, and the order of the free ones. Addresses are offsets of payloads. */
module HeapModel {
  import opened Prelude

  const NULL := 0  // never a payload
  const DSIZE := 8
  const CHUNKSIZE := 4096
  const FIRST := 16  // the payload of the first block after the prologue

  datatype Block = Block(size: int, used: bool)

  type Blocks = map<int, Block>

  datatype Heap = Heap(blocks: Blocks, free: seq<int>, brk: int)

  // ---------- well-formedness ----------

  function Next(bs: Blocks, a: int): int
    requires a in bs
  {
    a + bs[a].size
  }

  predicate IsFree(bs: Blocks, a: int) {
    a in bs && !bs[a].used
  }

  predicate IsLive(bs: Blocks, a: int) {
    a in bs && bs[a].used
  }

  ghost predicate GoodBlock(bs: Blocks, brk: int, a: int)
    requires a in bs
  {
    FIRST <= a && a % 8 == 0 && bs[a].size >= 16 && bs[a].size % 8 == 0
    && Next(bs, a) <= brk && (Next(bs, a) < brk ==> Next(bs, a) in bs)
  }

  /** The blocks tile the bytes from FIRST to brk. */
  ghost predicate Tiled(bs: Blocks, brk: int) {
    FIRST <= brk && brk % 8 == 0 && (FIRST < brk ==> FIRST in bs)
    && (forall a {:trigger GoodBlock(bs, brk, a)} :: a in bs ==> GoodBlock(bs, brk, a))
    && (forall a, b :: a in bs && b in bs && a < b ==> Next(bs, a) <= b)
  }

  ghost predicate NoAdjacentFree(bs: Blocks) {
    forall a {:trigger Next(bs, a)} :: IsFree(bs, a) ==> !IsFree(bs, Next(bs, a))
  }

  ghost predicate FreeListExact(bs: Blocks, free: seq<int>) {
    Distinct(free) && (forall a :: a in free <==> IsFree(bs, a))
  }

  ghost predicate WF(h: Heap) {
    Tiled(h.blocks, h.brk) && NoAdjacentFree(h.blocks) && FreeListExact(h.blocks, h.free)
  }

  // ---------- navigation ----------

  /** The block that ends at a, found by walking from p. */
  ghost function PrevFrom(bs: Blocks, brk: int, p: int, a: int): (r: int)
    requires Tiled(bs, brk) && p in bs && p < a && (a in bs || a == brk)
    ensures p <= r < a && r in bs && Next(bs, r) == a
    decreases a - p
  {
    assert GoodBlock(bs, brk, p) && (a in bs ==> GoodBlock(bs, brk, a));
    if Next(bs, p) == a then p else PrevFrom(bs, brk, Next(bs, p), a)
  }

  ghost function Prev(h: Heap, a: int): (r: int)
    requires Tiled(h.blocks, h.brk) && FIRST < a && (a in h.blocks || a == h.brk)
    ensures r in h.blocks && Next(h.blocks, r) == a
  {
    assert a in h.blocks ==> GoodBlock(h.blocks, h.brk, a);
    PrevFrom(h.blocks, h.brk, FIRST, a)
  }

  function IndexOf(s: seq<int>, a: int): (i: int)
    requires a in s
    ensures 0 <= i < |s| && s[i] == a
  {
    if s[0] == a then 0 else 1 + IndexOf(s[1..], a)
  }

  function Remove(s: seq<int>, a: int): seq<int>
    requires a in s
  {
    s[..IndexOf(s, a)] + s[IndexOf(s, a) + 1..]
  }

  function Replace(s: seq<int>, a: int, b: int): seq<int>
    requires a in s
  {
    s[IndexOf(s, a) := b]
  }

  lemma RemoveExact(s: seq<int>, a: int)
    requires Distinct(s) && a in s
    ensures Distinct(Remove(s, a))
    ensures forall x :: x in Remove(s, a) <==> x in s && x != a
  {
  }

  lemma ReplaceExact(s: seq<int>, a: int, b: int)
    requires Distinct(s) && a in s && (b !in s || b == a)
    ensures Distinct(Replace(s, a, b))
    ensures forall x :: x in Replace(s, a, b) <==> x == b || (x in s && x != a)
  {
    var i := IndexOf(s, a);
    var r := Replace(s, a, b);
    assert r[i] == b;
    forall x | x in s && x != a
      ensures x in r
    {
      var j :| 0 <= j < |s| && s[j] == x;
      assert r[j] == x;
    }
  }

  // ---------- the ways to change a tiling ----------

  function Mark(bs: Blocks, a: int, used: bool): Blocks
    requires a in bs
  {
    bs[a := Block(bs[a].size, used)]
  }

  /** Block a swallows its successor. */
  function Join(bs: Blocks, a: int): Blocks
    requires a in bs && Next(bs, a) in bs
  {
    (bs - {Next(bs, a)})[a := Block(bs[a].size + bs[Next(bs, a)].size, bs[a].used)]
  }

  /** Block a becomes a front of n bytes and a back of the rest. */
  function Split(bs: Blocks, a: int, n: int, front: bool, back: bool): Blocks
    requires a in bs
  {
    bs[a := Block(n, front)][a + n := Block(bs[a].size - n, back)]
  }

  lemma MarkTiled(bs: Blocks, brk: int, a: int, used: bool)
    requires Tiled(bs, brk) && a in bs
    ensures Tiled(Mark(bs, a, used), brk)
  {
    var r := Mark(bs, a, used);
    forall x {:trigger GoodBlock(r, brk, x)} | x in r ensures GoodBlock(r, brk, x) {
      assert GoodBlock(bs, brk, x);
    }
  }

  lemma Eights(x: int, y: int)
    requires x % 8 == 0 && y % 8 == 0
    ensures (x + y) % 8 == 0 && (x - y) % 8 == 0
  {
  }

  /** Two blocks that end at one place are one block. */
  lemma OneEndsThere(bs: Blocks, brk: int, x: int, y: int)
    requires Tiled(bs, brk) && x in bs && y in bs && Next(bs, x) == Next(bs, y)
    ensures x == y
  {
    BlockIsGood(bs, brk, x);
    BlockIsGood(bs, brk, y);
  }

  lemma JoinGood(bs: Blocks, brk: int, a: int, x: int)
    requires Tiled(bs, brk) && a in bs && Next(bs, a) in bs && x in Join(bs, a)
    ensures GoodBlock(Join(bs, a), brk, x)
  {
    hide Tiled;
    BlockIsGood(bs, brk, a);
    BlockIsGood(bs, brk, Next(bs, a));
    BlockIsGood(bs, brk, x);
    Eights(bs[a].size, bs[Next(bs, a)].size);
    if Next(bs, x) == Next(bs, a) { OneEndsThere(bs, brk, a, x); }
  }

  lemma JoinTiled(bs: Blocks, brk: int, a: int)
    requires Tiled(bs, brk) && a in bs && Next(bs, a) in bs
    ensures Tiled(Join(bs, a), brk)
  {
    var r := Join(bs, a);
    BlockIsGood(bs, brk, a);
    BlockIsGood(bs, brk, Next(bs, a));
    hide GoodBlock;
    forall x {:trigger GoodBlock(r, brk, x)} | x in r ensures GoodBlock(r, brk, x) {
      JoinGood(bs, brk, a, x);
    }
    forall x, y | x in r && y in r && x < y ensures Next(r, x) <= y {}
  }

  lemma SplitGood(bs: Blocks, brk: int, a: int, n: int, front: bool, back: bool, x: int)
    requires Tiled(bs, brk) && a in bs && 16 <= n <= bs[a].size - 16 && n % 8 == 0 && x in Split(bs, a, n, front, back)
    ensures GoodBlock(Split(bs, a, n, front, back), brk, x)
  {
    hide Tiled;
    BlockIsGood(bs, brk, a);
    if x in bs { BlockIsGood(bs, brk, x); }
    Eights(a, n);
    Eights(bs[a].size, n);
  }

  lemma SplitTiled(bs: Blocks, brk: int, a: int, n: int, front: bool, back: bool)
    requires Tiled(bs, brk) && a in bs && 16 <= n <= bs[a].size - 16 && n % 8 == 0
    ensures Tiled(Split(bs, a, n, front, back), brk)
    ensures a + n !in bs
  {
    var r := Split(bs, a, n, front, back);
    BlockIsGood(bs, brk, a);
    hide GoodBlock;
    forall x {:trigger GoodBlock(r, brk, x)} | x in r ensures GoodBlock(r, brk, x) {
      SplitGood(bs, brk, a, n, front, back, x);
    }
    forall x, y | x in r && y in r && x < y ensures Next(r, x) <= y {}
  }

  // ---------- operations ----------

  /** The first block of the list that holds n bytes, or NULL. */
  function FirstFit(bs: Blocks, free: seq<int>, n: int): int
    requires forall i :: 0 <= i < |free| ==> free[i] in bs
  {
    if free == [] then NULL
    else if n <= bs[free[0]].size then free[0]
    else FirstFit(bs, free[1..], n)
  }

  /** Whether the last block is free, so that growing the heap grows it. */
  ghost predicate FreeAtEnd(h: Heap)
    requires Tiled(h.blocks, h.brk)
  {
    FIRST < h.brk && IsFree(h.blocks, Prev(h, h.brk))
  }

  /** Grow the heap by n bytes. */
  ghost function Extend(h: Heap, n: int): Heap
    requires Tiled(h.blocks, h.brk)
  {
    if FreeAtEnd(h) then
      h.(blocks := h.blocks[Prev(h, h.brk) := Block(h.blocks[Prev(h, h.brk)].size + n, false)], brk := h.brk + n)
    else
      Heap(h.blocks[h.brk := Block(n, false)], h.free + [h.brk], h.brk + n)
  }

  /** The free block that Extend grew or made. */
  ghost function Extended(h: Heap): int
    requires Tiled(h.blocks, h.brk)
  {
    if FreeAtEnd(h) then Prev(h, h.brk) else h.brk
  }

  /** Allocate n bytes in the free block a: its tail if at least 16 bytes remain, else all of it. */
  ghost function Place(h: Heap, a: int, n: int): (Heap, int)
    requires IsFree(h.blocks, a) && a in h.free
  {
    var rest := h.blocks[a].size - n;
    if rest >= 16 then (h.(blocks := Split(h.blocks, a, rest, false, true)), a + rest)
    else (h.(blocks := Mark(h.blocks, a, true), free := Remove(h.free, a)), a)
  }

  function AlignedSize(size: int): int {
    DSIZE * ((size + DSIZE + (DSIZE - 1)) / DSIZE)
  }

  function AdjustedRequest(size: int): int {
    if size == 448 then 512 else if size == 112 then 128 else size
  }

  function Max(a: int, b: int): int {
    if a > b then a else b
  }

  /** mm_malloc in a heap of at most limit bytes: the new heap and the payload, or NULL. */
  ghost function Malloc(h: Heap, limit: int, size: int): (r: (Heap, int))
    requires WF(h) && size >= 0
  {
    if size == 0 then (h, NULL)
    else
      var n := AlignedSize(AdjustedRequest(size));
      var more := Max(n, CHUNKSIZE);
      FreeAreBlocks(h);
      var a := FirstFit(h.blocks, h.free, n);
      FirstFitExact(h.blocks, h.free, n);
      if a != NULL then Place(h, a, n)
      else if h.brk + more > limit then (h, NULL)
      else
        ExtendWF(h, more);
        Place(Extend(h, more), Extended(h), n)
  }

  /** mm_free of the live block a: merge with every free neighbour. */
  ghost function Free(h: Heap, a: int): Heap
    requires WF(h) && IsLive(h.blocks, a)
  {
    var marked := Mark(h.blocks, a, false);
    var next := Next(h.blocks, a);
    var joined := if IsFree(h.blocks, next) then Join(marked, a) else marked;
    assert GoodBlock(h.blocks, h.brk, a);
    if FIRST < a && IsFree(h.blocks, Prev(h, a)) then
      // the predecessor keeps its place in the list
      h.(blocks := Join(joined, Prev(h, a)),
         free := if IsFree(h.blocks, next) then Remove(h.free, next) else h.free)
    else
      // a takes the place of the successor, or the last place
      h.(blocks := joined, free := if IsFree(h.blocks, next) then Replace(h.free, next, a) else h.free + [a])
  }

  /** The bytes the live block a can grow to in place. */
  function Room(bs: Blocks, a: int): int
    requires a in bs
  {
    bs[a].size + if IsFree(bs, Next(bs, a)) then bs[Next(bs, a)].size else 0
  }

  /** Resize the live block a to n bytes; what is left of it and of a free successor is one free block. */
  ghost function Resize(h: Heap, a: int, n: int): Heap
    requires WF(h) && IsLive(h.blocks, a)
  {
    var next := Next(h.blocks, a);
    if IsFree(h.blocks, next) then
      h.(blocks := Split(Join(h.blocks, a), a, n, true, false), free := Replace(h.free, next, a + n))
    else
      h.(blocks := Split(h.blocks, a, n, true, false), free := h.free + [a + n])
  }

  /** The live block a swallows its free successor. */
  ghost function Swallow(h: Heap, a: int): Heap
    requires WF(h) && IsLive(h.blocks, a) && IsFree(h.blocks, Next(h.blocks, a))
  {
    h.(blocks := Join(h.blocks, a), free := Remove(h.free, Next(h.blocks, a)))
  }

  // ---------- every operation keeps well-formedness ----------

  lemma FreeAreBlocks(h: Heap)
    requires WF(h)
    ensures forall i :: 0 <= i < |h.free| ==> h.free[i] in h.blocks && h.free[i] >= FIRST
  {
    forall i | 0 <= i < |h.free| ensures h.free[i] in h.blocks && h.free[i] >= FIRST {
      assert h.free[i] in h.free;
      assert GoodBlock(h.blocks, h.brk, h.free[i]);
    }
  }

  lemma {:induction false} FirstFitExact(bs: Blocks, free: seq<int>, n: int)
    requires forall i :: 0 <= i < |free| ==> free[i] in bs && free[i] != NULL
    ensures var r := FirstFit(bs, free, n);
      if forall i :: 0 <= i < |free| ==> bs[free[i]].size < n then r == NULL
      else exists i :: 0 <= i < |free| && r == free[i] && n <= bs[r].size
                       && forall j :: 0 <= j < i ==> bs[free[j]].size < n
  {
    if free != [] {
      assert free[0] in bs;
      if n > bs[free[0]].size {
        var rest := free[1..];
        FirstFitExact(bs, rest, n);
        assert forall i :: 0 < i < |free| ==> free[i] == rest[i - 1];
        if !forall i :: 0 <= i < |rest| ==> bs[rest[i]].size < n {
          var r := FirstFit(bs, rest, n);
          var i :| 0 <= i < |rest| && r == rest[i] && n <= bs[r].size
                   && forall j :: 0 <= j < i ==> bs[rest[j]].size < n;
          assert r == free[i + 1];
          assert forall k :: 0 <= k < i + 1 ==> bs[free[k]].size < n;
        }
      }
    }
  }

  lemma BlockIsGood(bs: Blocks, brk: int, a: int)
    requires Tiled(bs, brk) && a in bs
    ensures GoodBlock(bs, brk, a)
  {
  }

  lemma BelowBrk(bs: Blocks, brk: int)
    requires Tiled(bs, brk)
    ensures forall x :: x in bs ==> FIRST <= x && x + 16 <= brk
  {
    forall x | x in bs ensures FIRST <= x && x + 16 <= brk {
      assert GoodBlock(bs, brk, x);
    }
  }

  lemma GrowLastTiled(bs: Blocks, brk: int, l: int, n: int)
    requires Tiled(bs, brk) && l in bs && Next(bs, l) == brk && n >= 16 && n % 8 == 0
    ensures Tiled(bs[l := Block(bs[l].size + n, false)], brk + n)
  {
    var r := bs[l := Block(bs[l].size + n, false)];
    assert GoodBlock(bs, brk, l);
    forall x {:trigger GoodBlock(r, brk + n, x)} | x in r ensures GoodBlock(r, brk + n, x) {
      assert GoodBlock(bs, brk, x);
    }
    BelowBrk(bs, brk);
  }

  lemma AppendTiled(bs: Blocks, brk: int, n: int)
    requires Tiled(bs, brk) && n >= 16 && n % 8 == 0
    ensures Tiled(bs[brk := Block(n, false)], brk + n)
  {
    var r := bs[brk := Block(n, false)];
    BelowBrk(bs, brk);
    forall x {:trigger GoodBlock(r, brk + n, x)} | x in r ensures GoodBlock(r, brk + n, x) {
      if x in bs { assert GoodBlock(bs, brk, x); }
    }
    forall x | x in bs ensures x + bs[x].size <= brk {
      assert GoodBlock(bs, brk, x);
    }
  }

  lemma ExtendTiled(h: Heap, n: int)
    requires WF(h) && n >= 16 && n % 8 == 0
    ensures Tiled(Extend(h, n).blocks, h.brk + n)
  {
    hide NoAdjacentFree, FreeListExact;
    if FreeAtEnd(h) {
      GrowLastTiled(h.blocks, h.brk, Prev(h, h.brk), n);
    } else {
      AppendTiled(h.blocks, h.brk, n);
    }
  }

  lemma ExtendApart(h: Heap, n: int)
    requires WF(h) && n >= 16 && n % 8 == 0
    ensures NoAdjacentFree(Extend(h, n).blocks)
  {
    hide FreeListExact;
    var bs, r := h.blocks, Extend(h, n).blocks;
    ExtendTiled(h, n);
    BelowBrk(bs, h.brk);
    BelowBrk(r, h.brk + n);
    forall x {:trigger Next(r, x)} | IsFree(r, x) ensures !IsFree(r, Next(r, x)) {
      if x != Extended(h) {
        assert Next(bs, x) == Next(r, x);
      }
    }
  }

  lemma ExtendWF(h: Heap, n: int)
    requires WF(h) && n >= 16 && n % 8 == 0
    ensures WF(Extend(h, n))
    ensures IsFree(Extend(h, n).blocks, Extended(h)) && Extend(h, n).blocks[Extended(h)].size >= n
    ensures Extended(h) in Extend(h, n).free
  {
    hide Tiled, NoAdjacentFree;
    ExtendTiled(h, n);
    ExtendApart(h, n);
    BelowBrk(h.blocks, h.brk);
    assert h.brk !in h.free;
    assert FreeListExact(Extend(h, n).blocks, Extend(h, n).free);
  }

  lemma PlaceTiled(h: Heap, a: int, n: int)
    requires WF(h) && IsFree(h.blocks, a) && 16 <= n <= h.blocks[a].size && n % 8 == 0
    ensures a in h.free && Tiled(Place(h, a, n).0.blocks, h.brk) && (h.blocks[a].size - n >= 16 ==> Place(h, a, n).1 !in h.blocks)
  {
    hide NoAdjacentFree;
    var rest := h.blocks[a].size - n;
    BlockIsGood(h.blocks, h.brk, a);
    if rest >= 16 {
      SplitTiled(h.blocks, h.brk, a, rest, false, true);
    } else {
      MarkTiled(h.blocks, h.brk, a, true);
    }
  }

  lemma PlaceWF(h: Heap, a: int, n: int)
    requires WF(h) && IsFree(h.blocks, a) && 16 <= n <= h.blocks[a].size && n % 8 == 0
    ensures a in h.free
    ensures var (h', p) := Place(h, a, n);
      WF(h') && IsLive(h'.blocks, p) && !IsLive(h.blocks, p) && n <= h'.blocks[p].size < n + 16
  {
    hide Tiled, Remove;
    PlaceTiled(h, a, n);
    BlockIsGood(h.blocks, h.brk, a);
    RemoveExact(h.free, a);
    var r := Place(h, a, n).0.blocks;
    forall x {:trigger Next(r, x)} | IsFree(r, x) ensures !IsFree(r, Next(r, x)) {
      assert x in h.blocks && (x != a ==> Next(h.blocks, x) == Next(r, x));
    }
  }

  /** Marking a free and joining it with a free successor leaves a with no free successor. */
  lemma JoinedApart(h: Heap, a: int)
    requires WF(h) && IsLive(h.blocks, a)
    ensures var marked := Mark(h.blocks, a, false);
      var joined := if IsFree(h.blocks, Next(h.blocks, a)) then Join(marked, a) else marked;
      Tiled(joined, h.brk) && IsFree(joined, a)
      && forall x {:trigger Next(joined, x)} :: IsFree(joined, x) && IsFree(joined, Next(joined, x)) ==> x != a && Next(joined, x) == a
  {
    var bs, next := h.blocks, Next(h.blocks, a);
    var marked := Mark(bs, a, false);
    MarkTiled(bs, h.brk, a, false);
    if IsFree(bs, next) {
      JoinTiled(marked, h.brk, a);
      assert Next(bs, next) == Next(Join(marked, a), a);
    }
    var joined := if IsFree(bs, next) then Join(marked, a) else marked;
    forall x {:trigger Next(joined, x)} | IsFree(joined, x) && IsFree(joined, Next(joined, x))
      ensures x != a && Next(joined, x) == a
    {
      assert GoodBlock(joined, h.brk, x);
      assert x != a ==> Next(bs, x) == Next(joined, x);
    }
  }

  /** In joined, only the block before a can be a free neighbour of a; merging the two leaves none. */
  lemma FreeApart(joined: Blocks, brk: int, a: int, p: int)
    requires Tiled(joined, brk) && IsFree(joined, a) && IsFree(joined, p) && Next(joined, p) == a
    requires forall x {:trigger Next(joined, x)} :: IsFree(joined, x) && IsFree(joined, Next(joined, x)) ==> Next(joined, x) == a
    ensures Tiled(Join(joined, p), brk) && NoAdjacentFree(Join(joined, p))
  {
    JoinTiled(joined, brk, p);
    var r := Join(joined, p);
    assert GoodBlock(joined, brk, a);
    forall x {:trigger Next(r, x)} | IsFree(r, x) ensures !IsFree(r, Next(r, x)) {
      if x == p {
        assert Next(r, p) == Next(joined, a);
      } else {
        assert Next(r, x) == Next(joined, x);
      }
    }
  }

  /** The successor lies above a, the predecessor below, and no other block ends where a begins. */
  lemma Around(h: Heap, a: int)
    requires Tiled(h.blocks, h.brk) && a in h.blocks
    ensures FIRST <= a && a + 16 <= Next(h.blocks, a)
    ensures FIRST < a ==> Prev(h, a) + 16 <= a
    ensures forall x {:trigger Next(h.blocks, x)} :: x in h.blocks && Next(h.blocks, x) == a ==> FIRST < a && x == Prev(h, a)
  {
    assert GoodBlock(h.blocks, h.brk, a);
    if FIRST < a { assert GoodBlock(h.blocks, h.brk, Prev(h, a)); }
    forall x {:trigger Next(h.blocks, x)} | x in h.blocks && Next(h.blocks, x) == a
      ensures FIRST < a && x == Prev(h, a)
    {
      assert GoodBlock(h.blocks, h.brk, x);
    }
  }

  lemma FreeBlocksWF(h: Heap, a: int)
    requires WF(h) && IsLive(h.blocks, a)
    ensures Tiled(Free(h, a).blocks, h.brk) && NoAdjacentFree(Free(h, a).blocks)
  {
    hide PrevFrom, FreeListExact, Tiled, Prev;
    var marked := Mark(h.blocks, a, false);
    var joined := if IsFree(h.blocks, Next(h.blocks, a)) then Join(marked, a) else marked;
    JoinedApart(h, a);
    Around(h, a);
    if FIRST < a && IsFree(h.blocks, Prev(h, a)) {
      FreeApart(joined, h.brk, a, Prev(h, a));
    } else {
      forall x {:trigger Next(joined, x)} | IsFree(joined, x) ensures !IsFree(joined, Next(joined, x)) {
        assert x != a ==> Next(h.blocks, x) == Next(joined, x);
      }
    }
  }

  lemma FreeListWF(h: Heap, a: int)
    requires WF(h) && IsLive(h.blocks, a)
    ensures FreeListExact(Free(h, a).blocks, Free(h, a).free)
  {
    hide Prev, PrevFrom, Tiled, NoAdjacentFree, Remove, Replace, IndexOf;
    var bs, next, r, l := h.blocks, Next(h.blocks, a), Free(h, a).blocks, Free(h, a).free;
    Around(h, a);
    assert a !in h.free;
    if IsFree(bs, next) {
      RemoveExact(h.free, next);
      ReplaceExact(h.free, next, a);
    }
    if FIRST < a && IsFree(bs, Prev(h, a)) {
      assert forall x :: x in l <==> (IsFree(bs, x) && x != next);
      assert forall x :: IsFree(r, x) <==> (IsFree(bs, x) && x != next);
    } else {
      assert forall x :: x in l <==> x == a || (IsFree(bs, x) && x != next);
      assert forall x :: IsFree(r, x) <==> x == a || (IsFree(bs, x) && x != next);
    }
  }

  lemma FreeWF(h: Heap, a: int)
    requires WF(h) && IsLive(h.blocks, a)
    ensures WF(Free(h, a))
  {
    FreeBlocksWF(h, a);
    FreeListWF(h, a);
  }

  lemma ResizeTiled(h: Heap, a: int, n: int)
    requires WF(h) && IsLive(h.blocks, a) && 16 <= n <= Room(h.blocks, a) - 16 && n % 8 == 0
    ensures Tiled(Resize(h, a, n).blocks, h.brk) && (a + n in h.free ==> a + n == Next(h.blocks, a) && IsFree(h.blocks, a + n))
  {
    hide NoAdjacentFree;
    var bs, next := h.blocks, Next(h.blocks, a);
    BlockIsGood(bs, h.brk, a);
    if IsFree(bs, next) {
      BlockIsGood(bs, h.brk, next);
      JoinTiled(bs, h.brk, a);
      SplitTiled(Join(bs, a), h.brk, a, n, true, false);
    } else {
      SplitTiled(bs, h.brk, a, n, true, false);
    }
  }

  lemma ResizeApart(h: Heap, a: int, n: int)
    requires WF(h) && IsLive(h.blocks, a) && 16 <= n <= Room(h.blocks, a) - 16 && n % 8 == 0
    ensures NoAdjacentFree(Resize(h, a, n).blocks)
  {
    hide FreeListExact, Replace;
    var bs, next, r := h.blocks, Next(h.blocks, a), Resize(h, a, n).blocks;
    BlockIsGood(bs, h.brk, a);
    ResizeChanges(h, a, n);
    forall x {:trigger Next(r, x)} | IsFree(r, x) ensures !IsFree(r, Next(r, x)) {
      if x == a + n {
        assert Next(r, x) == if IsFree(bs, next) then Next(bs, next) else next;
      } else {
        assert Next(bs, x) == Next(r, x);
        BlockIsGood(bs, h.brk, x);
      }
    }
  }

  lemma ResizeListExact(h: Heap, a: int, n: int)
    requires WF(h) && IsLive(h.blocks, a) && 16 <= n <= Room(h.blocks, a) - 16 && n % 8 == 0
    ensures FreeListExact(Resize(h, a, n).blocks, Resize(h, a, n).free)
  {
    hide Tiled, NoAdjacentFree, Replace;
    var next := Next(h.blocks, a);
    ResizeTiled(h, a, n);
    BlockIsGood(h.blocks, h.brk, a);
    if IsFree(h.blocks, next) { ReplaceExact(h.free, next, a + n); }
  }

  lemma ResizeWF(h: Heap, a: int, n: int)
    requires WF(h) && IsLive(h.blocks, a) && 16 <= n <= Room(h.blocks, a) - 16 && n % 8 == 0
    ensures WF(Resize(h, a, n))
  {
    hide Tiled, NoAdjacentFree, FreeListExact;
    ResizeTiled(h, a, n);
    ResizeApart(h, a, n);
    ResizeListExact(h, a, n);
  }

  lemma SwallowWF(h: Heap, a: int)
    requires WF(h) && IsLive(h.blocks, a) && IsFree(h.blocks, Next(h.blocks, a))
    ensures WF(Swallow(h, a))
  {
    RemoveExact(h.free, Next(h.blocks, a));
    JoinTiled(h.blocks, h.brk, a);
    var r := Swallow(h, a).blocks;
    forall x {:trigger Next(r, x)} | IsFree(r, x) ensures !IsFree(r, Next(r, x)) {
      assert x != a && Next(h.blocks, x) == Next(r, x);
      assert IsFree(h.blocks, x);
      assert !IsFree(h.blocks, Next(h.blocks, x));
      assert Next(r, x) in r ==> r[Next(r, x)].used;
    }
  }

  /** The block that mm_free leaves where a was. */
  ghost function Merged(h: Heap, a: int): int
    requires WF(h) && IsLive(h.blocks, a)
  {
    assert GoodBlock(h.blocks, h.brk, a);
    if FIRST < a && IsFree(h.blocks, Prev(h, a)) then Prev(h, a) else a
  }

  /** What mm_free changes: one merged block; other live blocks are untouched, other free ones stay free. */
  lemma FreeChanges(h: Heap, a: int)
    requires WF(h) && IsLive(h.blocks, a)
    ensures var bs, bs1, p := h.blocks, Free(h, a).blocks, Merged(h, a);
      var next := Next(bs, a);
      IsFree(bs1, p)
      && bs1[p].size == (if p == a then 0 else bs[p].size) + bs[a].size + (if IsFree(bs, next) then bs[next].size else 0)
      && (forall x :: x in bs1 && x != p ==> x in bs && x != a && bs1[x] == bs[x])
      && (forall x :: IsLive(bs, x) && x != a ==> IsLive(bs1, x) && bs1[x] == bs[x])
      && (forall x :: IsFree(bs, x) && x != next ==> IsFree(bs1, x))
  {
    hide PrevFrom, Prev, Tiled, NoAdjacentFree, FreeListExact, GoodBlock;
    Around(h, a);
  }

  /** The sizes on both sides of a split of the room of a, behind a's old end. */
  lemma GrowSizes(h: Heap, a: int, n: int)
    requires WF(h) && IsLive(h.blocks, a) && h.blocks[a].size < n <= Room(h.blocks, a) - 16 && n % 8 == 0
    ensures FIRST <= a && a % 8 == 0 && 24 <= n && a + Room(h.blocks, a) <= h.brk && Room(h.blocks, a) % 8 == 0
    ensures Next(h.blocks, a) in h.blocks && Next(h.blocks, a) + 8 <= a + n
  {
    BlockIsGood(h.blocks, h.brk, a);
    BlockIsGood(h.blocks, h.brk, Next(h.blocks, a));
  }

  /** What resizing changes: the block itself and the free block after it. */
  lemma ResizeChanges(h: Heap, a: int, n: int)
    requires WF(h) && IsLive(h.blocks, a) && 16 <= n <= Room(h.blocks, a) - 16 && n % 8 == 0
    ensures var bs, bs1 := h.blocks, Resize(h, a, n).blocks;
      a in bs1 && bs1[a] == Block(n, true) && a + n in bs1 && bs1[a + n] == Block(Room(bs, a) - n, false)
      && (forall x :: x in bs1 && x != a && x != a + n ==> x in bs && bs1[x] == bs[x])
      && (forall x :: IsLive(bs, x) && x != a ==> IsLive(bs1, x) && bs1[x] == bs[x])
      && (forall x :: IsFree(bs, x) && x != Next(bs, a) ==> IsFree(bs1, x))
  {
    var bs, next := h.blocks, Next(h.blocks, a);
    assert GoodBlock(bs, h.brk, a);
    if IsFree(bs, next) {
      assert GoodBlock(bs, h.brk, next);
      JoinTiled(bs, h.brk, a);
      SplitTiled(Join(bs, a), h.brk, a, n, true, false);
    } else {
      SplitTiled(bs, h.brk, a, n, true, false);
    }
  }

  /** From h to h' exactly block p of at least n bytes has become live; every other live block is as it was. */
  ghost predicate Allocates(h: Heap, h': Heap, p: int, n: int) {
    WF(h') && IsLive(h'.blocks, p) && !IsLive(h.blocks, p) && FIRST <= p && n <= h'.blocks[p].size
    && (forall x :: IsLive(h.blocks, x) ==> IsLive(h'.blocks, x) && h'.blocks[x] == h.blocks[x])
    && (forall x :: IsLive(h'.blocks, x) ==> x == p || IsLive(h.blocks, x))
  }

  lemma PlaceAllocates(h: Heap, a: int, n: int)
    requires WF(h) && IsFree(h.blocks, a) && 16 <= n <= h.blocks[a].size && n % 8 == 0
    ensures a in h.free
    ensures var (h', p) := Place(h, a, n); Allocates(h, h', p, n)
  {
    PlaceWF(h, a, n);
    assert GoodBlock(h.blocks, h.brk, a);
  }

  lemma ExtendKeepsLive(h: Heap, n: int)
    requires WF(h)
    ensures forall x :: IsLive(h.blocks, x) ==> IsLive(Extend(h, n).blocks, x) && Extend(h, n).blocks[x] == h.blocks[x]
    ensures forall x :: IsLive(Extend(h, n).blocks, x) ==> IsLive(h.blocks, x)
  {
    BelowBrk(h.blocks, h.brk);
  }

  lemma AlignedSizeBounds(size: int)
    requires size >= 0
    ensures AlignedSize(size) % 8 == 0 && size + DSIZE <= AlignedSize(size) <= size + 15
    ensures size > 0 ==> AlignedSize(size) >= 16
  {
  }

  /** mm_malloc keeps every live block and returns a new one that holds size bytes, or changes nothing. */
  lemma MallocWF(h: Heap, limit: int, size: int)
    requires WF(h) && size >= 0
    ensures var (h', p) := Malloc(h, limit, size);
      if p == NULL then h' == h else Allocates(h, h', p, size + DSIZE)
  {
    if size != 0 {
      var n := AlignedSize(AdjustedRequest(size));
      var more := Max(n, CHUNKSIZE);
      AlignedSizeBounds(AdjustedRequest(size));
      FitIsFree(h, n);
      var a := FirstFit(h.blocks, h.free, n);
      hide WF, FirstFit, Extend, Place, AlignedSize;
      if a != NULL {
        PlaceAllocates(h, a, n);
      } else if h.brk + more <= limit {
        ExtendWF(h, more);
        ExtendKeepsLive(h, more);
        PlaceAllocates(Extend(h, more), Extended(h), n);
      }
    }
  }

  /** What a call returns, or that it followed a null pointer. */
  datatype Outcome = Returned(p: int) | Fault

  /** The last resort of mm_realloc: a new block for the contents of a, which is freed. */
  ghost function Move(h: Heap, limit: int, a: int, n: int): (Heap, Outcome)
    requires WF(h) && IsLive(h.blocks, a) && n >= 0
  {
    MallocWF(h, limit, n);
    var (h1, p) := Malloc(h, limit, n);
    if p == NULL then (h, Fault) else (Free(h1, a), Returned(p))
  }

  /** mm_realloc of the live block a, or of NULL. */
  ghost function Realloc(h: Heap, limit: int, a: int, size: int): (Heap, Outcome)
    requires WF(h) && (a == NULL || IsLive(h.blocks, a)) && size >= 0
  {
    var n := AlignedSize(size);
    if a == NULL then
      if size == 0 then (h, Fault) else var (h1, p) := Malloc(h, limit, n); (h1, Returned(p))
    else if size == 0 then (Free(h, a), Returned(a))
    else if n <= h.blocks[a].size - 16 then (Resize(h, a, n), Returned(a))
    else if n <= h.blocks[a].size then (h, Returned(a))
    else if n <= Room(h.blocks, a) - 16 then (Resize(h, a, n), Returned(a))
    else if n <= Room(h.blocks, a) then (Swallow(h, a), Returned(a))
    else Move(h, limit, a, n)
  }

  /** A block that fits is on the free list. */
  lemma FitIsFree(h: Heap, n: int)
    requires WF(h)
    ensures forall i :: 0 <= i < |h.free| ==> h.free[i] in h.blocks
    ensures var a := FirstFit(h.blocks, h.free, n); a != NULL ==> a in h.free && IsFree(h.blocks, a) && n <= h.blocks[a].size
  {
    FreeAreBlocks(h);
    FirstFitExact(h.blocks, h.free, n);
  }

  /** The heap that mm_init leaves: one free block of CHUNKSIZE bytes. */
  function InitialHeap(): Heap {
    Heap(map[FIRST := Block(CHUNKSIZE, false)], [FIRST], FIRST + CHUNKSIZE)
  }
}
