/** Which block each call of lab7/mm.c touches, how large it becomes, and where the rest goes; and the words that memory holds. */
module HeapExact {
  import opened Prelude
  import opened Bytes
  import opened HeapModel
  import opened HeapMemory
  import opened HeapTheorems

  /** n is size and a header and footer, rounded up to a multiple of 8. */
  ghost predicate Rounds(size: nat, n: int) {
    n % 8 == 0 && size + 8 <= n <= size + 15
  }

  /** A block in the free block f of h ends where f ends; what is left of f stays free if it makes a block. */
  ghost predicate CutFrom(h: Heap, h': Heap, f: int, p: int, n: int) {
    IsFree(h.blocks, f) && IsLive(h'.blocks, p) && Next(h'.blocks, p) == Next(h.blocks, f)
    && if h.blocks[f].size - n >= 16 then
         h'.blocks[p].size == n && IsFree(h'.blocks, f) && h'.blocks[f].size == h.blocks[f].size - n && h'.free == h.free
       else p == f && f !in h'.free && OrderKept(h.free, h'.free)
  }

  lemma PlaceCuts(h: Heap, f: int, n: int)
    requires WF(h) && IsFree(h.blocks, f) && f in h.free && 16 <= n <= h.blocks[f].size && n % 8 == 0
    ensures var (h', p) := Place(h, f, n); CutFrom(h, h', f, p, n) && n <= h'.blocks[p].size < n + 16 && h'.brk == h.brk
  {
    hide Tiled, NoAdjacentFree, Remove, IndexOf, OrderKept;
    PlaceWF(h, f, n);
    RemoveOrder(h.free, f);
    RemoveExact(h.free, f);
  }

  /** mm_malloc: 448 counts as 512 and 112 as 128. The block is cut from the first of the list that fits, at its end; if none fits,
      from the end of the heap, grown by the larger of 4096 and the rounded size. */
  lemma MallocExact(h: Heap, limit: int, size: nat)
    requires WF(h) && size > 0
    ensures var asked := if size == 448 then 512 else if size == 112 then 128 else size;
      var (h', p) := Malloc(h, limit, size);
      p != NULL ==>
        exists n :: Rounds(asked, n) && IsLive(h'.blocks, p) && n <= h'.blocks[p].size < n + 16 && Chosen(h, h', p, n)
  {
    hide Tiled, NoAdjacentFree, FirstFit, Place, Extend, AlignedSize, CutFrom;
    var asked := AdjustedRequest(size);
    var n := AlignedSize(asked);
    AlignedSizeBounds(asked);
    NothingFits(h, n);
    FreeAreBlocks(h);
    FirstFitExact(h.blocks, h.free, n);
    MallocWF(h, limit, size);
    var f, more := FirstFit(h.blocks, h.free, n), Max(n, CHUNKSIZE);
    assert Rounds(asked, n);
    if f != NULL {
      PlaceCuts(h, f, n);
      var i :| 0 <= i < |h.free| && f == h.free[i] && forall j :: 0 <= j < i ==> h.blocks[h.free[j]].size < n;
      assert CutFrom(h, Malloc(h, limit, size).0, h.free[i], Malloc(h, limit, size).1, n);
      assert Chosen(h, Malloc(h, limit, size).0, Malloc(h, limit, size).1, n);
    } else if h.brk + more <= limit {
      ExtendWF(h, more);
      ExtendReaches(h, more);
      PlaceCuts(Extend(h, more), Extended(h), n);
      CutEnds(Extend(h, more), Malloc(h, limit, size).0, Extended(h), Malloc(h, limit, size).1, n);
      assert Chosen(h, Malloc(h, limit, size).0, Malloc(h, limit, size).1, n);
    }
  }

  /** p is cut from the first free block of n bytes, or from the end of a heap that has grown because there was none. */
  ghost predicate Chosen(h: Heap, h': Heap, p: int, n: int) {
    if forall b :: IsFree(h.blocks, b) ==> h.blocks[b].size < n then
      h'.brk == h.brk + (if n > 4096 then n else 4096) && p in h'.blocks && Next(h'.blocks, p) == h'.brk
    else
      h'.brk == h.brk
      && exists i :: 0 <= i < |h.free| && CutFrom(h, h', h.free[i], p, n) && n <= h.blocks[h.free[i]].size
           && forall j :: 0 <= j < i ==> h.free[j] in h.blocks && h.blocks[h.free[j]].size < n
  }

  lemma CutEnds(h: Heap, h': Heap, f: int, p: int, n: int)
    requires CutFrom(h, h', f, p, n)
    ensures IsLive(h'.blocks, p) && f in h.blocks && Next(h'.blocks, p) == Next(h.blocks, f)
  {
  }

  /** The grown block is the last of the heap; if it is a new one, it is the last of the list as well. */
  lemma ExtendReaches(h: Heap, n: int)
    requires WF(h) && n >= 16 && n % 8 == 0
    ensures var x := Extend(h, n);
      x.brk == h.brk + n && Extended(h) in x.blocks && Next(x.blocks, Extended(h)) == x.brk
      && if Extended(h) in h.blocks then x.free == h.free else x.free == h.free + [Extended(h)]
  {
    hide NoAdjacentFree, FreeListExact;
    BelowBrk(h.blocks, h.brk);
  }

  /** mm_realloc of a live block to a positive size, n being that size rounded: the block stays if and only if n fits its room; then it has
      n bytes, or less than 16 more, and the rest of its room is one free block behind it. */
  lemma ReallocExact(h: Heap, limit: int, a: int, size: nat)
    requires WF(h) && IsLive(h.blocks, a) && size > 0
    ensures var n, room := AlignedSize(size), Room(h.blocks, a);
      var (h', r) := Realloc(h, limit, a, size);
      Rounds(size, n)
      && (r == Returned(a) <==> n <= room)
      && (n <= room ==>
            h'.brk == h.brk && IsLive(h'.blocks, a) && n <= h'.blocks[a].size < n + 16
            && (if h'.blocks[a].size == room then !IsFree(h'.blocks, a + room)
                else IsFree(h'.blocks, a + h'.blocks[a].size) && h'.blocks[a + h'.blocks[a].size].size == room - h'.blocks[a].size)
            && forall x :: x in h.blocks && x != a && x != Next(h.blocks, a) ==> x in h'.blocks && h'.blocks[x] == h.blocks[x])
  {
    AlignedSizeBounds(size);
    RoomIsMore(h, a);
    var n := AlignedSize(size);
    if n <= h.blocks[a].size - 16 || h.blocks[a].size < n <= Room(h.blocks, a) - 16 {
      ResizeStays(h, a, n);
    } else if n <= h.blocks[a].size {
      StaysAsItIs(h, a);
    } else if n <= Room(h.blocks, a) {
      SwallowStays(h, a);
    } else {
      MoveWF(h, limit, a, n);
    }
    hide WF, AlignedSize, Resize, Swallow, Move, Malloc, Free;
  }

  lemma StaysAsItIs(h: Heap, a: int)
    requires WF(h) && IsLive(h.blocks, a)
    ensures var s, room := h.blocks[a].size, Room(h.blocks, a);
      if s == room then !IsFree(h.blocks, a + room) else IsFree(h.blocks, a + s) && h.blocks[a + s].size == room - s
  {
    if IsFree(h.blocks, Next(h.blocks, a)) { BlockIsGood(h.blocks, h.brk, Next(h.blocks, a)); }
  }

  lemma ResizeStays(h: Heap, a: int, n: int)
    requires WF(h) && IsLive(h.blocks, a) && 16 <= n <= Room(h.blocks, a) - 16 && n % 8 == 0
    ensures var h' := Resize(h, a, n);
      h'.brk == h.brk && IsLive(h'.blocks, a) && h'.blocks[a].size == n && IsFree(h'.blocks, a + n)
      && h'.blocks[a + n].size == Room(h.blocks, a) - n
      && forall x :: x in h.blocks && x != a && x != Next(h.blocks, a) ==> x in h'.blocks && h'.blocks[x] == h.blocks[x]
  {
    ResizeChanges(h, a, n);
    ResizeKeeps(h, a, n);
  }

  lemma ResizeKeeps(h: Heap, a: int, n: int)
    requires WF(h) && IsLive(h.blocks, a) && 16 <= n <= Room(h.blocks, a) - 16 && n % 8 == 0
    ensures var bs, bs' := h.blocks, Resize(h, a, n).blocks;
      forall x :: x in bs && x != a && x != Next(bs, a) ==> x in bs' && bs'[x] == bs[x]
  {
    ResizeTiled(h, a, n);
    BlockIsGood(h.blocks, h.brk, a);
    if IsFree(h.blocks, Next(h.blocks, a)) { BlockIsGood(h.blocks, h.brk, Next(h.blocks, a)); }
  }

  lemma SwallowStays(h: Heap, a: int)
    requires WF(h) && IsLive(h.blocks, a) && IsFree(h.blocks, Next(h.blocks, a))
    ensures var h' := Swallow(h, a);
      h'.brk == h.brk && IsLive(h'.blocks, a) && h'.blocks[a].size == Room(h.blocks, a) && !IsFree(h'.blocks, a + Room(h.blocks, a))
      && forall x :: x in h.blocks && x != a && x != Next(h.blocks, a) ==> x in h'.blocks && h'.blocks[x] == h.blocks[x]
  {
    BlockIsGood(h.blocks, h.brk, Next(h.blocks, a));
    assert Next(h.blocks, Next(h.blocks, a)) == a + Room(h.blocks, a);
  }

  /** mm_realloc to size 0 is mm_free and returns the old pointer; of NULL it is mm_malloc of the rounded size. */
  lemma ReallocEdges(h: Heap, limit: int, a: int, size: nat)
    requires WF(h) && (a == NULL || IsLive(h.blocks, a))
    ensures a != NULL && size == 0 ==> Realloc(h, limit, a, size) == (Free(h, a), Returned(a))
    ensures a == NULL && size > 0 ==>
      exists n: nat :: Rounds(size, n) && Realloc(h, limit, a, size) == (Malloc(h, limit, n).0, Returned(Malloc(h, limit, n).1))
  {
    AlignedSizeBounds(size);
    var n: nat := AlignedSize(size);
    assert Rounds(size, n);
    hide WF, AlignedSize, Resize, Swallow, Move, Malloc, Free;
  }

  // ---------- the order of the free list ----------

  /** Blocks on both lists stand in the same order. */
  ghost predicate OrderKept(l: seq<int>, l': seq<int>) {
    forall i, j :: 0 <= i < j < |l'| && l'[i] in l && l'[j] in l ==> IndexOf(l, l'[i]) < IndexOf(l, l'[j])
  }

  lemma IndexIs(l: seq<int>, i: nat)
    requires Distinct(l) && i < |l|
    ensures IndexOf(l, l[i]) == i
  {
    var j := IndexOf(l, l[i]);
    assert l[j] == l[i];
  }

  lemma RemoveOrder(l: seq<int>, x: int)
    requires Distinct(l) && x in l
    ensures OrderKept(l, Remove(l, x))
  {
    var l', k := Remove(l, x), IndexOf(l, x);
    forall i | 0 <= i < |l'| ensures l'[i] in l && IndexOf(l, l'[i]) == if i < k then i else i + 1 {
      IndexIs(l, if i < k then i else i + 1);
    }
  }

  lemma ReplaceOrder(l: seq<int>, x: int, y: int)
    requires Distinct(l) && x in l && y !in l
    ensures OrderKept(l, Replace(l, x, y)) && y in Replace(l, x, y) && IndexOf(Replace(l, x, y), y) == IndexOf(l, x)
  {
    var l', k := Replace(l, x, y), IndexOf(l, x);
    assert l'[k] == y;
    forall i | 0 <= i < |l'| && i != k ensures IndexOf(l, l'[i]) == i { IndexIs(l, i); }
    ReplaceExact(l, x, y);
    IndexIs(l', k);
  }

  lemma AppendOrder(l: seq<int>, y: int)
    requires Distinct(l) && y !in l
    ensures OrderKept(l, l + [y]) && y in l + [y] && IndexOf(l + [y], y) == |l|
  {
    forall i | 0 <= i < |l| ensures IndexOf(l, (l + [y])[i]) == i { IndexIs(l, i); }
    assert (l + [y])[|l|] == y;
    IndexIs(l + [y], |l|);
  }

  /** mm_free keeps the order of the list. A block freed between live ones comes last; with a free block behind it, it takes that block's
      place; with one in front, that one keeps its place. */
  lemma FreeOrder(h: Heap, a: int)
    requires WF(h) && IsLive(h.blocks, a)
    ensures var l, l', next := h.free, Free(h, a).free, Next(h.blocks, a);
      OrderKept(l, l')
      && (if FIRST < a && IsFree(h.blocks, Prev(h, a)) then Prev(h, a) in l'
          else a in l' && IndexOf(l', a) == if IsFree(h.blocks, next) && next in l then IndexOf(l, next) else |l|)
  {
    hide Tiled, NoAdjacentFree, Remove, Replace, IndexOf, Prev, PrevFrom;
    var l, next := h.free, Next(h.blocks, a);
    Around(h, a);
    if IsFree(h.blocks, next) {
      RemoveOrder(l, next);
      ReplaceOrder(l, next, a);
      RemoveExact(l, next);
    } else {
      AppendOrder(l, a);
      SelfOrder(l);
    }
  }

  lemma SelfOrder(l: seq<int>)
    requires Distinct(l)
    ensures OrderKept(l, l)
  {
    forall i | 0 <= i < |l| ensures IndexOf(l, l[i]) == i { IndexIs(l, i); }
  }

  // ---------- the words in memory ----------

  /** The word at p, least significant byte first. */
  lemma WordBytes(m: seq<Byte>, p: int)
    requires 0 <= p <= |m| - 4
    ensures Word(m, p) == (m[p] as int) + 0x100 * (m[p + 1] as int) + 0x1_0000 * (m[p + 2] as int) + 0x100_0000 * (m[p + 3] as int)
  {
    var w := m[p..p + 4];
    assert FromBytes(w) == w[0] + 256 * FromBytes(w[1..]);
    assert FromBytes(w[1..]) == w[1] + 256 * FromBytes(w[1..][1..]) && w[1..][1..] == w[2..];
    assert FromBytes(w[2..]) == w[2] + 256 * FromBytes(w[2..][1..]) && w[2..][1..] == [w[3]];
    assert FromBytes([w[3]]) == w[3] + 256 * FromBytes([w[3]][1..]);
  }

  /** Header and footer hold the size, plus 1 if the block is allocated. */
  lemma TagWords(m: seq<Byte>, h: Heap, p: int)
    requires Rep(m, h) && p in h.blocks
    ensures var s := h.blocks[p].size;
      16 <= p && 16 <= s && p + s <= h.brk <= |m|
      && Word(m, p - 4) == s + (if h.blocks[p].used then 1 else 0) && Word(m, p + s - 8) == s + (if h.blocks[p].used then 1 else 0)
  {
    hide Word, Links;
    BlockIsGood(h.blocks, h.brk, p);
    assert TagsAt(m, h.blocks, p);
  }

  /** A free payload starts with the offsets from 8 of the previous and the next block of the list, or 0. */
  lemma LinkWords(m: seq<Byte>, h: Heap, i: nat)
    requires Rep(m, h) && i < |h.free|
    ensures 16 <= h.free[i] <= |m| - 8
    ensures Word(m, h.free[i]) == (if i == 0 then 0 else h.free[i - 1] - 8)
    ensures Word(m, h.free[i] + 4) == (if i == |h.free| - 1 then 0 else h.free[i + 1] - 8)
  {
    hide Word, TagRep;
    assert LinksAt(m, h.free, i);
    FreeAreBlocks(h);
  }

  /** Prologue and epilogue are allocated blocks of 8 bytes and of none. */
  lemma EndWords(m: seq<Byte>, h: Heap)
    requires Rep(m, h)
    ensures 16 <= h.brk <= |m| && Word(m, 4) == 9 && Word(m, 8) == 9 && Word(m, h.brk - 4) == 1
  {
    hide Word;
  }
}
