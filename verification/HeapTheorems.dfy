/** What the allocator promises its clients, over every sequence of calls. */
module HeapTheorems {
  import opened Prelude
  import opened Bytes
  import opened HeapModel
  import opened HeapMemory

  // ---------- runs ----------

  datatype Call = MallocCall(size: nat) | FreeCall(p: int) | ReallocCall(p: int, size: nat)

  /** Clients free and resize only live blocks; realloc also takes NULL. */
  predicate Legal(h: Heap, c: Call) {
    match c
    case MallocCall(_) => true
    case FreeCall(p) => IsLive(h.blocks, p)
    case ReallocCall(p, _) => p == NULL || IsLive(h.blocks, p)
  }

  ghost function After(h: Heap, limit: int, c: Call): Heap
    requires WF(h) && Legal(h, c)
  {
    match c
    case MallocCall(size) => Malloc(h, limit, size).0
    case FreeCall(p) => Free(h, p)
    case ReallocCall(p, size) => Realloc(h, limit, p, size).0
  }

  /** mm_malloc cannot serve size: no free block fits the rounded request and the heap cannot grow by enough. */
  ghost predicate NoRoom(h: Heap, limit: int, size: nat) {
    var n := AlignedSize(AdjustedRequest(size));
    (forall b :: IsFree(h.blocks, b) ==> h.blocks[b].size < n) && h.brk + Max(n, CHUNKSIZE) > limit
  }

  /** mm_realloc of a to size follows a null pointer: NULL to size 0, or a block that must move and cannot. */
  ghost predicate ReallocFaults(h: Heap, limit: int, a: int, size: nat)
    requires WF(h) && (a == NULL || IsLive(h.blocks, a))
  {
    if a == NULL then size == 0
    else size > 0 && Room(h.blocks, a) < AlignedSize(size) && NoRoom(h, limit, AlignedSize(size))
  }

  ghost predicate Faults(h: Heap, limit: int, c: Call)
    requires WF(h) && Legal(h, c)
  {
    c.ReallocCall? && ReallocFaults(h, limit, c.p, c.size)
  }

  /** All these calls return, and lead from h to h'. */
  ghost predicate Reaches(h: Heap, limit: int, calls: seq<Call>, h': Heap)
    requires WF(h)
    decreases calls
  {
    if calls == [] then h' == h
    else
      Legal(h, calls[0]) && !Faults(h, limit, calls[0])
      && (AfterWF(h, limit, calls[0]); Reaches(After(h, limit, calls[0]), limit, calls[1..], h'))
  }

  /** Every call is legal when its turn comes, up to one that follows a null pointer. */
  ghost predicate LegalRun(h: Heap, limit: int, calls: seq<Call>)
    requires WF(h)
    decreases calls
  {
    calls != [] ==>
      Legal(h, calls[0])
      && (Faults(h, limit, calls[0]) || (AfterWF(h, limit, calls[0]); LegalRun(After(h, limit, calls[0]), limit, calls[1..])))
  }

  /** The result of a call, when it returns one. */
  ghost function Result(h: Heap, limit: int, c: Call): Outcome
    requires WF(h) && Legal(h, c)
  {
    match c
    case MallocCall(size) => Returned(Malloc(h, limit, size).1)
    case FreeCall(p) => Returned(NULL)
    case ReallocCall(p, size) => Realloc(h, limit, p, size).1
  }

  /** Every live block the call is not about stays where it is, with its size. */
  ghost predicate KeepsOthers(h: Heap, h': Heap, c: Call) {
    forall x :: IsLive(h.blocks, x) && (c.MallocCall? || x != c.p) ==> IsLive(h'.blocks, x) && h'.blocks[x] == h.blocks[x]
  }

  /** p is live with room for size bytes; if it is not a, a is no longer live. */
  ghost predicate Serves(h: Heap, a: int, size: nat, p: int) {
    IsLive(h.blocks, p) && size <= h.blocks[p].size - DSIZE && (a != NULL && p != a ==> !IsLive(h.blocks, a))
  }

  lemma MoveWF(h: Heap, limit: int, a: int, n: int)
    requires WF(h) && IsLive(h.blocks, a) && n >= 0
    ensures var (h', r) := Move(h, limit, a, n);
      WF(h') && KeepsOthers(h, h', ReallocCall(a, n))
      && (if r == Fault then h' == h
          else IsLive(h'.blocks, r.p) && n + DSIZE <= h'.blocks[r.p].size && !IsLive(h.blocks, r.p) && !IsLive(h'.blocks, a))
  {
    MallocWF(h, limit, n);
    var (h1, p) := Malloc(h, limit, n);
    if p != NULL {
      FreeWF(h1, a);
      FreeChanges(h1, a);
    }
  }

  /** The null pointer is followed exactly then. */
  lemma ReallocFaultsExactly(h: Heap, limit: int, a: int, size: nat)
    requires WF(h) && (a == NULL || IsLive(h.blocks, a))
    ensures Realloc(h, limit, a, size).1 == Fault <==> ReallocFaults(h, limit, a, size)
  {
    AlignedSizeBounds(size);
    if a != NULL && size > 0 {
      RoomIsMore(h, a);
      MallocFailsExactly(h, limit, AlignedSize(size));
    }
    hide WF, Malloc, Free, AlignedSize, Resize, Swallow, NoRoom;
  }

  /** The first kind of fault needs nothing but the call. */
  lemma NullToNothingFaults(h: Heap, limit: int)
    requires WF(h)
    ensures Faults(h, limit, ReallocCall(NULL, 0)) && Realloc(h, limit, NULL, 0).1 == Fault
  {
  }

  /** The second is reached by filling the smallest heap with one block and asking for more. */
  lemma FullHeapFaults()
    ensures WF(InitialHeap())
    ensures exists h ::
      Reaches(InitialHeap(), FIRST + CHUNKSIZE, [MallocCall(CHUNKSIZE - DSIZE)], h) && WF(h) && IsLive(h.blocks, FIRST)
      && Faults(h, FIRST + CHUNKSIZE, ReallocCall(FIRST, CHUNKSIZE)) && Realloc(h, FIRST + CHUNKSIZE, FIRST, CHUNKSIZE).1 == Fault
  {
    InitialWF();
    var h0, limit, c := InitialHeap(), FIRST + CHUNKSIZE, MallocCall(CHUNKSIZE - DSIZE);
    AfterWF(h0, limit, c);
    var h := After(h0, limit, c);
    assert FirstFit(h0.blocks, h0.free, CHUNKSIZE) == FIRST;
    assert h == Place(h0, FIRST, CHUNKSIZE).0;
    assert h.blocks == map[FIRST := Block(CHUNKSIZE, true)] && h.brk == limit;
    assert [c][1..] == [];
    assert Reaches(h0, limit, [c], h);
    hide WF, Reaches;
    assert NoRoom(h, limit, AlignedSize(CHUNKSIZE));
    ReallocFaultsExactly(h, limit, FIRST, CHUNKSIZE);
  }

  /** Otherwise the heap stays well formed, other blocks stay, and a positive size that can be served gets a live block with that capacity. */
  lemma ReallocWF(h: Heap, limit: int, a: int, size: nat)
    requires WF(h) && (a == NULL || IsLive(h.blocks, a))
    ensures var (h', r) := Realloc(h, limit, a, size);
      WF(h') && KeepsOthers(h, h', ReallocCall(a, size))
      && if ReallocFaults(h, limit, a, size) then h' == h
         else if a == NULL && NoRoom(h, limit, AlignedSize(size)) then h' == h && r == Returned(NULL)
         else r.Returned? && if size == 0 then !IsLive(h'.blocks, a) else Serves(h', a, size, r.p)
  {
    AlignedSizeBounds(size);
    ReallocFaultsExactly(h, limit, a, size);
    hide WF, Malloc, Free, AlignedSize, Move, Resize, Swallow, NoRoom, ReallocFaults;
    var n := AlignedSize(size);
    if a == NULL {
      MallocWF(h, limit, n);
      MallocFailsExactly(h, limit, n);
    } else if size == 0 {
      FreeWF(h, a);
      FreeChanges(h, a);
    } else {
      RoomIsMore(h, a);
      if n <= h.blocks[a].size - 16 || h.blocks[a].size < n <= Room(h.blocks, a) - 16 {
        ResizeWF(h, a, n);
        ResizeChanges(h, a, n);
      } else if h.blocks[a].size < n <= Room(h.blocks, a) {
        SwallowKeeps(h, a);
      } else if h.blocks[a].size < n {
        MoveWF(h, limit, a, n);
      }
    }
  }

  lemma RoomIsMore(h: Heap, a: int)
    requires WF(h) && a in h.blocks
    ensures h.blocks[a].size <= Room(h.blocks, a)
    ensures FIRST <= a && 16 <= h.blocks[a].size
  {
    assert GoodBlock(h.blocks, h.brk, a);
    if IsFree(h.blocks, Next(h.blocks, a)) { assert GoodBlock(h.blocks, h.brk, Next(h.blocks, a)); }
  }

  lemma SwallowKeeps(h: Heap, a: int)
    requires WF(h) && IsLive(h.blocks, a) && IsFree(h.blocks, Next(h.blocks, a))
    ensures WF(Swallow(h, a)) && KeepsOthers(h, Swallow(h, a), ReallocCall(a, 0))
    ensures IsLive(Swallow(h, a).blocks, a) && Swallow(h, a).blocks[a].size == Room(h.blocks, a)
  {
    SwallowWF(h, a);
    assert GoodBlock(h.blocks, h.brk, a) && GoodBlock(h.blocks, h.brk, Next(h.blocks, a));
  }

  /** One call keeps the heap well formed and leaves every other live block alone. */
  lemma AfterWF(h: Heap, limit: int, c: Call)
    requires WF(h) && Legal(h, c)
    ensures WF(After(h, limit, c)) && KeepsOthers(h, After(h, limit, c), c)
  {
    hide WF;
    match c {
      case MallocCall(size) => MallocWF(h, limit, size);
      case FreeCall(p) =>
        FreeWF(h, p);
        FreeChanges(h, p);
      case ReallocCall(p, size) => ReallocWF(h, limit, p, size);
    }
  }

  lemma InitialWF()
    ensures WF(InitialHeap())
  {
  }

  /** Safety over whole runs: every heap reached from the initial one is well formed and holds payloads that are
      aligned, inside the heap and pairwise disjoint. */
  lemma {:induction false} EveryRunIsSafe(h: Heap, limit: int, calls: seq<Call>, h': Heap)
    requires WF(h) && Reaches(h, limit, calls, h')
    ensures WF(h')
    ensures forall a :: IsLive(h'.blocks, a) ==> a % 8 == 0 && FIRST <= a < Next(h'.blocks, a) - DSIZE <= h'.brk - DSIZE
    ensures forall a, b :: IsLive(h'.blocks, a) && IsLive(h'.blocks, b) && a != b ==>
      Apart(a, h'.blocks[a].size - DSIZE, b, h'.blocks[b].size - DSIZE)
    decreases calls
  {
    if calls == [] {
      forall a | IsLive(h'.blocks, a) ensures a % 8 == 0 && FIRST <= a < Next(h'.blocks, a) - DSIZE <= h'.brk - DSIZE {
        assert GoodBlock(h'.blocks, h'.brk, a);
      }
    } else {
      AfterWF(h, limit, calls[0]);
      EveryRunIsSafe(After(h, limit, calls[0]), limit, calls[1..], h');
    }
  }

  // ---------- when allocation fails ----------

  lemma NothingFits(h: Heap, n: int)
    requires WF(h)
    ensures forall i :: 0 <= i < |h.free| ==> h.free[i] in h.blocks
    ensures FirstFit(h.blocks, h.free, n) == NULL <==> forall b :: IsFree(h.blocks, b) ==> h.blocks[b].size < n
    ensures var a := FirstFit(h.blocks, h.free, n); a != NULL ==> IsFree(h.blocks, a) && n <= h.blocks[a].size && FIRST <= a
  {
    FreeAreBlocks(h);
    FirstFitExact(h.blocks, h.free, n);
    hide FirstFit, Tiled, NoAdjacentFree;
    forall i | 0 <= i < |h.free| ensures h.free[i] in h.free {}
  }

  /** mm_malloc returns NULL exactly for size 0, or when nothing fits and the heap cannot grow enough. */
  lemma MallocFailsExactly(h: Heap, limit: int, size: nat)
    requires WF(h)
    ensures Malloc(h, limit, size).1 == NULL <==> size == 0 || NoRoom(h, limit, size)
  {
    hide Tiled, NoAdjacentFree, FreeListExact, FirstFit, Place, Extend, AlignedSize;
    var n := AlignedSize(AdjustedRequest(size));
    var more := Max(n, CHUNKSIZE);
    MallocWF(h, limit, size);
    NothingFits(h, n);
    if size > 0 {
      AlignedSizeBounds(AdjustedRequest(size));
      var a := FirstFit(h.blocks, h.free, n);
      if a != NULL {
        PlaceAllocates(h, a, n);
      } else if h.brk + more <= limit {
        ExtendWF(h, more);
        PlaceAllocates(Extend(h, more), Extended(h), n);
      }
    }
  }

  // ---------- free undoes malloc ----------

  /** Freeing a block just placed gives back the same tiling; the list too, if the block was cut off a tail. */
  lemma FreeUndoesPlace(h: Heap, a: int, n: int)
    requires WF(h) && IsFree(h.blocks, a) && 16 <= n <= h.blocks[a].size && n % 8 == 0
    ensures a in h.free && WF(Place(h, a, n).0) && IsLive(Place(h, a, n).0.blocks, Place(h, a, n).1)
    ensures var (h1, p) := Place(h, a, n);
      Free(h1, p).blocks == h.blocks && Free(h1, p).brk == h.brk
      && Free(h1, p).free == if h.blocks[a].size - n >= 16 then h.free else Remove(h.free, a) + [a]
  {
    PlaceWF(h, a, n);
    var (h1, p) := Place(h, a, n);
    var bs, bs1 := h.blocks, h1.blocks;
    assert GoodBlock(bs, h.brk, a);
    Around(h1, p);
    if h.blocks[a].size - n >= 16 {
      assert Next(bs1, p) == Next(bs, a) && Next(bs1, a) == p;
      assert Prev(h1, p) == a;
    } else {
      assert Next(bs1, p) == Next(bs, a);
      if FIRST < a {
        Around(h, a);
        assert Next(bs, Prev(h1, p)) == a;
      }
    }
  }

  // ---------- conservation ----------

  /** Total size of the blocks from p on whose header says alloc, as the tags in memory tell it. */
  ghost function TagSum(m: seq<Byte>, p: int, brk: int, alloc: int): int
    requires WSIZE <= p && brk <= |m|
    decreases brk - p
  {
    if p >= brk then 0
    else
      var s := SizeOf(Word(m, p - WSIZE));
      if s <= 0 then 0 else (if AllocOf(Word(m, p - WSIZE)) == alloc then s else 0) + TagSum(m, p + s, brk, alloc)
  }

  /** The payload addresses that walking the tags from p visits. */
  ghost function TagWalk(m: seq<Byte>, p: int, brk: int): seq<int>
    requires WSIZE <= p && brk <= |m|
    decreases brk - p
  {
    if p >= brk then []
    else
      var s := SizeOf(Word(m, p - WSIZE));
      if s <= 0 then [] else [p] + TagWalk(m, p + s, brk)
  }

  /** Where walking the tags from p comes to a stop: at brk or at a header of size 0. */
  ghost function WalkEnd(m: seq<Byte>, p: int, brk: int): int
    requires WSIZE <= p && brk <= |m|
    decreases brk - p
  {
    if p >= brk || SizeOf(Word(m, p - WSIZE)) <= 0 then p else WalkEnd(m, p + SizeOf(Word(m, p - WSIZE)), brk)
  }

  /** One step of the walk: the header leads to the next block, with nothing in between. */
  lemma WalkStep(m: seq<Byte>, h: Heap, p: int)
    requires Rep(m, h) && p in h.blocks
    ensures FIRST <= p < Next(h.blocks, p) <= h.brk <= |m| && (Next(h.blocks, p) in h.blocks || Next(h.blocks, p) == h.brk)
    ensures SizeOf(Word(m, p - WSIZE)) == h.blocks[p].size && AllocOf(Word(m, p - WSIZE)) == if h.blocks[p].used then 1 else 0
    ensures forall x :: x in h.blocks && p < x ==> Next(h.blocks, p) <= x
  {
    hide Word, Links;
    ReadTags(m, h.blocks, h.brk, p);
    assert GoodBlock(h.blocks, h.brk, p);
  }

  /** The tag walk visits exactly the blocks, in address order, and ends exactly at brk, behind the epilogue header. */
  lemma {:induction false} WalkIsExact(m: seq<Byte>, h: Heap, p: int)
    requires Rep(m, h) && FIRST <= p && (p in h.blocks || p == h.brk)
    ensures p <= h.brk <= |m|
    ensures forall x :: x in TagWalk(m, p, h.brk) <==> x in h.blocks && p <= x
    ensures WalkEnd(m, p, h.brk) == h.brk && Word(m, h.brk - WSIZE) == Pack(0, 1)
    ensures forall i, j :: 0 <= i < j < |TagWalk(m, p, h.brk)| ==> TagWalk(m, p, h.brk)[i] < TagWalk(m, p, h.brk)[j]
    decreases h.brk - p
  {
    BelowBrk(h.blocks, h.brk);
    if p in h.blocks {
      WalkStep(m, h, p);
      hide Word, Rep;
      var n := Next(h.blocks, p);
      WalkIsExact(m, h, n);
      var w := TagWalk(m, n, h.brk);
      assert TagWalk(m, p, h.brk) == [p] + w;
      assert forall i :: 0 <= i < |w| ==> w[i] in w;
    }
  }

  /** The sizes the walk reads account for every byte. */
  lemma {:induction false} WalkTelescopes(m: seq<Byte>, h: Heap, p: int)
    requires Rep(m, h) && FIRST <= p && (p in h.blocks || p == h.brk)
    ensures p <= h.brk <= |m| && TagSum(m, p, h.brk, 1) + TagSum(m, p, h.brk, 0) == h.brk - p
    decreases h.brk - p
  {
    BelowBrk(h.blocks, h.brk);
    if p in h.blocks {
      WalkStep(m, h, p);
      hide Word, Rep;
      WalkTelescopes(m, h, Next(h.blocks, p));
    }
  }

  /** Allocated plus free bytes are the heap without prologue and epilogue. */
  lemma Conservation(m: seq<Byte>, h: Heap)
    requires Rep(m, h)
    ensures TagSum(m, FIRST, h.brk, 1) + TagSum(m, FIRST, h.brk, 0) == h.brk - 16
  {
    WalkTelescopes(m, h, FIRST);
  }

  /** With every block freed, one free block is the whole heap. */
  lemma AllFreedIsOneBlock(h: Heap)
    requires WF(h) && FIRST < h.brk && forall a :: !IsLive(h.blocks, a)
    ensures h.blocks == map[FIRST := Block(h.brk - 16, false)] && h.free == [FIRST]
  {
    var bs := h.blocks;
    var e := Next(bs, FIRST);
    assert forall a :: a in bs && FIRST < a ==> e <= a;
    assert GoodBlock(bs, h.brk, FIRST) && !IsLive(bs, FIRST) && !IsLive(bs, e);
    BelowBrk(bs, h.brk);
    assert forall a :: a in bs ==> a == FIRST;
    assert FIRST in h.free;
    assert |h.free| >= 2 ==> h.free[0] != h.free[1];
    forall i | 0 <= i < |h.free| ensures h.free[i] == FIRST { assert h.free[i] in h.free; }
  }
}
