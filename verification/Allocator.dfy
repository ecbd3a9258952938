/**
 * The allocator of lab7/mm.c over the heap of lab7/memlib.c, byte for byte: tags and links are 32-bit words
 * written in place, in the order in which the C code writes them.
 *
 * The ghost field h is the heap that memory represents. Every operation is proved to turn it into
 * what the same operation of HeapModel makes of it, and to leave live payloads alone.
 */
module MemoryAllocator {
  import opened Prelude
  import opened Bytes
  import opened HeapModel
  import opened HeapMemory

  /** The largest request whose rounded size still fits a C int. */
  const MAX_REQUEST := 0x7fff_fff0

  class Allocator {
    const mem: array<Byte>
    var brk: int
    var heapListp: int
    var hdFree: int
    var ftFree: int
    ghost var h: Heap

    function Get(p: int): nat
      requires 0 <= p <= mem.Length - WSIZE
      reads mem
    {
      Word(mem[..], p)
    }

    method Put(p: int, v: int)
      requires 0 <= p <= mem.Length - WSIZE && 0 <= v < WORD_LIMIT
      modifies mem
      ensures Word(mem[..], p) == v
      ensures OnlyAt(old(mem[..]), mem[..], p, WSIZE)
    {
      mem[p], mem[p + 1], mem[p + 2], mem[p + 3] := v % 256, v / 256 % 256, v / 65536 % 256, v / 16777216 % 256;
      FourBytes(v);
      assert mem[..][p..p + WSIZE] == ToBytes(v, WSIZE);
      WordOfBytes(mem[..], p, v);
      OnlyAtWords(old(mem[..]), mem[..], p, WSIZE);
    }

    /** Copy n bytes between ranges that do not overlap. */
    method Memcpy(dst: int, src: int, n: int)
      requires 0 <= n && 0 <= src <= mem.Length - n && 0 <= dst <= mem.Length - n && Apart(src, n, dst, n)
      modifies mem
      ensures mem[..][dst..dst + n] == old(mem[..])[src..src + n]
      ensures OnlyAt(old(mem[..]), mem[..], dst, n)
    {
      for i := 0 to n
        invariant forall k :: dst <= k < dst + i ==> mem[k] == old(mem[k - dst + src])
        invariant forall k :: 0 <= k < mem.Length && Apart(k, 1, dst, i) ==> mem[k] == old(mem[k])
      {
        mem[dst + i] := mem[src + i];
      }
      OnlyAtWords(old(mem[..]), mem[..], dst, n);
    }

    // ---------- list operations ----------

    ghost predicate HeadTail(fl: seq<int>)
      reads this
    {
      heapListp == 8 && hdFree == Entry(fl, 0, NULL) && ftFree == Entry(fl, |fl| - 1, NULL)
    }

    /** fl is exactly the doubly linked list from hd_free to ft_free. */
    ghost predicate Linked(fl: seq<int>)
      reads this, mem
    {
      HeadTail(fl) && Links(mem[..], fl)
    }

    function SelfIndex(p: int): int
      reads this
    {
      p - heapListp
    }

    method InsertFreeBlock(bp: int, ghost fl: seq<int>)
      requires Linked(fl) && Cells(fl + [bp], mem.Length)
      modifies mem, `hdFree, `ftFree
      ensures Linked(fl + [bp])
      ensures OnlyCells(old(mem[..]), mem[..], bp, NOWHERE, Entry(fl, |fl| - 1, NOWHERE))
    {
      hide Word;
      ghost var m0, l := mem[..], Entry(fl, |fl| - 1, NOWHERE);
      assert (fl + [bp])[|fl|] == bp && (fl != [] ==> (fl + [bp])[|fl| - 1] == l);
      assert fl == [] ==> l == NOWHERE;
      if hdFree == NULL {
        assert fl == [];
        Put(bp + WSIZE, 0);
        Put(bp, 0);
        hdFree := bp;
        ftFree := bp;
      } else {
        assert ftFree == l && Apart(l, DSIZE, bp, DSIZE);
        Put(ftFree + WSIZE, SelfIndex(bp));
        Put(bp, SelfIndex(ftFree));
        Put(bp + WSIZE, 0);
        ftFree := bp;
      }
      InsertedLinks(m0, mem[..], fl, bp);
    }

    method PrevFreeBlock(bp: int) returns (r: int)
      requires 0 <= bp <= mem.Length - WSIZE && heapListp == 8
      ensures r == if Word(mem[..], bp) == 0 then NULL else Word(mem[..], bp) + 8
    {
      if Get(bp) == 0 { return NULL; }
      return Get(bp) + heapListp;
    }

    method NextFreeBlock(bp: int) returns (r: int)
      requires 0 <= bp <= mem.Length - DSIZE && heapListp == 8
      ensures r == if Word(mem[..], bp + WSIZE) == 0 then NULL else Word(mem[..], bp + WSIZE) + 8
    {
      if Get(bp + WSIZE) == 0 { return NULL; }
      return Get(bp + WSIZE) + heapListp;
    }

    /** newBp takes the place of oldBp, entry i of the list. */
    method ReplaceFreeBlock(oldBp: int, newBp: int, ghost fl: seq<int>, ghost i: nat)
      requires Linked(fl) && i < |fl| && fl[i] == oldBp && Cells(fl[i := newBp], mem.Length)
      requires Apart(newBp, DSIZE, oldBp, DSIZE)
      modifies mem, `hdFree, `ftFree
      ensures Linked(fl[i := newBp])
      ensures OnlyCells(old(mem[..]), mem[..], newBp, Entry(fl, i - 1, NOWHERE), Entry(fl, i + 1, NOWHERE))
    {
      hide Word, Links, LinksAt, Cells, OnlyCells;
      ghost var m0 := mem[..];
      AroundEntry(m0, fl, i, newBp);
      PointFromPrev(oldBp, newBp, fl, i);
      ghost var m1 := mem[..];
      PointFromNext(oldBp, newBp, fl, i);
      ghost var m2 := mem[..];
      CopyCell(newBp, oldBp);
      ThreeWrites(m0, m1, m2, mem[..], newBp, Entry(fl, i - 1, NOWHERE), Entry(fl, i + 1, NOWHERE));
      ReplacedLinks(m0, mem[..], fl, i, newBp);
    }

    /** The predecessor of entry i, or the head, is pointed to newBp. */
    method PointFromPrev(oldBp: int, newBp: int, ghost fl: seq<int>, ghost i: nat)
      requires Linked(fl) && i < |fl| && fl[i] == oldBp && Cells(fl[i := newBp], mem.Length)
      modifies mem, `hdFree
      ensures hdFree == Entry(fl[i := newBp], 0, NULL)
      ensures OnlyAt(old(mem[..]), mem[..], Entry(fl, i - 1, NOWHERE) + WSIZE, WSIZE)
      ensures i > 0 ==> Word(mem[..], fl[i - 1] + WSIZE) == Link(newBp)
    {
      hide Word, Links, LinksAt, Cells;
      AroundEntry(mem[..], fl, i, newBp);
      if hdFree == oldBp {
        hdFree := newBp;
      } else {
        var prev := Get(oldBp) + heapListp;
        Put(prev + WSIZE, SelfIndex(newBp));
      }
    }

    /** The successor of entry i, or the tail, is pointed to newBp. */
    method PointFromNext(oldBp: int, newBp: int, ghost fl: seq<int>, ghost i: nat)
      requires heapListp == 8 && ftFree == Entry(fl, |fl| - 1, NULL) && i < |fl| && fl[i] == oldBp && mem.Length < 0x8000_0000
      requires FIRST <= oldBp <= mem.Length - DSIZE && FIRST <= newBp <= mem.Length - DSIZE
      requires Word(mem[..], oldBp + WSIZE) == Link(Entry(fl, i + 1, NULL))
      requires i < |fl| - 1 ==> FIRST <= fl[i + 1] <= mem.Length - DSIZE && fl[|fl| - 1] != oldBp
      modifies mem, `ftFree
      ensures ftFree == Entry(fl[i := newBp], |fl| - 1, NULL)
      ensures OnlyAt(old(mem[..]), mem[..], Entry(fl, i + 1, NOWHERE), WSIZE)
      ensures i < |fl| - 1 ==> Word(mem[..], fl[i + 1]) == Link(newBp)
    {
      hide Word;
      if ftFree == oldBp {
        ftFree := newBp;
      } else {
        var next := Get(oldBp + WSIZE) + heapListp;
        Put(next, SelfIndex(newBp));
      }
    }

    /** Copy both link words. */
    method CopyCell(dst: int, src: int)
      requires 0 <= src <= mem.Length - DSIZE && 0 <= dst <= mem.Length - DSIZE && Apart(src, DSIZE, dst, DSIZE)
      modifies mem
      ensures Word(mem[..], dst) == Word(old(mem[..]), src) && Word(mem[..], dst + WSIZE) == Word(old(mem[..]), src + WSIZE)
      ensures OnlyAt(old(mem[..]), mem[..], dst, DSIZE)
    {
      ghost var m0 := mem[..];
      Memcpy(dst, src, DSIZE);
      ghost var m1 := mem[..];
      CellHalves(m1, dst);
      CellHalves(m0, src);
    }

    /** Unlink bp, entry i of the list. */
    method RemoveFreeBlock(bp: int, ghost fl: seq<int>, ghost i: nat)
      requires Linked(fl) && i < |fl| && fl[i] == bp
      modifies mem, `hdFree, `ftFree
      ensures Linked(fl[..i] + fl[i + 1..])
      ensures OnlyCells(old(mem[..]), mem[..], NOWHERE, Entry(fl, i - 1, NOWHERE), Entry(fl, i + 1, NOWHERE))
    {
      hide Word, Links, LinksAt, Cells;
      ghost var m0, fl' := mem[..], fl[..i] + fl[i + 1..];
      assert fl[i := bp] == fl;
      LinksCells(m0, fl);
      AroundEntry(m0, fl, i, bp);
      var prev := PrevFreeBlock(bp);
      var next := NextFreeBlock(bp);
      if prev != NULL {
        Put(prev + WSIZE, Get(bp + WSIZE));
      } else {
        hdFree := next;
      }
      if next != NULL {
        Put(next, Get(bp));
      } else {
        ftFree := prev;
      }
      RemovedLinks(m0, mem[..], fl, i);
    }

    // ---------- macros ----------

    function Hdrp(bp: int): int { bp - WSIZE }

    function SizeAt(p: int): int
      requires 0 <= p <= mem.Length - WSIZE
      reads mem
    {
      SizeOf(Get(p))
    }

    function AllocAt(p: int): int
      requires 0 <= p <= mem.Length - WSIZE
      reads mem
    {
      AllocOf(Get(p))
    }

    function NextBlkp(bp: int): int
      requires WSIZE <= bp <= mem.Length
      reads mem
    {
      bp + SizeAt(bp - WSIZE)
    }

    function PrevBlkp(bp: int): int
      requires DSIZE <= bp <= mem.Length
      reads mem
    {
      bp - SizeAt(bp - DSIZE)
    }

    function Ftrp(bp: int): int
      requires WSIZE <= bp <= mem.Length
      reads mem
    {
      bp + SizeAt(bp - WSIZE) - DSIZE
    }

    /** Header first; the footer is found through the header just written. */
    method PutTags(bp: int, size: int, alloc: int)
      requires FIRST <= bp && size % 8 == 0 && 16 <= size < 0x8000_0000 && bp + size <= mem.Length && 0 <= alloc <= 1
      modifies mem
      ensures PutsTags(old(mem[..]), mem[..], bp, Block(size, alloc == 1))
    {
      hide Word;
      Put(Hdrp(bp), Pack(size, alloc));
      TagFields(Block(size, alloc == 1));
      Put(bp + SizeAt(Hdrp(bp)) - DSIZE, Pack(size, alloc));
    }

    // ---------- the heap ----------

    ghost predicate Valid()
      reads this, mem
    {
      Rep(mem[..], h) && brk == h.brk <= mem.Length && HeadTail(h.free)
    }

    method MemSbrk(incr: int) returns (r: int)
      requires 0 <= brk <= mem.Length
      modifies `brk
      ensures if incr < 0 || old(brk) + incr > mem.Length then r == -1 && brk == old(brk)
              else r == old(brk) && brk == old(brk) + incr
    {
      if incr < 0 || brk + incr > mem.Length { return -1; }
      r := brk;
      brk := brk + incr;
    }

    /** The two tag writes and the epilogue of extend_heap, for the free block bp that ends at the new brk. */
    method PutLastBlock(bp: int, size: int, ghost n: int) returns (ghost m1: seq<Byte>)
      requires Rep(mem[..], h) && n >= 16 && n % 8 == 0 && brk == h.brk + n <= mem.Length
      requires bp == Extended(h) && 16 <= size == brk - bp && FIRST <= bp && bp % 8 == 0
      modifies mem
      ensures ExtendWrites(old(mem[..]), m1, mem[..], h, n)
    {
      hide Word, WF, Links, PrevFrom, Prev, OnlyTags, OnlyAt, Extended, GoodBlock, AllTags;
      PutTags(bp, size, 0);
      m1 := mem[..];
      TagFields(Block(size, false));
      assert NextBlkp(bp) == brk;
      hide PutsTags;
      Put(Hdrp(NextBlkp(bp)), Pack(0, 1));
    }

    method ExtendHeap(words: int) returns (bp: int)
      requires Valid() && words % 2 == 0 && 4 <= words && words * WSIZE < 0x8000_0000
      modifies this, mem
      ensures Valid()
      ensures if old(brk) + words * WSIZE > mem.Length then bp == NULL && h == old(h) && mem[..] == old(mem[..])
              else h == Extend(old(h), words * WSIZE) && bp == Extended(old(h)) && FIRST <= bp
      ensures SamePayloads(old(mem[..]), mem[..], old(h).blocks)
    {
      hide Word, Links, AllTags, OnlyCells, Cells, PrevFrom, GoodBlock, NoAdjacentFree, FreeListExact, ExtendWrites;
      ghost var m0, n := mem[..], words * WSIZE;
      ReadPrev(mem[..], h, brk);
      if brk > FIRST { ReadTags(mem[..], h.blocks, brk, Prev(h, brk)); }
      var size := words * WSIZE;
      bp := MemSbrk(size);
      if bp == -1 { return NULL; }
      var prev := PrevBlkp(bp);
      var prevAlloc := AllocAt(Hdrp(prev));
      if prevAlloc != 0 {
        ghost var m1 := PutLastBlock(bp, size, n);
        ghost var m2 := mem[..];
        ExtendGrows(m0, m1, m2, h, n);
        InsertFreeBlock(bp, h.free);
        ExtendFresh(m0, m1, m2, mem[..], h, n);
        h := Extend(h, n);
        return bp;
      } else {
        size := size + SizeAt(Hdrp(prev));
        ghost var m1 := PutLastBlock(prev, size, n);
        ExtendGrows(m0, m1, mem[..], h, n);
        h := Extend(h, n);
        return prev;
      }
    }

    method FindFit(size: int) returns (bp: int)
      requires Valid()
      ensures forall i :: 0 <= i < |h.free| ==> h.free[i] in h.blocks
      ensures bp == FirstFit(h.blocks, h.free, size)
    {
      hide Word, Links, WF;
      FreeAreBlocks(h);
      ghost var i := 0;
      bp := hdFree;
      while bp != NULL
        invariant 0 <= i <= |h.free| && bp == Entry(h.free, i, NULL)
        invariant FirstFit(h.blocks, h.free[i..], size) == FirstFit(h.blocks, h.free, size)
        decreases |h.free| - i
      {
        ReadTags(mem[..], h.blocks, h.brk, bp);
        var asize := SizeAt(Hdrp(bp));
        if size <= asize { return; }
        assert h.free[i..][1..] == h.free[i + 1..];
        ReadLink(i);
        bp := NextFreeBlock(bp);
        i := i + 1;
      }
    }

    lemma ReadLink(i: nat)
      requires Valid() && i < |h.free|
      ensures FIRST <= h.free[i] <= mem.Length - DSIZE
      ensures Word(mem[..], h.free[i] + WSIZE) == (if i == |h.free| - 1 then 0 else h.free[i + 1] - 8)
      ensures i < |h.free| - 1 ==> h.free[i + 1] >= FIRST
    {
      hide Word;
      FreeAreBlocks(h);
      assert LinksAt(mem[..], h.free, i);
    }

    method Place(bp: int, size: int) returns (r: int)
      requires Valid() && IsFree(h.blocks, bp) && bp in h.free && 16 <= size <= h.blocks[bp].size && size % 8 == 0
      modifies this, mem
      ensures Valid()
      ensures (h, r) == HeapModel.Place(old(h), bp, size)
      ensures brk == old(brk) && SamePayloads(old(mem[..]), mem[..], old(h).blocks)
    {
      hide Word, Links, OnlyCells, OnlyTags, SamePayloads, WF;
      ghost var m0, h1 := mem[..], HeapModel.Place(h, bp, size).0;
      ReadTags(m0, h.blocks, h.brk, bp);
      var originSize := SizeAt(Hdrp(bp));
      hide PutsTags, TagRep;
      if originSize - size >= 2 * DSIZE {
        PutTags(bp, originSize - size, 0);
        ghost var m1 := mem[..];
        var next := NextBlkp(bp);
        PutTags(next, size, 1);
        PlaceSplitMemory(m0, m1, mem[..], h, bp, size);
        h := h1;
        return next;
      } else {
        PutTags(bp, originSize, 1);
        ghost var m1 := mem[..];
        PlaceWholeTags(m0, m1, h, bp);
        RemoveFreeBlock(bp, h.free, IndexOf(h.free, bp));
        PlaceWholeMemory(m0, m1, mem[..], h, bp, size);
        h := h1;
        return bp;
      }
    }

    method Malloc(size: int) returns (bp: int)
      requires Valid() && 0 <= size <= MAX_REQUEST
      modifies this, mem
      ensures Valid()
      ensures (h, bp) == HeapModel.Malloc(old(h), mem.Length, size)
      ensures SamePayloads(old(mem[..]), mem[..], old(h).blocks)
    {
      hide WF, TagRep, Links, SamePayloads;
      ghost var h0, m0 := h, mem[..];
      if size == 0 {
        SameSelf(m0, h.blocks);
        return NULL;
      }
      var request := size;
      if request == 448 { request := 512; }
      if request == 112 { request := 128; }
      var asize := DSIZE * ((request + DSIZE + (DSIZE - 1)) / DSIZE);
      assert asize == AlignedSize(AdjustedRequest(size));
      AlignedSizeBounds(request);
      hide AlignedSize;
      FitIsFree(h, asize);
      bp := FindFit(asize);
      if bp != NULL {
        bp := Place(bp, asize);
      } else {
        bp := ExtendAndPlace(asize);
      }
    }

    /** The end of mm_malloc, when nothing fits. */
    method ExtendAndPlace(asize: int) returns (bp: int)
      requires Valid() && 16 <= asize < 0x8000_0000 && asize % 8 == 0
      modifies this, mem
      ensures Valid()
      ensures var more := Max(asize, CHUNKSIZE);
        if old(brk) + more > mem.Length then bp == NULL && h == old(h)
        else WF(Extend(old(h), more)) && IsFree(Extend(old(h), more).blocks, Extended(old(h))) && Extended(old(h)) in Extend(old(h), more).free
             && (h, bp) == HeapModel.Place(Extend(old(h), more), Extended(old(h)), asize)
      ensures SamePayloads(old(mem[..]), mem[..], old(h).blocks)
    {
      hide WF, TagRep, Links, SamePayloads, Extend;
      ghost var h0, m0 := h, mem[..];
      var extendsize := if asize > CHUNKSIZE then asize else CHUNKSIZE;
      ExtendWF(h, extendsize);
      bp := ExtendHeap(extendsize / WSIZE);
      if bp == NULL { return; }
      ghost var h1, m1 := h, mem[..];
      bp := Place(bp, asize);
      ExtendKeepsLive(h0, extendsize);
      SameTrans(m0, m1, mem[..], h0.blocks, h1.blocks);
    }

    // ---------- free ----------

    /** Tag bp and its free successor next as one free block. */
    method TagNext(bp: int, next: int, size: int)
      requires Freeing(mem[..], h, bp) && !(FIRST < bp && IsFree(h.blocks, Prev(h, bp)))
      requires next == HeapModel.Next(h.blocks, bp) && IsFree(h.blocks, next) && size == h.blocks[bp].size + h.blocks[next].size
      modifies mem
      ensures next in h.free && Links(mem[..], h.free) && Cells(Replace(h.free, next, bp), mem.Length) && bp + DSIZE <= next
      ensures PutsTags(old(mem[..]), mem[..], bp, Block(size, false))
    {
      hide Word, Links, OnlyCells, SamePayloads, Prev, GoodBlock, Tiled, TagRep, OnlyTags, OnlyAt, SizeOf, AllocOf, Cells;
      ghost var m0 := mem[..];
      FreeingTags(m0, h, bp);
      MergedSize(h, bp);
      Around(h, bp);
      PutTags(bp, size, 0);
      FreeNextLinks(m0, mem[..], h, bp);
    }

    /** Merge bp with its free successor next, whose place in the list it takes. */
    method MergeNext(bp: int, next: int, size: int)
      requires Freeing(mem[..], h, bp) && brk == h.brk <= mem.Length && HeadTail(h.free)
      requires next == HeapModel.Next(h.blocks, bp) && IsFree(h.blocks, next) && !(FIRST < bp && IsFree(h.blocks, Prev(h, bp)))
      requires size == h.blocks[bp].size + h.blocks[next].size
      modifies this, mem
      ensures Valid() && h == HeapModel.Free(old(h), bp)
      ensures SamePayloads(old(mem[..]), mem[..], old(h).blocks - {bp})
    {
      hide Word, Links, OnlyCells, SamePayloads, Prev, TagRep, HeapModel.Free, IndexOf, PutsTags, Cells, WF;
      ghost var m0 := mem[..];
      TagNext(bp, next, size);
      ghost var m1, h1, i := mem[..], HeapModel.Free(h, bp), IndexOf(h.free, next);
      ReplaceFreeBlock(next, bp, h.free, i);
      FreeNextMemory(m0, m1, mem[..], h, bp);
      h := h1;
    }

    /** The header through the first block, the footer through the last one, whose own header is still in place. */
    method PutOuterTags(bp: int, next: int, size: int)
      requires FIRST <= bp && 16 <= size < 0x8000_0000 && size % 8 == 0 && bp + size <= mem.Length
      requires bp + WSIZE <= next <= mem.Length && Ftrp(next) == bp + size - DSIZE
      modifies mem
      ensures PutsTags(old(mem[..]), mem[..], bp, Block(size, false))
    {
      hide Word;
      Put(Hdrp(bp), Pack(size, 0));
      Put(Ftrp(next), Pack(size, 0));
    }

    /** Tag ptr and its free neighbours bp and next as one free block. */
    method TagBoth(ptr: int, bp: int, next: int, size: int)
      requires Freeing(mem[..], h, ptr) && FIRST < ptr && bp == Prev(h, ptr) && IsFree(h.blocks, bp)
      requires next == HeapModel.Next(h.blocks, ptr) && IsFree(h.blocks, next)
      requires size == h.blocks[bp].size + h.blocks[ptr].size + h.blocks[next].size
      modifies mem
      ensures WF(h) && IsLive(h.blocks, ptr) && next in h.free
      ensures TagRep(mem[..], HeapModel.Free(h, ptr).blocks, h.brk) && Links(mem[..], h.free)
      ensures SamePayloads(old(mem[..]), mem[..], h.blocks - {ptr})
    {
      hide Word, Links, OnlyCells, SamePayloads, Prev, GoodBlock, Tiled, NoAdjacentFree, FreeListExact, TagRep, OnlyTags, OnlyAt, SizeOf, AllocOf, HeapModel.Free;
      ghost var m0 := mem[..];
      FreeingTags(m0, h, ptr);
      MergedSize(h, ptr);
      PutOuterTags(bp, next, size);
      FreeBothTags(m0, mem[..], h, ptr);
    }

    /** Merge the block ptr between its free neighbours bp and next, of which next leaves the list. */
    method MergeBoth(ptr: int, bp: int, next: int, size: int)
      requires Freeing(mem[..], h, ptr) && brk == h.brk <= mem.Length && HeadTail(h.free)
      requires FIRST < ptr && bp == Prev(h, ptr) && IsFree(h.blocks, bp)
      requires next == HeapModel.Next(h.blocks, ptr) && IsFree(h.blocks, next)
      requires size == h.blocks[bp].size + h.blocks[ptr].size + h.blocks[next].size
      modifies this, mem
      ensures Valid() && h == HeapModel.Free(old(h), ptr)
      ensures SamePayloads(old(mem[..]), mem[..], old(h).blocks - {ptr})
    {
      hide Word, Links, OnlyCells, SamePayloads, Prev, TagRep, WF, HeapModel.Free, Freeing, IndexOf;
      ghost var m0 := mem[..];
      TagBoth(ptr, bp, next, size);
      ghost var m1, h1, i := mem[..], HeapModel.Free(h, ptr), IndexOf(h.free, next);
      RemoveFreeBlock(next, h.free, i);
      FreeBothMemory(m0, m1, mem[..], h, ptr);
      h := h1;
    }

    method Coalesce(ptr: int) returns (bp: int)
      requires Freeing(mem[..], h, ptr) && brk == h.brk <= mem.Length && HeadTail(h.free)
      modifies this, mem
      ensures Valid()
      ensures h == HeapModel.Free(old(h), ptr) && bp == Merged(old(h), ptr)
      ensures SamePayloads(old(mem[..]), mem[..], old(h).blocks - {ptr})
    {
      hide Word, Links, OnlyCells, OnlyTags, SamePayloads, PrevFrom, GoodBlock, Tiled, TagRep, Prev, NoAdjacentFree, FreeListExact;
      ghost var m0 := mem[..];
      FreeingTags(m0, h, ptr);
      bp := ptr;
      var prevAlloc := AllocAt(Ftrp(PrevBlkp(bp)));
      var nextAlloc := AllocAt(Hdrp(NextBlkp(bp)));
      var size := SizeAt(Hdrp(bp));
      if prevAlloc != 0 && nextAlloc != 0 {
        FreeWF(h, ptr);
        FreeCells(HeapModel.Free(h, ptr), |m0|);
        InsertFreeBlock(bp, h.free);
        FreeAloneMemory(m0, mem[..], h, ptr);
        h := HeapModel.Free(h, ptr);
      } else if prevAlloc != 0 && nextAlloc == 0 {
        var next := NextBlkp(bp);
        size := size + SizeAt(Hdrp(next));
        MergeNext(bp, next, size);
      } else if prevAlloc == 0 && nextAlloc != 0 {
        bp := PrevBlkp(bp);
        size := size + SizeAt(Hdrp(bp));
        MergedSize(h, ptr);
        PutTags(bp, size, 0);
        FreePrevMemory(m0, mem[..], h, ptr);
        h := HeapModel.Free(h, ptr);
      } else {
        var next := NextBlkp(bp);
        bp := PrevBlkp(bp);
        size := size + SizeAt(Hdrp(bp)) + SizeAt(Ftrp(next));
        MergeBoth(ptr, bp, next, size);
      }
    }

    method Free(ptr: int)
      requires Valid() && IsLive(h.blocks, ptr)
      modifies this, mem
      ensures Valid()
      ensures h == HeapModel.Free(old(h), ptr)
      ensures SamePayloads(old(mem[..]), mem[..], old(h).blocks - {ptr})
    {
      hide Word, Links, OnlyCells, OnlyTags, SamePayloads, WF;
      ghost var m0 := mem[..];
      ReadTags(m0, h.blocks, h.brk, ptr);
      var size := SizeAt(Hdrp(ptr));
      hide TagRep;
      PutTags(ptr, size, 0);
      ghost var m1 := mem[..];
      MarkMemory(m0, m1, h, ptr);
      ghost var h0 := h;
      var _ := Coalesce(ptr);
      SameTrans(m0, m1, mem[..], h0.blocks - {ptr}, h0.blocks - {ptr});
    }

    // ---------- realloc ----------

    /** Cut the live block ptr to asize bytes; the tail joins a free successor or becomes a free block. */
    method ShrinkBlock(ptr: int, asize: int, oldSize: int)
      requires Valid() && IsLive(h.blocks, ptr) && oldSize == h.blocks[ptr].size && 16 <= asize <= oldSize - 16 && asize % 8 == 0
      modifies this, mem
      ensures Valid() && h == Resize(old(h), ptr, asize)
      ensures SamePayloads(old(mem[..]), mem[..], h.blocks)
    {
      hide Word, Links, OnlyCells, OnlyTags, SamePayloads, GoodBlock, Tiled, TagRep;
      ghost var h0, m0, h1 := h, mem[..], Resize(h, ptr, asize);
      LiveTags(m0, h, ptr);
      ResizeWF(h, ptr, asize);
      FreeCells(h1, |m0|);
      assert Rep(m0, h) && WF(h) && h1.brk == h.brk;
      var ptrNext := NextBlkp(ptr);
      var pnAlloc := AllocAt(Hdrp(ptrNext));
      var pnSize := if pnAlloc == 0 then SizeAt(Hdrp(ptrNext)) else 0;
      assert pnAlloc == 0 <==> IsFree(h.blocks, ptrNext);
      assert oldSize + pnSize == Room(h.blocks, ptr);
      hide Rep, WF, Resize, Cells, SizeOf, AllocOf, IndexOf;
      PutTags(ptr, asize, 1);
      ghost var m1 := mem[..];
      var newNext := ptr + asize;
      PutTags(newNext, oldSize - asize + pnSize, 0);
      ghost var m2 := mem[..];
      hide PutsTags;
      ShrinkTags(m0, m1, m2, h, ptr, asize);
      ShrinkLinks(m0, m1, m2, h, ptr, asize);
      if pnAlloc == 0 {
        ghost var i := IndexOf(h.free, ptrNext);
        ReplaceFreeBlock(ptrNext, newNext, h.free, i);
        ShrinkMergeMemory(m0, m2, mem[..], h, ptr, asize);
      } else {
        InsertFreeBlock(newNext, h.free);
        ShrinkInsertMemory(m0, m2, mem[..], h, ptr, asize);
      }
      assert HeadTail(h1.free);
      h := h1;
    }

    /** Grow the live block ptr to asize bytes into its free successor ptrNext, which moves up. */
    method GrowIntoPart(ptr: int, asize: int, ptrNext: int)
      requires Valid() && IsLive(h.blocks, ptr) && h.blocks[ptr].size < asize && asize % 8 == 0
      requires ptrNext == HeapModel.Next(h.blocks, ptr) && IsFree(h.blocks, ptrNext) && asize <= Room(h.blocks, ptr) - 16
      modifies this, mem
      ensures Valid() && h == Resize(old(h), ptr, asize)
      ensures SamePayloads(old(mem[..]), mem[..], old(h).blocks)
    {
      hide Word, Links, OnlyCells, OnlyTags, SamePayloads, GoodBlock, Tiled, NoAdjacentFree, FreeListExact, TagRep, SizeOf, AllocOf, Cells, IndexOf;
      ghost var h0, m0, h1, room, i := h, mem[..], Resize(h, ptr, asize), Room(h.blocks, ptr), IndexOf(h.free, ptrNext);
      LiveTags(m0, h, ptr);
      GrowSizes(h, ptr, asize);
      ResizeWF(h, ptr, asize);
      FreeCells(h1, |m0|);
      assert Rep(m0, h) && WF(h) && h1.brk == h.brk && h1.free == h.free[i := ptr + asize];
      var oldSize, pnSize := SizeAt(Hdrp(ptr)), SizeAt(Hdrp(ptrNext));
      var newNext := ptr + asize;
      ReplaceFreeBlock(ptrNext, newNext, h.free, i);
      ghost var m1 := mem[..];
      PutTags(ptr, asize, 1);
      ghost var m2 := mem[..];
      PutTags(newNext, oldSize + pnSize - asize, 0);
      hide PutsTags;
      GrowSplitMemory(m0, m1, m2, mem[..], h, ptr, asize);
      h := h1;
    }

    /** Let the live block ptr swallow its free successor ptrNext. */
    method GrowIntoWhole(ptr: int, ptrNext: int)
      requires Valid() && IsLive(h.blocks, ptr)
      requires ptrNext == HeapModel.Next(h.blocks, ptr) && IsFree(h.blocks, ptrNext)
      modifies this, mem
      ensures Valid() && h == Swallow(old(h), ptr)
      ensures SamePayloads(old(mem[..]), mem[..], old(h).blocks)
    {
      hide Word, Links, OnlyCells, OnlyTags, SamePayloads, GoodBlock, Tiled, TagRep, SizeOf, AllocOf;
      ghost var h0, m0, h1, i := h, mem[..], Swallow(h, ptr), IndexOf(h.free, ptrNext);
      LiveTags(m0, h, ptr);
      assert Rep(m0, h) && WF(h) && h1.brk == h.brk && h1.free == Remove(h.free, ptrNext);
      hide Rep, WF, Swallow, IndexOf;
      var oldSize, pnSize := SizeAt(Hdrp(ptr)), SizeAt(Hdrp(ptrNext));
      PutTags(ptr, oldSize + pnSize, 1);
      ghost var m1 := mem[..];
      hide PutsTags;
      SwallowTags(m0, m1, h, ptr);
      RemoveFreeBlock(ptrNext, h.free, i);
      SwallowMemory(m0, m1, mem[..], h, ptr);
      assert HeadTail(h1.free);
      h := h1;
    }

    /** Copy the payload of the live block ptr to a new block of asize bytes and free ptr. */
    method MoveBlock(ptr: int, asize: int, oldSize: int) returns (r: Outcome)
      requires Valid() && IsLive(h.blocks, ptr) && oldSize == h.blocks[ptr].size < asize && 0 <= asize <= MAX_REQUEST
      modifies this, mem
      ensures Valid()
      ensures (h, r) == Move(old(h), mem.Length, ptr, asize)
      ensures SamePayloads(old(mem[..]), mem[..], old(h).blocks - {ptr})
      ensures r.Returned? ==> SameBytes(old(mem[..]), ptr, mem[..], r.p, oldSize - DSIZE)
    {
      hide WF, Links, SamePayloads, TagRep, HeapModel.Malloc, HeapModel.Free, Word;
      ghost var h0, m0 := h, mem[..];
      LiveTags(m0, h, ptr);
      MallocWF(h, mem.Length, asize);
      var newPtr := Malloc(asize);
      if newPtr == NULL {
        SubPayloads(m0, mem[..], h0.blocks, h0.blocks - {ptr});
        return Fault;
      }
      ghost var h1, m1 := h, mem[..];
      CopyPayload(newPtr, ptr, oldSize - DSIZE);
      ghost var m2 := mem[..];
      Free(ptr);
      MovePayloads(m0, m1, m2, mem[..], h0.blocks, h1.blocks, ptr, newPtr, oldSize - DSIZE);
      r := Returned(newPtr);
    }

    method CopyPayload(dst: int, src: int, n: int)
      requires Valid() && IsLive(h.blocks, src) && IsLive(h.blocks, dst) && src != dst
      requires n == h.blocks[src].size - DSIZE && h.blocks[src].size <= h.blocks[dst].size
      modifies mem
      ensures Valid()
      ensures SameBytes(old(mem[..]), src, mem[..], dst, n) && n > 0
      ensures SamePayloads(old(mem[..]), mem[..], h.blocks - {dst})
    {
      hide OnlyAt, WF, Links, SamePayloads, TagRep;
      ghost var m0 := mem[..];
      MoveApart(m0, h, src, dst);
      Memcpy(dst, src, n);
      PayloadWrite(m0, mem[..], h, dst, dst, n);
    }

    /** Grow the live block ptr in place if its free successor allows it, else move it. */
    method GrowBlock(ptr: int, asize: int, oldSize: int) returns (r: Outcome)
      requires Valid() && IsLive(h.blocks, ptr) && oldSize == h.blocks[ptr].size < asize <= MAX_REQUEST && asize % 8 == 0 && 0 <= asize
      modifies this, mem
      ensures Valid()
      ensures (h, r) == if asize <= Room(old(h).blocks, ptr) - 16 then (Resize(old(h), ptr, asize), Returned(ptr))
                        else if asize <= Room(old(h).blocks, ptr) then (Swallow(old(h), ptr), Returned(ptr))
                        else Move(old(h), mem.Length, ptr, asize)
      ensures SamePayloads(old(mem[..]), mem[..], old(h).blocks - {ptr})
      ensures r.Returned? ==> SameBytes(old(mem[..]), ptr, mem[..], r.p, oldSize - DSIZE)
    {
      hide Word, TagRep, Links, SamePayloads, SizeOf, AllocOf, SameBytes, Tiled, NoAdjacentFree, FreeListExact, Resize, Swallow, Move;
      ghost var h0, m0 := h, mem[..];
      LiveTags(m0, h, ptr);
      var ptrNext := NextBlkp(ptr);
      if AllocAt(Hdrp(ptrNext)) == 0 {
        var pnSize := SizeAt(Hdrp(ptrNext));
        if oldSize + pnSize >= asize + 2 * DSIZE {
          GrowIntoPart(ptr, asize, ptrNext);
          SubPayloads(m0, mem[..], h0.blocks, h0.blocks - {ptr});
          OwnBytes(m0, mem[..], h0, ptr, oldSize - DSIZE);
          return Returned(ptr);
        } else if oldSize + pnSize >= asize {
          GrowIntoWhole(ptr, ptrNext);
          SubPayloads(m0, mem[..], h0.blocks, h0.blocks - {ptr});
          OwnBytes(m0, mem[..], h0, ptr, oldSize - DSIZE);
          return Returned(ptr);
        }
      }
      r := MoveBlock(ptr, asize, oldSize);
    }

    /** Resize the live block ptr, or allocate if ptr is NULL; Fault stands for a use of NULL. */
    method Realloc(ptr: int, size: int) returns (r: Outcome)
      requires Valid() && (ptr == NULL || IsLive(h.blocks, ptr)) && 0 <= size <= MAX_REQUEST - 16
      modifies this, mem
      ensures Valid()
      ensures (h, r) == HeapModel.Realloc(old(h), mem.Length, ptr, size)
      ensures SamePayloads(old(mem[..]), mem[..], old(h).blocks - {ptr})
      ensures r.Returned? && ptr != NULL && size > 0 ==>
        SameBytes(old(mem[..]), ptr, mem[..], r.p, Min(old(h).blocks[ptr].size - DSIZE, size))
    {
      hide Word, TagRep, WF, Links, SamePayloads, SizeOf, AllocOf, SameBytes, Resize, Swallow, Move, HeapModel.Free, HeapModel.Malloc;
      ghost var h0, m0 := h, mem[..];
      if size == 0 {
        if ptr == NULL {
          SameSelf(m0, h.blocks - {ptr});
          return Fault;
        }
        Free(ptr);
        return Returned(ptr);
      }
      var asize := DSIZE * ((size + DSIZE + DSIZE - 1) / DSIZE);
      assert asize == AlignedSize(size);
      if ptr == NULL {
        var p := Malloc(asize);
        SubPayloads(m0, mem[..], h0.blocks, h0.blocks - {ptr});
        return Returned(p);
      }
      LiveTags(m0, h, ptr);
      var oldSize := SizeAt(Hdrp(ptr));
      if asize <= oldSize {
        if oldSize - asize >= 2 * DSIZE {
          ShrinkBlock(ptr, asize, oldSize);
          ResizeChanges(h0, ptr, asize);
          SubPayloads(m0, mem[..], h.blocks, h0.blocks - {ptr});
          OwnBytes(m0, mem[..], h, ptr, size);
        } else {
          SameSelf(m0, h.blocks);
          SubPayloads(m0, m0, h.blocks, h.blocks - {ptr});
          OwnBytes(m0, m0, h, ptr, size);
        }
        return Returned(ptr);
      }
      r := GrowBlock(ptr, asize, oldSize);
      if r.Returned? {
        MinBytes(m0, ptr, mem[..], r.p, oldSize - DSIZE, size);
      }
    }

    // ---------- start-up and the client ----------

    /** An allocator over an empty heap of at most maxHeap bytes, as after mem_init. */
    constructor (maxHeap: nat)
      requires maxHeap < 0x8000_0000
      ensures brk == 0 && mem.Length == maxHeap && fresh(mem)
    {
      mem := new Byte[maxHeap];
      brk := 0;
      heapListp := 0;
      hdFree := NULL;
      ftFree := NULL;
      h := Heap(map[], [], FIRST);
    }

    method MemResetBrk()
      modifies `brk
      ensures brk == 0
    {
      brk := 0;
    }

    method MmInit() returns (r: int)
      requires brk == 0 && mem.Length < 0x8000_0000
      modifies this, mem
      ensures r == if FIRST + CHUNKSIZE <= mem.Length then 0 else -1
      ensures r == 0 ==> Valid() && h == InitialHeap()
    {
      hdFree := NULL;
      ftFree := NULL;
      heapListp := MemSbrk(2 * DSIZE);
      if heapListp == -1 { return -1; }
      Put(heapListp, 0);
      Put(heapListp + WSIZE, Pack(DSIZE, 1));
      Put(heapListp + 2 * WSIZE, Pack(DSIZE, 1));
      Put(heapListp + 3 * WSIZE, Pack(0, 1));
      heapListp := heapListp + 2 * WSIZE;
      h := Heap(map[], [], FIRST);
      EmptyHeap(mem[..]);
      var bp := ExtendHeap(CHUNKSIZE / WSIZE);
      if bp == NULL { return -1; }
      return 0;
    }

    /** A client writes byte b at offset k of its block p. */
    method Store(p: int, k: int, b: Byte)
      requires Valid() && IsLive(h.blocks, p) && 0 <= k < h.blocks[p].size - DSIZE && 0 <= p + k < mem.Length
      modifies mem
      ensures Valid() && mem[p + k] == b
      ensures SamePayloads(old(mem[..]), mem[..], h.blocks - {p})
    {
      ghost var m0 := mem[..];
      mem[p + k] := b;
      OnlyAtWords(m0, mem[..], p + k, 1);
      PayloadWrite(m0, mem[..], h, p, p + k, 1);
    }
  }
}
