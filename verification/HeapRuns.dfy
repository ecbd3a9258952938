/** Whole runs of the allocator in place, tied to the runs of its model. */
module HeapRuns {
  import opened Prelude
  import opened Bytes
  import opened HeapModel
  import opened HeapMemory
  import opened HeapTheorems
  import opened MemoryAllocator

  /** The blocks that some call frees or resizes. */
  function Named(calls: seq<Call>): set<int> {
    set c | c in calls && !c.MallocCall? :: c.p
  }

  /** Sizes that fit the allocator's int arithmetic. */
  predicate Moderate(c: Call) {
    c.FreeCall? || c.size <= MAX_REQUEST - 16
  }

  lemma {:induction false} ReachesSnoc(h: Heap, limit: int, calls: seq<Call>, h': Heap, c: Call)
    requires WF(h) && WF(h') && Reaches(h, limit, calls, h') && Legal(h', c) && !Faults(h', limit, c)
    ensures Reaches(h, limit, calls + [c], After(h', limit, c))
    decreases calls
  {
    hide WF, After, Legal, Faults;
    AfterWF(h', limit, c);
    if calls == [] {
      assert (calls + [c])[1..] == [];
    } else {
      AfterWF(h, limit, calls[0]);
      assert (calls + [c])[1..] == calls[1..] + [c];
      ReachesSnoc(After(h, limit, calls[0]), limit, calls[1..], h', c);
    }
  }

  lemma FaultsExactly(h: Heap, limit: int, c: Call)
    requires WF(h) && Legal(h, c)
    ensures Result(h, limit, c) == Fault <==> Faults(h, limit, c)
    ensures Faults(h, limit, c) ==> After(h, limit, c) == h
  {
    if c.ReallocCall? {
      ReallocFaultsExactly(h, limit, c.p, c.size);
      ReallocWF(h, limit, c.p, c.size);
    }
    hide WF, Realloc, ReallocFaults, Malloc, Free;
  }

  /** A call keeps every block that no call of the run names. */
  lemma OthersStay(h: Heap, h': Heap, calls: seq<Call>, i: nat, others: Blocks)
    requires i < |calls| && KeepsOthers(h, h', calls[i])
    requires forall x :: IsLive(others, x) ==> x !in Named(calls) && IsLive(h.blocks, x) && h.blocks[x] == others[x]
    ensures forall x :: IsLive(others, x) ==> IsLive(h'.blocks, x) && h'.blocks[x] == others[x]
    ensures var c := calls[i]; var bs := if c.MallocCall? then h.blocks else h.blocks - {c.p};
      forall x :: IsLive(others, x) ==> IsLive(bs, x) && bs[x] == others[x]
  {
  }

  method PerformCall(a: Allocator, c: Call) returns (r: Outcome)
    requires a.Valid() && Legal(a.h, c) && Moderate(c)
    modifies a, a.mem
    ensures a.Valid() && a.h == After(old(a.h), a.mem.Length, c) && r == Result(old(a.h), a.mem.Length, c)
    ensures SamePayloads(old(a.mem[..]), a.mem[..], if c.MallocCall? then old(a.h).blocks else old(a.h).blocks - {c.p})
  {
    hide Allocator.Valid, SamePayloads, HeapModel.Malloc, HeapModel.Free, HeapModel.Realloc;
    match c
    case MallocCall(size) =>
      var p := a.Malloc(size);
      return Returned(p);
    case FreeCall(p) =>
      a.Free(p);
      return Returned(NULL);
    case ReallocCall(p, size) =>
      r := a.Realloc(p, size);
  }

  /** A run performs the calls one by one, and stops early exactly before one that follows a null pointer; blocks that no call names keep
      place, size and every byte. */
  method Perform(a: Allocator, calls: seq<Call>) returns (done: nat)
    requires a.Valid() && LegalRun(a.h, a.mem.Length, calls)
    requires forall i :: 0 <= i < |calls| ==> Moderate(calls[i])
    modifies a, a.mem
    ensures a.Valid() && done <= |calls| && Reaches(old(a.h), a.mem.Length, calls[..done], a.h)
    ensures done < |calls| ==> Legal(a.h, calls[done]) && Faults(a.h, a.mem.Length, calls[done])
    ensures forall x :: IsLive(old(a.h).blocks - Named(calls), x) ==> IsLive(a.h.blocks, x) && a.h.blocks[x] == old(a.h).blocks[x]
    ensures SamePayloads(old(a.mem[..]), a.mem[..], old(a.h).blocks - Named(calls))
  {
    hide SamePayloads, TagRep, Links, After, WF, Result, Faults;
    ghost var h0, m0, others := a.h, a.mem[..], a.h.blocks - Named(calls);
    SameSelf(m0, others);
    done := 0;
    while done < |calls|
      invariant a.Valid() && done <= |calls|
      invariant Reaches(h0, a.mem.Length, calls[..done], a.h) && LegalRun(a.h, a.mem.Length, calls[done..])
      invariant forall x :: IsLive(others, x) ==> IsLive(a.h.blocks, x) && a.h.blocks[x] == others[x]
      invariant SamePayloads(m0, a.mem[..], others)
    {
      ghost var h, m, c := a.h, a.mem[..], calls[done];
      assert calls[done..][0] == c && calls[done..][1..] == calls[done + 1..];
      AfterWF(h, a.mem.Length, c);
      FaultsExactly(h, a.mem.Length, c);
      var r := PerformCall(a, calls[done]);
      OthersStay(h, a.h, calls, done, others);
      SameTrans(m0, m, a.mem[..], others, if c.MallocCall? then h.blocks else h.blocks - {c.p});
      if r == Fault { return; }
      ReachesSnoc(h0, a.mem.Length, calls[..done], h, c);
      assert calls[..done + 1] == calls[..done] + [c];
      done := done + 1;
    }
    assert calls[..done] == calls;
  }

  /** From an empty heap area through mm_init and a run: what the run leaves is valid, and payloads are aligned, inside and apart. */
  method PerformFromStart(maxHeap: nat, calls: seq<Call>) returns (ok: bool, a: Allocator, done: nat)
    requires maxHeap < 0x8000_0000 && (InitialWF(); LegalRun(InitialHeap(), maxHeap, calls))
    requires forall i :: 0 <= i < |calls| ==> Moderate(calls[i])
    ensures ok <==> FIRST + CHUNKSIZE <= maxHeap
    ensures ok ==> a.Valid() && done <= |calls| && WF(InitialHeap()) && Reaches(InitialHeap(), maxHeap, calls[..done], a.h)
    ensures ok && done < |calls| ==> Legal(a.h, calls[done]) && Faults(a.h, maxHeap, calls[done])
    ensures ok ==> forall x :: IsLive(a.h.blocks, x) ==> x % 8 == 0 && FIRST <= x < Next(a.h.blocks, x) - DSIZE <= a.brk - DSIZE
    ensures ok ==> forall x, y :: IsLive(a.h.blocks, x) && IsLive(a.h.blocks, y) && x != y ==>
      Apart(x, a.h.blocks[x].size - DSIZE, y, a.h.blocks[y].size - DSIZE)
  {
    a := new Allocator(maxHeap);
    done := 0;
    var r := a.MmInit();
    if r == -1 { return false, a, done; }
    InitialWF();
    hide InitialHeap;
    done := Perform(a, calls);
    EveryRunIsSafe(InitialHeap(), maxHeap, calls[..done], a.h);
    return true, a, done;
  }
}
