/** The cache simulator of lab8/csim.c: tags and ages in one flat array, refining recency lists. */
module LruCache {
  import opened Prelude
  import opened LruSpec

  function TagOf(w: seq<int>, i: nat): int
    requires 2 * i + 1 < |w|
  {
    w[2 * i]
  }

  function AgeOf(w: seq<int>, i: nat): int
    requires 2 * i + 1 < |w|
  {
    w[2 * i + 1]
  }

  /** Window w of e lines holds list l: line pos[k] has the k-th most recent tag, and rank is the inverse of pos. */
  ghost predicate Models(w: seq<int>, e: nat, l: seq<int>, pos: seq<nat>, rank: seq<nat>) {
    |w| == 2 * e && |l| <= e && |pos| == |l| && |rank| == |l| && Distinct(l)
    && (forall k :: 0 <= k < |l| ==> pos[k] < |l| && rank[pos[k]] == k && TagOf(w, pos[k]) == l[k])
    && (forall i :: 0 <= i < |l| ==> rank[i] < |l| && pos[rank[i]] == i && AgeOf(w, i) >= 1)
    && (forall i, j :: 0 <= i < |l| && 0 <= j < |l| && rank[i] < rank[j] ==> AgeOf(w, i) < AgeOf(w, j))
    && (forall i :: |l| <= i < e ==> TagOf(w, i) == 0 && AgeOf(w, i) == 0)
  }

  /** The occupied lines of w are a prefix with distinct tags and distinct positive ages; in age order they are l. */
  ghost predicate Represents(w: seq<int>, e: nat, l: seq<int>) {
    exists pos, rank :: Models(w, e, l, pos, rank)
  }

  /** After an access, line j is the youngest and every other occupied line is one older. */
  ghost predicate Aged(w: seq<int>, w': seq<int>, n: nat, j: nat) {
    |w'| == |w| && 2 * n <= |w|
    && (forall i :: 0 <= i < n && i != j ==> TagOf(w', i) == TagOf(w, i) && AgeOf(w', i) == AgeOf(w, i) + 1)
    && (forall i :: n <= i < |w| / 2 && i != j ==> TagOf(w', i) == TagOf(w, i) && AgeOf(w', i) == AgeOf(w, i))
    && 2 * j + 1 < |w| && AgeOf(w', j) == 1
  }

  function Older(rank: seq<nat>, r: nat): (o: seq<nat>)
    ensures |o| == |rank|
  {
    seq(|rank|, i requires 0 <= i < |rank| => if rank[i] < r then rank[i] + 1 else rank[i])
  }

  lemma HitOrder(w: seq<int>, w': seq<int>, e: nat, l: seq<int>, pos: seq<nat>, rank: seq<nat>, j: nat)
    requires Models(w, e, l, pos, rank) && j < |l| && Aged(w, w', |l|, j)
    ensures var rank' := Older(rank, rank[j])[j := 0];
      forall i, k :: 0 <= i < |l| && 0 <= k < |l| && rank'[i] < rank'[k] ==> AgeOf(w', i) < AgeOf(w', k)
  {
  }

  /** Line j of rank r goes to the front with tag t: places and ranks stay inverse. */
  lemma MovedPlaces(w: seq<int>, w': seq<int>, e: nat, l: seq<int>, pos: seq<nat>, rank: seq<nat>, j: nat, t: int)
    requires Models(w, e, l, pos, rank) && j < |l| && Aged(w, w', |l|, j) && TagOf(w', j) == t
    ensures var r := rank[j];
      var l', pos', rank' := [t] + l[..r] + l[r + 1..], [j] + pos[..r] + pos[r + 1..], Older(rank, r)[j := 0];
      (forall k :: 0 <= k < |l| ==> pos'[k] < |l| && rank'[pos'[k]] == k && TagOf(w', pos'[k]) == l'[k])
      && (forall i :: 0 <= i < |l| ==> rank'[i] < |l| && pos'[rank'[i]] == i && AgeOf(w', i) >= 1)
  {
    hide Distinct;
  }

  /** Lines not occupied stay empty. */
  lemma MovedTail(w: seq<int>, w': seq<int>, e: nat, l: seq<int>, pos: seq<nat>, rank: seq<nat>, j: nat)
    requires Models(w, e, l, pos, rank) && j < |l| && Aged(w, w', |l|, j)
    ensures |w'| == 2 * e && forall i :: |l| <= i < e ==> TagOf(w', i) == 0 && AgeOf(w', i) == 0
  {
    hide Distinct;
  }

  lemma MovedModels(w: seq<int>, w': seq<int>, e: nat, l: seq<int>, pos: seq<nat>, rank: seq<nat>, j: nat, t: int)
    requires Models(w, e, l, pos, rank) && j < |l| && Aged(w, w', |l|, j) && TagOf(w', j) == t
    requires Distinct([t] + l[..rank[j]] + l[rank[j] + 1..])
    ensures Represents(w', e, [t] + l[..rank[j]] + l[rank[j] + 1..])
  {
    hide Older, Distinct, TagOf, AgeOf, Aged;
    var r := rank[j];
    MovedTail(w, w', e, l, pos, rank, j);
    MovedPlaces(w, w', e, l, pos, rank, j, t);
    HitOrder(w, w', e, l, pos, rank, j);
    assert Models(w', e, [t] + l[..r] + l[r + 1..], [j] + pos[..r] + pos[r + 1..], Older(rank, r)[j := 0]);
  }

  lemma HitModels(w: seq<int>, w': seq<int>, e: nat, l: seq<int>, pos: seq<nat>, rank: seq<nat>, j: nat)
    requires Models(w, e, l, pos, rank) && j < |l| && Aged(w, w', |l|, j) && TagOf(w', j) == TagOf(w, j)
    ensures Touch(l, TagOf(w, j), e).1 == Hit && Represents(w', e, Touch(l, TagOf(w, j), e).0)
  {
    hide Without, Represents, Older;
    var r, t := rank[j], TagOf(w, j);
    WithoutAt(l, t, r);
    WithoutExact(l, t);
    assert Touch(l, t, e).0 == [t] + l[..r] + l[r + 1..];
    assert Distinct([t] + Without(l, t));
    assert [t] + Without(l, t) == [t] + l[..r] + l[r + 1..];
    MovedModels(w, w', e, l, pos, rank, j, t);
  }

  lemma EvictModels(w: seq<int>, w': seq<int>, e: nat, l: seq<int>, pos: seq<nat>, rank: seq<nat>, t: int)
    requires Models(w, e, l, pos, rank) && |l| == e > 0 && t !in l
    requires Aged(w, w', e, pos[e - 1]) && TagOf(w', pos[e - 1]) == t
    ensures Touch(l, t, e).1 == Evict && Represents(w', e, Touch(l, t, e).0)
  {
    hide Represents, Older, Aged;
    var front := [t] + l[..e - 1];
    assert front == [t] + l[..e - 1] + l[e..];
    assert Distinct(front);
    MovedModels(w, w', e, l, pos, rank, pos[e - 1], t);
  }

  lemma FillModels(w: seq<int>, w': seq<int>, e: nat, l: seq<int>, pos: seq<nat>, rank: seq<nat>, t: int)
    requires Models(w, e, l, pos, rank) && |l| < e && t !in l && Aged(w, w', |l|, |l|) && TagOf(w', |l|) == t
    ensures Touch(l, t, e).1 == Fill && Represents(w', e, Touch(l, t, e).0)
  {
    FillPlaces(w, w', e, l, pos, rank, t);
    assert Distinct([t] + l);
    hide Distinct, Older;
    assert Models(w', e, [t] + l, [|l|] + pos, Older(rank, |l|) + [0]);
  }

  lemma FillPlaces(w: seq<int>, w': seq<int>, e: nat, l: seq<int>, pos: seq<nat>, rank: seq<nat>, t: int)
    requires Models(w, e, l, pos, rank) && |l| < e && Aged(w, w', |l|, |l|) && TagOf(w', |l|) == t
    ensures var n, l', pos', rank' := |l| + 1, [t] + l, [|l|] + pos, Older(rank, |l|) + [0];
      (forall k :: 0 <= k < n ==> pos'[k] < n && rank'[pos'[k]] == k && TagOf(w', pos'[k]) == l'[k])
      && (forall i :: 0 <= i < n ==> rank'[i] < n && pos'[rank'[i]] == i && AgeOf(w', i) >= 1)
      && (forall i, j :: 0 <= i < n && 0 <= j < n && rank'[i] < rank'[j] ==> AgeOf(w', i) < AgeOf(w', j))
  {
    hide Distinct;
  }

  lemma ListSize(w: seq<int>, e: nat, l: seq<int>, pos: seq<nat>, rank: seq<nat>)
    requires Models(w, e, l, pos, rank)
    ensures |w| == 2 * e && |l| <= e && |pos| == |l| && |rank| == |l|
  {
  }

  lemma EmptyModels(w: seq<int>, e: nat)
    requires |w| == 2 * e && forall i :: 0 <= i < |w| ==> w[i] == 0
    ensures Represents(w, e, [])
  {
    assert Models(w, e, [], [], []);
  }

  lemma ZeroWindow(c: seq<int>, s: nat, e: nat, k: nat)
    requires |c| == s * 2 * e && k < s && forall i :: 0 <= i < |c| ==> c[i] == 0
    ensures 0 <= k * 2 * e && k * 2 * e + 2 * e <= s * 2 * e
    ensures Represents(c[k * 2 * e..k * 2 * e + 2 * e], e, [])
  {
    SetBounds(s, e, k);
    EmptyModels(c[k * 2 * e..k * 2 * e + 2 * e], e);
  }

  lemma SetBounds(s: nat, e: nat, k: nat)
    requires k < s
    ensures 0 <= k * 2 * e && k * 2 * e + 2 * e <= s * 2 * e
  {
    Monotone(e, k + 1, s);
    assert e * (k + 1) == e * k + e;
    assert k * 2 * e == 2 * (e * k) && s * 2 * e == 2 * (e * s);
  }

  lemma SetsApart(s: nat, e: nat, j: nat, k: nat)
    requires j < s && k < s && j != k
    ensures j * 2 * e + 2 * e <= k * 2 * e || k * 2 * e + 2 * e <= j * 2 * e
  {
    if j < k { SetBounds(k, e, j); } else { SetBounds(j, e, k); }
  }

  lemma OtherWindow(c0: seq<int>, c1: seq<int>, s: nat, e: nat, j: nat, k: nat)
    requires j < s && k < s && j != k && |c0| == |c1| == s * 2 * e
    requires forall m :: 0 <= m < |c0| && !(j * 2 * e <= m < j * 2 * e + 2 * e) ==> c1[m] == c0[m]
    ensures 0 <= k * 2 * e && k * 2 * e + 2 * e <= |c0|
    ensures c1[k * 2 * e..k * 2 * e + 2 * e] == c0[k * 2 * e..k * 2 * e + 2 * e]
  {
    SetBounds(s, e, k);
    SetsApart(s, e, j, k);
  }

  /** Set index and tag of an address, with b bytes a block. */
  function IndexOf(address: nat, s: nat, b: nat): nat
    requires s > 0 && b > 0
  {
    (address / b) % s
  }

  function TagFor(address: nat, s: nat, b: nat): nat
    requires s > 0 && b > 0
  {
    assert b * s > 0;
    address / (b * s)
  }

  /** An address is its tag, set index and offset in the block, in this order: consecutive blocks go to consecutive sets. */
  lemma AddressParts(address: nat, s: nat, b: nat)
    requires s > 0 && b > 0
    ensures IndexOf(address, s, b) < s
    ensures address == (TagFor(address, s, b) * s + IndexOf(address, s, b)) * b + address % b
  {
    DivDiv(address, b, s);
    var q := address / b;
    assert q == q / s * s + q % s;
    assert address == q * b + address % b;
  }

  /** And it has no other such parts. */
  lemma AddressPartsOnly(address: nat, s: nat, b: nat, tag: nat, index: nat, offset: nat)
    requires s > 0 && b > 0 && index < s && offset < b && address == (tag * s + index) * b + offset
    ensures tag == TagFor(address, s, b) && index == IndexOf(address, s, b) && offset == address % b
  {
    DivModUnique(address, b, tag * s + index, offset);
    DivModUnique(address / b, s, tag, index);
    DivDiv(address, b, s);
  }

  /** Index and tag together identify the block of an address, and nothing more. */
  lemma LineIsBlock(a1: nat, a2: nat, s: nat, b: nat)
    requires s > 0 && b > 0
    ensures IndexOf(a1, s, b) == IndexOf(a2, s, b) && TagFor(a1, s, b) == TagFor(a2, s, b) <==> a1 / b == a2 / b
  {
    DivDiv(a1, b, s);
    DivDiv(a2, b, s);
    var q1, q2 := a1 / b, a2 / b;
    assert q1 == q1 / s * s + q1 % s && q2 == q2 / s * s + q2 % s;
  }

  lemma DivDiv(a: nat, b: nat, s: nat)
    requires s > 0 && b > 0
    ensures b * s > 0 && a / (b * s) == a / b / s
  {
    var q, r := a / b, a % b;
    var q2, r2 := q / s, q % s;
    assert a == b * q + r && q == s * q2 + r2;
    NestedDiv(a, b, s, q, r, q2, r2);
  }

  lemma NestedDiv(a: nat, b: nat, s: nat, q: nat, r: nat, q2: nat, r2: nat)
    requires s > 0 && b > 0 && a == b * q + r && r < b && q == s * q2 + r2 && r2 < s
    ensures b * s > 0 && a / (b * s) == q2
  {
    Distribute(b, s, q2, r2, r);
    DivModUnique(a, b * s, q2, b * r2 + r);
  }

  lemma Distribute(b: nat, s: nat, x: nat, y: nat, r: nat)
    requires y < s && r < b
    ensures b * (s * x + y) + r == x * (b * s) + (b * y + r)
    ensures 0 <= b * y + r < b * s
  {
    assert b * (s * x + y) == b * (s * x) + b * y;
    assert b * (s * x) == x * (b * s);
    Monotone(b, y + 1, s);
    assert b * (y + 1) == b * y + b;
  }

  lemma Monotone(m: nat, x: nat, y: nat)
    requires x <= y
    ensures m * x <= m * y
  {
  }

  /** A trace of actions and addresses, as accesses to sets. */
  function OpsOf(trace: seq<(char, nat)>, s: nat, b: nat): (ops: seq<Op>)
    requires s > 0 && b > 0
    ensures |ops| == |trace| && Fits(ops, s)
  {
    seq(|trace|, i requires 0 <= i < |trace| => Op(trace[i].0, IndexOf(trace[i].1, s, b), TagFor(trace[i].1, s, b)))
  }

  class CacheSim {
    const S: nat
    const E: nat
    const B: nat
    const cache: array<int>
    var hitCount: nat
    var missCount: nat
    var evictionCount: nat
    ghost var lists: seq<seq<int>>

    /** The lines of set k. */
    function Window(k: nat): seq<int>
      requires k < S && cache.Length == S * 2 * E
      reads cache
    {
      SetBounds(S, E, k);
      cache[k * 2 * E..k * 2 * E + 2 * E]
    }

    ghost predicate Valid()
      reads this, cache
    {
      S > 0 && E > 0 && B > 0 && cache.Length == S * 2 * E && |lists| == S
      && forall k :: 0 <= k < S ==> Represents(Window(k), E, lists[k])
    }

    ghost function View(): Cache
      reads this
    {
      Cache(lists, hitCount, missCount, evictionCount)
    }

    constructor (s: nat, e: nat, b: nat)
      requires s > 0 && e > 0 && b > 0
      ensures Valid() && View() == Cache(Empty(s), 0, 0, 0) && S == s && E == e && B == b
    {
      S, E, B := s, e, b;
      SetBounds(s, e, 0);
      cache := new int[s * 2 * e](i => 0);
      hitCount, missCount, evictionCount := 0, 0, 0;
      lists := Empty(s);
      new;
      EmptySets(s);
      forall k | 0 <= k < S ensures Represents(Window(k), E, lists[k]) {
        ZeroWindow(cache[..], s, e, k);
        assert cache[..][k * 2 * E..k * 2 * E + 2 * E] == Window(k);
      }
    }

    /** Line i of the set at offset lo has tag and a nonzero age. */
    predicate IsHit(lo: nat, i: nat, tag: int)
      requires i < E && lo + 2 * E <= cache.Length
      reads cache
    {
      cache[lo + 2 * i] == tag && cache[lo + 2 * i + 1] != 0
    }

    predicate IsEmpty(lo: nat, i: nat)
      requires i < E && lo + 2 * E <= cache.Length
      reads cache
    {
      cache[lo + 2 * i] == 0 && cache[lo + 2 * i + 1] == 0
    }

    /** The search loop: a hit stops it; else the first empty line, and the first line of greatest age. */
    method Search(lo: nat, tag: int) returns (hit: int, miss: bool, missIn: nat, evictIn: nat)
      requires E > 0 && lo + 2 * E <= cache.Length
      ensures -1 <= hit < E && missIn < E && evictIn < E
      ensures if hit >= 0 then IsHit(lo, hit, tag) else forall i :: 0 <= i < E ==> !IsHit(lo, i, tag)
      ensures hit < 0 && miss ==> IsEmpty(lo, missIn) && forall i :: 0 <= i < missIn ==> !IsEmpty(lo, i)
      ensures hit < 0 && !miss ==> forall i :: 0 <= i < E ==> !IsEmpty(lo, i)
      ensures hit < 0 && !miss ==>
        forall i :: 0 <= i < E && cache[lo + 2 * i + 1] > 0 ==> cache[lo + 2 * i + 1] <= cache[lo + 2 * evictIn + 1]
    {
      hit, miss, missIn, evictIn := -1, false, 0, 0;
      var last := 0;
      var j := 0;
      while j < E
        invariant 0 <= j <= E && missIn < E && evictIn < E && last >= 0
        invariant forall i :: 0 <= i < j ==> !IsHit(lo, i, tag) && cache[lo + 2 * i + 1] <= last
        invariant miss ==> IsEmpty(lo, missIn) && forall i :: 0 <= i < missIn ==> !IsEmpty(lo, i)
        invariant !miss ==> forall i :: 0 <= i < j ==> !IsEmpty(lo, i)
        invariant last == 0 || last == cache[lo + 2 * evictIn + 1]
      {
        if cache[lo + 2 * j] == tag && cache[lo + 2 * j + 1] != 0 {
          hit := j;
          return;
        } else if !miss && cache[lo + 2 * j] == 0 && cache[lo + 2 * j + 1] == 0 {
          miss := true;
          missIn := j;
        } else if cache[lo + 2 * j + 1] > last {
          last := cache[lo + 2 * j + 1];
          evictIn := j;
        }
        j := j + 1;
      }
    }

    /** Make lines older, up to line n, or up to the first empty one when told to stop there. */
    method AgeLines(lo: nat, n: nat, stop: bool) returns (ghost f: nat)
      requires n <= E && lo + 2 * E <= cache.Length
      modifies cache
      ensures f <= n && (f < n ==> stop && old(cache[lo + 2 * f + 1]) == 0)
      ensures forall m :: 0 <= m < cache.Length && !(lo <= m < lo + 2 * f) ==> cache[m] == old(cache[m])
      ensures forall i :: 0 <= i < f ==> cache[lo + 2 * i] == old(cache[lo + 2 * i]) && cache[lo + 2 * i + 1] == old(cache[lo + 2 * i + 1]) + 1
      ensures stop ==> forall i :: 0 <= i < f ==> old(cache[lo + 2 * i + 1]) != 0
    {
      var j := 0;
      while j < n && (!stop || cache[lo + 2 * j + 1] != 0)
        invariant 0 <= j <= n
        invariant forall m :: 0 <= m < cache.Length && !(lo <= m < lo + 2 * j) ==> cache[m] == old(cache[m])
        invariant forall i :: 0 <= i < j ==> cache[lo + 2 * i] == old(cache[lo + 2 * i]) && cache[lo + 2 * i + 1] == old(cache[lo + 2 * i + 1]) + 1
        invariant stop ==> forall i :: 0 <= i < j ==> old(cache[lo + 2 * i + 1]) != 0
      {
        cache[lo + 2 * j + 1] := cache[lo + 2 * j + 1] + 1;
        j := j + 1;
      }
      f := j;
    }

    /** Write one access into the set at lo: older lines, then line j with tag and age 1. */
    method Renew(lo: nat, n: nat, stop: bool, j: nat, tag: int, ghost used: nat)
      requires n <= E && lo + 2 * E <= cache.Length && j < E && used <= E
      requires forall i :: 0 <= i < used ==> cache[lo + 2 * i + 1] >= 1
      requires if stop then n == E && (used < E ==> cache[lo + 2 * used + 1] == 0) else n == used
      modifies cache
      ensures forall m :: 0 <= m < cache.Length && !(lo <= m < lo + 2 * E) ==> cache[m] == old(cache[m])
      ensures Aged(old(cache[lo..lo + 2 * E]), cache[lo..lo + 2 * E], used, j) && TagOf(cache[lo..lo + 2 * E], j) == tag
    {
      ghost var f := AgeLines(lo, n, stop);
      assert f == used;
      cache[lo + 2 * j] := tag;
      cache[lo + 2 * j + 1] := 1;
      ghost var w, w' := old(cache[lo..lo + 2 * E]), cache[lo..lo + 2 * E];
      forall i | 0 <= i < E && i != j
        ensures TagOf(w', i) == TagOf(w, i) && AgeOf(w', i) == AgeOf(w, i) + if i < used then 1 else 0
      {
        assert w'[2 * i] == cache[lo + 2 * i] && w'[2 * i + 1] == cache[lo + 2 * i + 1];
      }
    }

    /** Look tag up in the set at lo; age its lines and renew the one that has or gets tag. */
    method AccessSet(index: nat, lo: nat, tag: int)
      requires Valid() && index < S && lo == index * 2 * E && lo + 2 * E <= cache.Length
      modifies cache, `hitCount, `missCount, `evictionCount
      ensures forall m :: 0 <= m < cache.Length && !(lo <= m < lo + 2 * E) ==> cache[m] == old(cache[m])
      ensures var (l, out) := Touch(lists[index], tag, E);
        Represents(cache[lo..lo + 2 * E], E, l)
        && hitCount == old(hitCount) + (if out == Hit then 1 else 0)
        && missCount == old(missCount) + (if out == Hit then 0 else 1)
        && evictionCount == old(evictionCount) + (if out == Evict then 1 else 0)
    {
      hide Models, Aged, Touch;
      assert Represents(Window(index), E, lists[index]);
      var hit, miss, missIn, evictIn := Search(lo, tag);
      ghost var w, l := Window(index), lists[index];
      ghost var pos, rank :| Models(w, E, l, pos, rank);
      ListSize(w, E, l, pos, rank);
      FoundExactly(lo, w, l, pos, rank, tag, hit, miss, missIn, evictIn);
      if hit >= 0 {
        Renew(lo, E, true, hit, tag, |l|);
        HitModels(w, cache[lo..lo + 2 * E], E, l, pos, rank, hit);
        hitCount := hitCount + 1;
      } else if miss {
        Renew(lo, missIn, false, missIn, tag, |l|);
        FillModels(w, cache[lo..lo + 2 * E], E, l, pos, rank, tag);
        missCount := missCount + 1;
      } else {
        Renew(lo, E, false, evictIn, tag, |l|);
        EvictModels(w, cache[lo..lo + 2 * E], E, l, pos, rank, tag);
        evictionCount := evictionCount + 1;
        missCount := missCount + 1;
      }
    }

    /** Simulate one access of the trace. */
    method AddressCache(action: char, address: nat)
      requires Valid()
      modifies this, cache
      ensures Valid()
      ensures View() == Access(old(View()), Op(action, IndexOf(address, S, B), TagFor(address, S, B)), E)
    {
      hide Represents, Touch;
      var index, tag := (address / B) % S, TagFor(address, S, B);
      if action == 'L' || action == 'M' || action == 'S' {
        SetBounds(S, E, index);
        ghost var c0 := cache[..];
        AccessSet(index, index * 2 * E, tag);
        if action == 'M' {
          hitCount := hitCount + 1;
        }
        lists := lists[index := Touch(lists[index], tag, E).0];
        forall k | 0 <= k < S ensures Represents(Window(k), E, lists[k]) {
          if k != index {
            OtherWindow(c0, cache[..], S, E, index, k);
            SetBounds(S, E, k);
            assert old(Represents(Window(k), E, lists[k]));
          }
        }
      }
    }

    /** Simulate a whole trace on a cold cache. */
    method Simulate(trace: seq<(char, nat)>)
      requires Valid() && View() == Cache(Empty(S), 0, 0, 0)
      modifies this, cache
      ensures Valid() && Fits(OpsOf(trace, S, B), S)
      ensures View() == Run(OpsOf(trace, S, B), S, E)
    {
      ghost var ops := OpsOf(trace, S, B);
      for i := 0 to |trace|
        invariant Valid() && View() == Run(ops[..i], S, E)
      {
        AddressCache(trace[i].0, trace[i].1);
        assert ops[..i + 1][..i] == ops[..i];
      }
      assert ops[..|trace|] == ops;
    }

    /** What the search finds, in terms of the recency list: its member, the first free line, its last member. */
    lemma FoundExactly(lo: nat, w: seq<int>, l: seq<int>, pos: seq<nat>, rank: seq<nat>, tag: int, hit: int, miss: bool, missIn: nat, evictIn: nat)
      requires lo + 2 * E <= cache.Length && w == cache[lo..lo + 2 * E] && Models(w, E, l, pos, rank) && E > 0
      requires -1 <= hit < E && missIn < E && evictIn < E
      requires if hit >= 0 then IsHit(lo, hit, tag) else forall i :: 0 <= i < E ==> !IsHit(lo, i, tag)
      requires hit < 0 && miss ==> IsEmpty(lo, missIn) && forall i :: 0 <= i < missIn ==> !IsEmpty(lo, i)
      requires hit < 0 && !miss ==> forall i :: 0 <= i < E ==> !IsEmpty(lo, i)
      requires hit < 0 && !miss ==>
        forall i :: 0 <= i < E && cache[lo + 2 * i + 1] > 0 ==> cache[lo + 2 * i + 1] <= cache[lo + 2 * evictIn + 1]
      ensures forall i :: 0 <= i < |l| ==> cache[lo + 2 * i + 1] >= 1
      ensures |l| < E ==> cache[lo + 2 * |l| + 1] == 0
      ensures hit >= 0 ==> hit < |l| && TagOf(w, hit) == tag
      ensures hit < 0 ==> tag !in l
      ensures hit < 0 && miss ==> missIn == |l| < E
      ensures hit < 0 && !miss ==> |l| == E && evictIn == pos[E - 1]
    {
      forall i | 0 <= i < |l| ensures cache[lo + 2 * i + 1] >= 1 { assert AgeOf(w, i) >= 1; }
      forall i | |l| <= i < E ensures cache[lo + 2 * i + 1] == 0 && IsEmpty(lo, i) {
        assert TagOf(w, i) == 0 && AgeOf(w, i) == 0;
      }
      if |l| < E { assert IsEmpty(lo, |l|); }
      if hit < 0 {
        forall k | 0 <= k < |l| ensures l[k] != tag {
          assert !IsHit(lo, pos[k], tag) && AgeOf(w, pos[k]) >= 1;
        }
        if !miss {
          var j := pos[E - 1];
          assert AgeOf(w, j) >= 1 && cache[lo + 2 * j + 1] >= 1 && pos[rank[evictIn]] == evictIn;
          forall i | 0 <= i < E && rank[i] < rank[j] ensures cache[lo + 2 * i + 1] < cache[lo + 2 * j + 1] {
            assert AgeOf(w, i) < AgeOf(w, j);
          }
        }
      }
    }
  }
}
