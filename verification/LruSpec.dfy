/** Least-recently-used replacement on values, and what it guarantees over whole traces. */
module LruSpec {
  import opened Prelude

  datatype Outcome = Hit | Fill | Evict

  function Without(l: seq<int>, t: int): seq<int> {
    if l == [] then [] else if l[0] == t then l[1..] else [l[0]] + Without(l[1..], t)
  }

  function Take(l: seq<int>, n: nat): seq<int> {
    if |l| <= n then l else l[..n]
  }

  /** One access to a set of at most e lines, most recent tag first. */
  function Touch(l: seq<int>, t: int, e: nat): (seq<int>, Outcome) {
    if t in l then ([t] + Without(l, t), Hit)
    else if |l| < e then ([t] + l, Fill)
    else ([t] + Take(l, if e > 0 then e - 1 else 0), Evict)
  }

  /** The distinct tags of a trace, most recently used first. */
  function Recent(ts: seq<int>): seq<int> {
    if ts == [] then [] else [ts[|ts| - 1]] + Without(Recent(ts[..|ts| - 1]), ts[|ts| - 1])
  }

  lemma {:induction false} WithoutAt(l: seq<int>, t: int, r: nat)
    requires Distinct(l) && r < |l| && l[r] == t
    ensures Without(l, t) == l[..r] + l[r + 1..]
  {
    if r > 0 {
      assert l[0] != t;
      assert forall i :: 0 <= i < |l| - 1 ==> l[1..][i] == l[i + 1];
      WithoutAt(l[1..], t, r - 1);
    }
  }

  lemma {:induction false} WithoutAbsent(l: seq<int>, t: int)
    requires t !in l
    ensures Without(l, t) == l
  {
    if l != [] { WithoutAbsent(l[1..], t); }
  }

  /** What cutting out place r leaves. */
  lemma CutExact(l: seq<int>, r: nat)
    requires Distinct(l) && r < |l|
    ensures var c := l[..r] + l[r + 1..]; Distinct(c) && forall x :: x in c <==> x in l && x != l[r]
  {
    var c := l[..r] + l[r + 1..];
    forall i | 0 <= i < |c| ensures c[i] in l && c[i] != l[r] {
      assert c[i] == l[if i < r then i else i + 1];
    }
    forall i | 0 <= i < |l| && i != r ensures l[i] in c {
      assert c[if i < r then i else i - 1] == l[i];
    }
  }

  lemma WithoutExact(l: seq<int>, t: int)
    requires Distinct(l)
    ensures Distinct(Without(l, t)) && forall x :: x in Without(l, t) <==> x in l && x != t
    ensures |Without(l, t)| == |l| - if t in l then 1 else 0
  {
    hide Without, Distinct;
    if t in l {
      var r :| 0 <= r < |l| && l[r] == t;
      WithoutAt(l, t, r);
      CutExact(l, r);
    } else {
      WithoutAbsent(l, t);
    }
  }

  lemma TouchKeeps(l: seq<int>, t: int, e: nat)
    requires Distinct(l) && |l| <= e && e > 0
    ensures Distinct(Touch(l, t, e).0) && |Touch(l, t, e).0| <= e && Touch(l, t, e).0[0] == t
    ensures |Touch(l, t, e).0| == |l| + if Touch(l, t, e).1 == Fill then 1 else 0
  {
    WithoutExact(l, t);
  }

  /** Taking first or cutting out first is the same, for a place within what is taken. */
  lemma TakeWithin(l: seq<int>, t: int, r: nat, e: nat)
    requires Distinct(l) && r < |l| && l[r] == t && r < e
    ensures t in Take(l, e) && Without(Take(l, e), t) == Take(Without(l, t), e - 1)
  {
    hide Without;
    var f := Take(l, e);
    assert forall i :: 0 <= i < |f| ==> f[i] == l[i];
    assert f[r] == t && Distinct(f);
    WithoutAt(l, t, r);
    WithoutAt(f, t, r);
    hide Distinct;
    assert f[..r] == l[..r];
    assert f[r + 1..] == Take(l[r + 1..], e - 1 - r);
  }

  /** And beyond it nothing taken changes. */
  lemma TakeBefore(l: seq<int>, t: int, r: nat, e: nat)
    requires Distinct(l) && r < |l| && l[r] == t && 0 < e <= r
    ensures t !in Take(l, e) && Take(Take(l, e), e - 1) == Take(Without(l, t), e - 1)
  {
    hide Without;
    WithoutAt(l, t, r);
    assert forall i :: 0 <= i < r ==> l[i] != l[r];
    hide Distinct;
    assert (l[..r] + l[r + 1..])[..e - 1] == l[..e - 1];
  }

  lemma TakeWithout(l: seq<int>, t: int, r: nat, e: nat)
    requires Distinct(l) && r < |l| && l[r] == t && e > 0
    ensures t in Take(l, e) <==> r < e
    ensures if r < e then Without(Take(l, e), t) == Take(Without(l, t), e - 1)
            else Take(Take(l, e), e - 1) == Take(Without(l, t), e - 1)
  {
    hide Without, Take, Distinct;
    if r < e { TakeWithin(l, t, r, e); } else { TakeBefore(l, t, r, e); }
  }

  /** Keeping the e most recent of everything is what one access with e lines does. */
  lemma TouchTakes(l: seq<int>, t: int, e: nat)
    requires Distinct(l) && e > 0
    ensures Touch(Take(l, e), t, e).0 == Take([t] + Without(l, t), e)
    ensures Touch(Take(l, e), t, e).1 == Hit <==> t in Take(l, e)
  {
    var w := Without(l, t);
    assert Take([t] + w, e) == [t] + Take(w, e - 1);
    if t in l {
      var r :| 0 <= r < |l| && l[r] == t;
      TakeWithout(l, t, r, e);
      hide Without, Distinct;
    } else {
      WithoutAbsent(l, t);
      hide Without, Distinct;
    }
  }

  lemma {:induction false} RecentDistinct(ts: seq<int>)
    ensures Distinct(Recent(ts)) && forall x :: x in Recent(ts) <==> x in ts
  {
    if ts != [] {
      var q, t := ts[..|ts| - 1], ts[|ts| - 1];
      RecentDistinct(q);
      WithoutExact(Recent(q), t);
      assert ts == q + [t];
    }
  }

  /** The position of the last use of x. */
  function LastUse(ts: seq<int>, x: int): int {
    if ts == [] then -1 else if ts[|ts| - 1] == x then |ts| - 1 else LastUse(ts[..|ts| - 1], x)
  }

  lemma {:induction false} LastUseBound(ts: seq<int>, x: int)
    ensures LastUse(ts, x) < |ts|
  {
    if ts != [] && ts[|ts| - 1] != x { LastUseBound(ts[..|ts| - 1], x); }
  }

  /** Removing t leaves other elements, in their order. */
  lemma WithoutOrder(l: seq<int>, t: int, i: nat, j: nat) returns (i': nat, j': nat)
    requires Distinct(l) && i < j < |Without(l, t)|
    ensures i' < j' < |l| && l[i'] == Without(l, t)[i] != t && l[j'] == Without(l, t)[j] != t
  {
    if t in l {
      var k :| 0 <= k < |l| && l[k] == t;
      WithoutAt(l, t, k);
      i', j' := if i < k then i else i + 1, if j < k then j else j + 1;
    } else {
      WithoutAbsent(l, t);
      i', j' := i, j;
    }
  }

  lemma WithoutOther(l: seq<int>, t: int, j: nat)
    requires Distinct(l) && j < |Without(l, t)|
    ensures Without(l, t)[j] != t
  {
    WithoutExact(l, t);
    assert Without(l, t)[j] in Without(l, t);
  }

  /** Recent is ordered by last use, latest first. */
  lemma {:induction false} RecentByLastUse(ts: seq<int>, i: nat, j: nat)
    requires i < j < |Recent(ts)|
    ensures LastUse(ts, Recent(ts)[i]) > LastUse(ts, Recent(ts)[j])
    decreases |ts|
  {
    var q, t := ts[..|ts| - 1], ts[|ts| - 1];
    var r := Recent(q);
    assert Distinct(r) by { RecentDistinct(q); }
    var w := Without(r, t);
    assert Recent(ts) == [t] + w;
    hide Recent, Without, Distinct;
    if i == 0 {
      WithoutOther(r, t, j - 1);
      LastUseBound(q, w[j - 1]);
    } else {
      var i', j' := WithoutOrder(r, t, i - 1, j - 1);
      RecentByLastUse(q, i', j');
    }
  }

  // ---------- a cache of s sets ----------

  datatype Op = Op(action: char, index: nat, tag: int)

  /** The tag lists of the sets, and the three counters. */
  datatype Cache = Cache(lists: seq<seq<int>>, hits: nat, misses: nat, evictions: nat)

  predicate Known(action: char) {
    action == 'L' || action == 'M' || action == 'S'
  }

  /** One line of a trace; a modification stores after its load and always hits then. */
  function Access(c: Cache, o: Op, e: nat): Cache
    requires o.index < |c.lists|
  {
    if !Known(o.action) then c
    else
      var (l, out) := Touch(c.lists[o.index], o.tag, e);
      Cache(c.lists[o.index := l],
            c.hits + (if out == Hit then 1 else 0) + (if o.action == 'M' then 1 else 0),
            c.misses + (if out == Hit then 0 else 1),
            c.evictions + (if out == Evict then 1 else 0))
  }

  predicate Fits(ops: seq<Op>, s: nat) {
    forall i :: 0 <= i < |ops| ==> ops[i].index < s
  }

  /** s sets without lines. */
  function Empty(s: nat): (r: seq<seq<int>>)
    ensures |r| == s
  {
    if s == 0 then [] else [[]] + Empty(s - 1)
  }

  function Run(ops: seq<Op>, s: nat, e: nat): (c: Cache)
    requires Fits(ops, s)
    ensures |c.lists| == s
  {
    if ops == [] then Cache(Empty(s), 0, 0, 0)
    else Access(Run(ops[..|ops| - 1], s, e), ops[|ops| - 1], e)
  }

  /** The tags that a trace uses in set k. */
  function TagsIn(ops: seq<Op>, k: nat): seq<int> {
    if ops == [] then []
    else
      var o := ops[|ops| - 1];
      TagsIn(ops[..|ops| - 1], k) + if Known(o.action) && o.index == k then [o.tag] else []
  }

  /** After any trace, a set holds exactly the e most recently used tags of its own accesses. */
  lemma {:induction false} SetHoldsRecent(ops: seq<Op>, s: nat, e: nat, k: nat)
    requires Fits(ops, s) && k < s && e > 0
    ensures Run(ops, s, e).lists[k] == Take(Recent(TagsIn(ops, k)), e)
  {
    if ops == [] {
      EmptySets(s);
    } else {
      var q, o := ops[..|ops| - 1], ops[|ops| - 1];
      SetHoldsRecent(q, s, e, k);
      if Known(o.action) && o.index == k {
        var ts := TagsIn(q, k);
        RecentDistinct(ts);
        TouchTakes(Recent(ts), o.tag, e);
        assert (ts + [o.tag])[..|ts|] == ts;
      } else {
        assert TagsIn(ops, k) == TagsIn(q, k);
      }
    }
  }

  /** Inclusion: with one more way every set holds at least the same tags, and more accesses hit. */
  lemma {:induction false} MoreWaysIncludeFewer(ops: seq<Op>, s: nat, e: nat)
    requires Fits(ops, s) && e > 0
    ensures forall k, t :: 0 <= k < s && t in Run(ops, s, e).lists[k] ==> t in Run(ops, s, e + 1).lists[k]
    ensures Run(ops, s, e).hits <= Run(ops, s, e + 1).hits
    ensures Run(ops, s, e).misses >= Run(ops, s, e + 1).misses
  {
    forall k, t | 0 <= k < s && t in Run(ops, s, e).lists[k] ensures t in Run(ops, s, e + 1).lists[k] {
      SetHoldsRecent(ops, s, e, k);
      SetHoldsRecent(ops, s, e + 1, k);
    }
    if ops != [] {
      var q, o := ops[..|ops| - 1], ops[|ops| - 1];
      MoreWaysIncludeFewer(q, s, e);
      assert o.tag in Run(q, s, e).lists[o.index] ==> o.tag in Run(q, s, e + 1).lists[o.index];
    }
  }

  function Count(ops: seq<Op>, a: char): nat {
    if ops == [] then 0 else Count(ops[..|ops| - 1], a) + if ops[|ops| - 1].action == a then 1 else 0
  }

  function Total(lists: seq<seq<int>>): nat {
    if lists == [] then 0 else |lists[0]| + Total(lists[1..])
  }

  lemma {:induction false} TotalUpdate(lists: seq<seq<int>>, k: nat, l: seq<int>)
    requires k < |lists|
    ensures Total(lists[k := l]) == Total(lists) - |lists[k]| + |l|
  {
    if k == 0 {
      assert lists[0 := l][1..] == lists[1..];
    } else {
      assert lists[k := l][1..] == lists[1..][k - 1 := l];
      TotalUpdate(lists[1..], k - 1, l);
    }
  }

  lemma {:induction false} TotalBound(lists: seq<seq<int>>, e: nat)
    requires forall k :: 0 <= k < |lists| ==> |lists[k]| <= e
    ensures Total(lists) <= |lists| * e
  {
    if lists != [] { TotalBound(lists[1..], e); }
  }

  lemma {:induction false} EmptySets(s: nat)
    ensures Total(Empty(s)) == 0 && forall k :: 0 <= k < s ==> Empty(s)[k] == []
  {
    if s > 0 {
      assert Empty(s)[1..] == Empty(s - 1);
      EmptySets(s - 1);
    }
  }

  /** The counters account for every access and every occupied line. */
  lemma {:induction false} CountersAccount(ops: seq<Op>, s: nat, e: nat)
    requires Fits(ops, s) && e > 0
    ensures var c := Run(ops, s, e);
      c.hits + c.misses == Count(ops, 'L') + Count(ops, 'S') + 2 * Count(ops, 'M')
      && c.misses - c.evictions == Total(c.lists) && Total(c.lists) <= s * e
  {
    var c := Run(ops, s, e);
    forall k | 0 <= k < s ensures |c.lists[k]| <= e { SetHoldsRecent(ops, s, e, k); }
    TotalBound(c.lists, e);
    if ops == [] {
      EmptySets(s);
    } else {
      var q, o := ops[..|ops| - 1], ops[|ops| - 1];
      CountersAccount(q, s, e);
      if Known(o.action) {
        var l := Run(q, s, e).lists[o.index];
        SetHoldsRecent(q, s, e, o.index);
        RecentDistinct(TagsIn(q, o.index));
        TouchKeeps(l, o.tag, e);
        TotalUpdate(Run(q, s, e).lists, o.index, Touch(l, o.tag, e).0);
      }
    }
  }
}
