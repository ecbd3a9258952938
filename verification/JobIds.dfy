/** Job ids in lab9/tsh.c: what nextjid is worth over every run of the shell. */
module JobIds {
  import opened Prelude
  import opened JobList
  import opened Shell

  predicate JidInUse(slots: seq<Job>, jid: int) {
    exists k :: 0 <= k < |slots| && slots[k].pid != 0 && slots[k].jid == jid
  }

  ghost predicate DistinctJids(slots: seq<Job>) {
    forall i, j :: 0 <= i < j < |slots| && slots[i].pid != 0 && slots[j].pid != 0 ==> slots[i].jid != slots[j].jid
  }

  /** Jobs have positive ids and other slots 0. */
  ghost predicate JidsFit(t: Jobs) {
    t.nextjid >= 1 && forall k :: 0 <= k < |t.slots| ==> if t.slots[k].pid == 0 then t.slots[k].jid == 0 else t.slots[k].jid >= 1
  }

  /** The next id is beyond them all. */
  ghost predicate Beyond(t: Jobs) {
    forall k :: 0 <= k < |t.slots| ==> t.slots[k].jid < t.nextjid
  }

  /** A deletion makes the next id one more than the largest in use, and touches no other job's. */
  lemma DeleteJids(t: Jobs, pid: int)
    requires JidsFit(t) && DistinctPids(t.slots)
    ensures var d := Delete(t, pid).0;
      JidsFit(d) && |d.slots| == |t.slots| && (DistinctJids(t.slots) ==> DistinctJids(d.slots))
      && (d != t ==> Beyond(d) && (d.nextjid == 1 || JidInUse(d.slots, d.nextjid - 1)))
      && forall k :: 0 <= k < |t.slots| && t.slots[k].pid != pid ==> d.slots[k].jid == t.slots[k].jid
  {
  }

  /** The new job gets the next id; ids still differ exactly if they did and that one was free, as it is while the next id is beyond them all:
      until it begins again at 1. */
  lemma AddJids(t: Jobs, pid: int, state: JobState)
    requires JidsFit(t) && Add(t, pid, state).1
    ensures var a := Add(t, pid, state).0;
      JidsFit(a) && (DistinctJids(a.slots) <==> DistinctJids(t.slots) && !JidInUse(t.slots, t.nextjid))
      && (Beyond(t) ==> !JidInUse(t.slots, t.nextjid) && (Beyond(a) || (a.nextjid == 1 && t.nextjid >= MAXJOBS)))
      && exists i :: 0 <= i < |t.slots| && t.slots[i].pid == 0 && a.slots == t.slots[i := Job(pid, t.nextjid, state)]
  {
    var a := Add(t, pid, state).0;
    var i := FirstPid(t.slots, 0, 0);
    assert a.slots == t.slots[i := Job(pid, t.nextjid, state)];
    if DistinctJids(a.slots) {
      forall k | 0 <= k < |t.slots| && t.slots[k].pid != 0 ensures t.slots[k].jid != t.nextjid {
        assert k != i && a.slots[k] == t.slots[k] && a.slots[i].jid == t.nextjid && a.slots[i].pid != 0;
      }
      forall k, l | 0 <= k < l < |t.slots| && t.slots[k].pid != 0 && t.slots[l].pid != 0 ensures t.slots[k].jid != t.slots[l].jid {
        assert a.slots[k] == t.slots[k] && a.slots[l] == t.slots[l];
      }
    }
  }

  lemma {:induction false} HandleKeepsJids(s: Sys, es: seq<Event>)
    requires Inv(s) && JidsFit(s.jobs) && !s.pc.Forked? && Handle(s, es).Some?
    ensures JidsFit(Handle(s, es).value.jobs)
    ensures DistinctJids(s.jobs.slots) ==> DistinctJids(Handle(s, es).value.jobs.slots)
    decreases |es|
  {
    if es != [] {
      ReapKeeps(s, es[0]);
      ReapKeepsJids(s.jobs, es[0]);
      hide Inv, JidsFit, DistinctJids;
      HandleKeepsJids(Reported(s, es[0]), es[1..]);
    }
  }

  lemma ReapKeepsJids(t: Jobs, e: Event)
    requires JidsFit(t) && DistinctPids(t.slots)
    ensures JidsFit(Reap(t, e)) && (DistinctJids(t.slots) ==> DistinctJids(Reap(t, e).slots))
  {
    if e.kind == Stopped { SetStateKeepsJids(t, Find(t, e.pid), ST); } else { DeleteJids(t, e.pid); }
  }

  lemma SetStateKeepsJids(t: Jobs, i: int, state: JobState)
    requires JidsFit(t)
    ensures JidsFit(SetState(t, i, state)) && (DistinctJids(t.slots) ==> DistinctJids(SetState(t, i, state).slots))
  {
  }

  /** eval is about to give out an id that a job still has. */
  predicate Clashes(s: Sys) {
    s.pc.Forked? && s.pc.pid >= 1 && JidInUse(s.jobs.slots, s.jobs.nextjid) && FirstPid(s.jobs.slots, 0, 0) < |s.jobs.slots|
  }

  lemma NextKeepsJids(s: Sys, a: Action)
    requires Inv(s) && JidsFit(s.jobs) && Next(s, a, true).Some?
    ensures JidsFit(Next(s, a, true).value.jobs)
    ensures DistinctJids(s.jobs.slots) ==> (DistinctJids(Next(s, a, true).value.jobs.slots) <==> !(a == Go && Clashes(s)))
  {
    if a.Deliver? {
      HandleKeepsJids(s, a.events);
    } else if a == Go && s.pc.Forked? {
      var state := if s.pc.bg then BG else FG;
      if Add(s.jobs, s.pc.pid, state).1 { AddJids(s.jobs, s.pc.pid, state); }
    } else if a == Go && s.pc.Continued? {
      SetStateKeepsJids(s.jobs, s.pc.slot, if s.pc.fg then FG else BG);
    }
  }

  ghost predicate ClashFree(s: Sys, acts: seq<Action>)
    decreases |acts|
  {
    acts != [] ==> !(acts[0] == Go && Clashes(s)) && (Next(s, acts[0], true).Some? ==> ClashFree(Next(s, acts[0], true).value, acts[1..]))
  }

  /** In every run ids are positive; jobs have different ids as long as no id is given out twice. */
  lemma {:induction false} RunKeepsJids(s: Sys, acts: seq<Action>)
    requires Inv(s) && JidsFit(s.jobs) && Run(s, acts, true).Some?
    ensures JidsFit(Run(s, acts, true).value.jobs)
    ensures DistinctJids(s.jobs.slots) && ClashFree(s, acts) ==> DistinctJids(Run(s, acts, true).value.jobs.slots)
    decreases |acts|
  {
    if acts != [] {
      NextKeeps(s, acts[0]);
      NextKeepsJids(s, acts[0]);
      hide Next, Inv, JidsFit, DistinctJids, Clashes;
      RunKeepsJids(Next(s, acts[0], true).value, acts[1..]);
    }
  }

  lemma EveryRunKeepsIds(acts: seq<Action>)
    requires Run(INITIAL, acts, true).Some?
    ensures var t := Run(INITIAL, acts, true).value.jobs; JidsFit(t) && (ClashFree(INITIAL, acts) ==> DistinctJids(t.slots))
  {
    InitialInv();
    hide Run, Inv, ClashFree;
    RunKeepsJids(INITIAL, acts);
  }

  // ---------- an id given out twice ----------

  /** The table with background jobs 1 to n, each under its own pid. */
  function Filled(n: nat): Jobs
    requires n <= MAXJOBS
  {
    Jobs(seq(MAXJOBS, i requires 0 <= i => if i < n then Job(i + 1, i + 1, BG) else CLEARED), if n == MAXJOBS then 1 else n + 1)
  }

  function UpTo(n: nat): (ps: set<int>)
    ensures forall p :: p in ps <==> 1 <= p <= n
  {
    if n == 0 then {} else UpTo(n - 1) + {n}
  }

  /** eval runs one background job to the end. */
  lemma RunJob(t: Jobs, live: set<int>, pid: int)
    requires Reached(Sys(t, Prompt, live, {}, {}, {}), true) && pid >= 1 && pid !in live && Add(t, pid, BG).1
    ensures Reached(Sys(Add(t, pid, BG).0, Prompt, live + {pid}, {}, {}, {}), true)
  {
    hide Add;
    var u, now := Add(t, pid, BG).0, live + {pid};
    ReachNext(Sys(t, Prompt, live, {}, {}, {}), Fork(pid, true), Sys(t, Forked(pid, true), now, {}, {}, {}), true);
    ReachNext(Sys(t, Forked(pid, true), now, {}, {}, {}), Go, Sys(u, Added(pid, true), now, {}, {}, {}), true);
    ReachNext(Sys(u, Added(pid, true), now, {}, {}, {}), Go, Sys(u, Prompt, now, {}, {}, {}), true);
  }

  lemma FirstIs(slots: seq<Job>, pid: int, i: nat)
    requires i < |slots| && slots[i].pid == pid && forall k :: 0 <= k < i ==> slots[k].pid != pid
    ensures FirstPid(slots, pid, 0) == i
  {
  }

  lemma {:induction false} FillUp(n: nat)
    requires n <= MAXJOBS
    ensures Reached(Sys(Filled(n), Prompt, UpTo(n), {}, {}, {}), true)
  {
    ReachInitial(true);
    if n == 0 {
      assert INITIAL.jobs.slots == Filled(0).slots;
      assert UpTo(0) == {};
    } else {
      FillUp(n - 1);
      var t := Filled(n - 1);
      FirstIs(t.slots, 0, n - 1);
      assert t.slots[n - 1 := Job(n, n, BG)] == Filled(n).slots by {
        forall k | 0 <= k < MAXJOBS ensures t.slots[n - 1 := Job(n, n, BG)][k] == Filled(n).slots[k] {}
      }
      RunJob(t, UpTo(n - 1), n);
    }
  }

  /** The full table without jobs 2 and 3. */
  function TwoFree(): Jobs {
    Jobs(Filled(MAXJOBS).slots[1 := CLEARED][2 := CLEARED], 17)
  }

  lemma TwoEnd(s: Sys) returns (t: Sys)
    requires s == Sys(Filled(MAXJOBS), Prompt, UpTo(MAXJOBS), {}, {}, {})
    ensures t == Sys(TwoFree(), Prompt, t.live, {}, {}, {}) && 17 !in t.live && 18 !in t.live
    ensures Handle(s, [Event(2, Exited), Event(3, Exited)]) == Some(t)
  {
    var u := Reported(s, Event(2, Exited));
    t := Reported(u, Event(3, Exited));
    FirstIs(s.jobs.slots, 2, 1);
    assert u.jobs.slots == Filled(MAXJOBS).slots[1 := CLEARED];
    FirstIs(u.jobs.slots, 3, 2);
    assert t.jobs == TwoFree() by {
      assert t.jobs.slots[15].jid == 16;
    }
    assert {} - {2} == {} && {} - {3} == {};
    hide Reported;
    var es := [Event(2, Exited), Event(3, Exited)];
    assert es[1..] == [Event(3, Exited)] && [Event(3, Exited)][1..] == [];
    assert Handle(t, []) == Some(t);
    assert Handle(u, es[1..]) == Some(t);
  }

  lemma TwoMore()
    ensures var t := Add(TwoFree(), 17, BG); var u := Add(t.0, 18, BG);
      t.1 && u.1 && |u.0.slots| == MAXJOBS && u.0.slots[0] == Job(1, 1, BG) && u.0.slots[2] == Job(18, 1, BG)
  {
    var t := Add(TwoFree(), 17, BG).0;
    FirstIs(TwoFree().slots, 0, 1);
    FirstIs(t.slots, 0, 2);
  }

  /** With the table full, jobs 2 and 3 end; two new jobs get the ids 17 and 1, and 1 is still in use. */
  lemma IdsCanRepeat()
    ensures exists s :: Reached(s, true) && s.pc == Prompt && |s.jobs.slots| == MAXJOBS
                        && s.jobs.slots[0] == Job(1, 1, BG) && s.jobs.slots[2] == Job(18, 1, BG)
  {
    FillUp(MAXJOBS);
    var s := Sys(Filled(MAXJOBS), Prompt, UpTo(MAXJOBS), {}, {}, {});
    var t := TwoEnd(s);
    TwoMore();
    hide Add, Filled, TwoFree;
    ReachNext(s, Deliver([Event(2, Exited), Event(3, Exited)]), t, true);
    RunJob(TwoFree(), t.live, 17);
    RunJob(Add(TwoFree(), 17, BG).0, t.live + {17}, 18);
  }
}
