/** Job control in lab9/tsh.c: the main loop, cut wherever SIGCHLD may arrive, interleaved with its handler and the kernel's children. */
module Shell {
  import opened Prelude
  import opened JobList

  /** Where the main loop is. */
  datatype Pc =
    | Prompt
    | Forked(pid: int, bg: bool)       // eval: fork has returned, SIGCHLD is blocked
    | Added(pid: int, bg: bool)        // eval: addjob has returned, SIGCHLD is still blocked
    | Found(slot: nat, fg: bool)       // do_bgfg: holds a pointer to a slot
    | Continued(slot: nat, fg: bool)   // do_bgfg: SIGCONT sent
    | Marked(slot: nat)                // do_bgfg: state set to FG, job->pid not yet read
    | Scan(pid: int, i: nat)           // waitfg(pid): fgpid is about to look at slot i
    | Hit(pid: int, i: nat)            // waitfg(pid): fgpid saw FG in slot i, its pid is not yet read
    | Dead                             // after unix_error

  /** live: children not yet reaped; lost: those for which the table had no room; stopped: those to which a stop was the last thing to happen;
      late: stopped ones whose stop was reported between SIGCONT and the state that bg or fg then set. */
  datatype Sys = Sys(jobs: Jobs, pc: Pc, live: set<int>, lost: set<int>, stopped: set<int>, late: set<int>)

  datatype Action =
    | Deliver(events: seq<Event>)
    | Fork(pid: int, bg: bool)
    | FindJob(slot: nat, fg: bool)
    | SendCont(ok: bool)
    | Go

  const INITIAL: Sys := Sys(Jobs([CLEARED, CLEARED, CLEARED, CLEARED, CLEARED, CLEARED, CLEARED, CLEARED,
                                  CLEARED, CLEARED, CLEARED, CLEARED, CLEARED, CLEARED, CLEARED, CLEARED], 1), Prompt, {}, {}, {}, {})

  function Fresh(e: Event, live: set<int>): set<int> {
    if e.kind == Stopped then live else live - {e.pid}
  }

  /** One report of the handler. */
  function Reported(s: Sys, e: Event): Sys {
    Sys(Reap(s.jobs, e), s.pc, Fresh(e, s.live), Fresh(e, s.lost),
        if e.kind == Stopped then s.stopped + {e.pid} else s.stopped - {e.pid}, s.late - {e.pid})
  }

  /** The pid in a slot, which is 0 once its child is reaped. */
  function PidIn(s: Sys, slot: nat): int {
    if slot < |s.jobs.slots| then s.jobs.slots[slot].pid else 0
  }

  /** The handler reports children one by one, each not yet reaped; None if the kernel cannot report so. */
  function Handle(s: Sys, es: seq<Event>): Option<Sys>
    decreases |es|
  {
    if es == [] then Some(s)
    else if es[0].pid !in s.live then None
    else Handle(Reported(s, es[0]), es[1..])
  }

  /** The next state, or None where the action cannot happen. blocking: eval blocks SIGCHLD from fork to addjob. */
  function Next(s: Sys, a: Action, blocking: bool): Option<Sys> {
    match a
    case Deliver(es) =>
      if s.pc == Dead || (blocking && (s.pc.Forked? || s.pc.Added?)) then None else Handle(s, es)
    case Fork(pid, bg) =>
      if s.pc != Prompt || pid in s.live || (pid < 1 && pid != -1) then None
      else Some(s.(pc := Forked(pid, bg), live := if pid == -1 then s.live else s.live + {pid}))
    case FindJob(slot, fg) =>
      if s.pc != Prompt || slot >= |s.jobs.slots| || s.jobs.slots[slot].pid < 1 then None
      else Some(s.(pc := Found(slot, fg)))
    case SendCont(ok) =>
      if !s.pc.Found? then None
      else if !ok then Some(s.(pc := Dead))
      else
        var pid := PidIn(s, s.pc.slot);
        Some(s.(pc := Continued(s.pc.slot, s.pc.fg), stopped := s.stopped - {pid}, late := s.late - {pid}))
    case Go => Advance(s)
  }

  /** The step that only the shell itself decides. */
  function Advance(s: Sys): Option<Sys> {
    match s.pc
    case Forked(pid, bg) =>
      var (t, added) := Add(s.jobs, pid, if bg then BG else FG);
      Some(s.(jobs := t, pc := Added(pid, bg), lost := if added || pid < 1 then s.lost else s.lost + {pid}))
    case Added(pid, bg) => Some(s.(pc := if bg then Prompt else Scan(pid, 0)))
    case Continued(slot, fg) =>
      Some(s.(jobs := SetState(s.jobs, slot, if fg then FG else BG), pc := if fg then Marked(slot) else Prompt,
              late := if PidIn(s, slot) in s.stopped then s.late + {PidIn(s, slot)} else s.late))
    case Marked(slot) =>
      if slot < |s.jobs.slots| then Some(s.(pc := Scan(s.jobs.slots[slot].pid, 0))) else None
    case Scan(pid, i) =>
      if i < |s.jobs.slots| then Some(s.(pc := if s.jobs.slots[i].state == FG then Hit(pid, i) else Scan(pid, i + 1)))
      else Some(s.(pc := if pid == 0 then Scan(pid, 0) else Prompt))
    case Hit(pid, i) =>
      if i < |s.jobs.slots| then Some(s.(pc := if s.jobs.slots[i].pid == pid then Scan(pid, 0) else Prompt)) else None
    case _ => None
  }

  function Run(s: Sys, acts: seq<Action>, blocking: bool): Option<Sys>
    decreases |acts|
  {
    if acts == [] then Some(s)
    else match Next(s, acts[0], blocking)
         case None => None
         case Some(t) => Run(t, acts[1..], blocking)
  }

  // ---------- what every run keeps ----------

  function Pids(slots: seq<Job>): set<int> {
    set j | j in slots && j.pid != 0 :: j.pid
  }

  /** The child that has been forked but not yet added. */
  function Pending(pc: Pc): set<int> {
    if pc.Forked? && pc.pid >= 1 then {pc.pid} else {}
  }

  ghost predicate DistinctPids(slots: seq<Job>) {
    forall i, j :: 0 <= i < j < |slots| && slots[i].pid == slots[j].pid ==> slots[i].pid == 0
  }

  /** Used slots hold distinct children; those, the lost ones and the pending one are all the children there are. */
  ghost predicate Honest(s: Sys) {
    |s.jobs.slots| == MAXJOBS && DistinctPids(s.jobs.slots)
    && (forall p :: p in s.live ==> p >= 1)
    && s.live == Pids(s.jobs.slots) + s.lost + Pending(s.pc)
    && Pids(s.jobs.slots) !! s.lost && Pids(s.jobs.slots) + s.lost !! Pending(s.pc)
  }

  ghost predicate OneFg(slots: seq<Job>) {
    forall i, j :: 0 <= i < j < |slots| ==> !(slots[i].state == FG && slots[j].state == FG)
  }

  ghost predicate NoFg(slots: seq<Job>) {
    forall j :: 0 <= j < |slots| ==> slots[j].state != FG
  }

  /** Every foreground slot lies at or after i and has this pid. */
  ghost predicate FgOnly(slots: seq<Job>, pid: int, i: int) {
    forall j :: 0 <= j < |slots| && slots[j].state == FG ==> i <= j && slots[j].pid == pid
  }

  ghost predicate FgFits(s: Sys) {
    var slots := s.jobs.slots;
    match s.pc
    case Prompt => NoFg(slots)
    case Forked(_, _) => NoFg(slots)
    case Added(pid, bg) => FgOnly(slots, pid, 0) && (bg ==> NoFg(slots))
    case Found(slot, _) => NoFg(slots) && slot < |slots|
    case Continued(slot, _) => NoFg(slots) && slot < |slots|
    case Marked(slot) => slot < |slots| && forall j :: 0 <= j < |slots| && slots[j].state == FG ==> j == slot
    case Scan(pid, i) => FgOnly(slots, pid, if pid == 0 then 0 else i)
    case Hit(pid, i) => i < |slots| && FgOnly(slots, pid, 0) && if pid == 0 then slots[i].pid == 0 else forall j :: 0 <= j < |slots| && slots[j].state == FG ==> j == i
    case Dead => NoFg(slots)
  }

  ghost predicate Inv(s: Sys) {
    Honest(s) && OneFg(s.jobs.slots) && FgFits(s)
  }

  lemma DeletePids(t: Jobs, pid: int)
    requires pid >= 1 && DistinctPids(t.slots)
    ensures DistinctPids(Delete(t, pid).0.slots) && Pids(Delete(t, pid).0.slots) == Pids(t.slots) - {pid}
  {
    var i := FirstPid(t.slots, pid, 0);
    var d := Delete(t, pid).0.slots;
    if i < |t.slots| {
      forall p ensures p in Pids(d) <==> p in Pids(t.slots) && p != pid {
        if p in Pids(t.slots) && p != pid {
          var k :| 0 <= k < |t.slots| && t.slots[k].pid == p;
          assert d[k] == t.slots[k];
        }
      }
    }
  }

  lemma AddPids(t: Jobs, pid: int, state: JobState)
    requires DistinctPids(t.slots) && pid >= 1 && pid !in Pids(t.slots)
    ensures var (t', added) := Add(t, pid, state);
      DistinctPids(t'.slots) && Pids(t'.slots) == if added then Pids(t.slots) + {pid} else Pids(t.slots)
  {
    var (t', added) := Add(t, pid, state);
    if added {
      var i := FirstPid(t.slots, 0, 0);
      assert t'.slots[i].pid == pid;
      forall k | 0 <= k < |t.slots| && k != i && t.slots[k].pid != 0 ensures t.slots[k].pid in Pids(t'.slots) {
        assert t'.slots[k] == t.slots[k];
      }
      forall k | 0 <= k < |t.slots| && k != i ensures t'.slots[k].pid != pid || pid == 0 {
        assert t.slots[k] in t.slots;
      }
    }
  }

  lemma SetStatePids(t: Jobs, i: int, state: JobState)
    requires DistinctPids(t.slots)
    ensures DistinctPids(SetState(t, i, state).slots) && Pids(SetState(t, i, state).slots) == Pids(t.slots)
  {
    var s := SetState(t, i, state).slots;
    forall k | 0 <= k < |s| ensures s[k].pid == t.slots[k].pid {}
    forall p | p in Pids(t.slots) ensures p in Pids(s) {
      var k :| 0 <= k < |t.slots| && t.slots[k].pid == p;
      assert s[k] in s;
    }
  }

  /** One report changes no other slot and never makes a foreground job. */
  lemma ReapSlots(t: Jobs, e: Event)
    ensures |Reap(t, e).slots| == |t.slots|
    ensures forall j :: 0 <= j < |t.slots| ==> var a, b := t.slots[j], Reap(t, e).slots[j]; b == a || (b.state != FG && (b.pid == a.pid || b.pid == 0))
  {
  }

  lemma ReapHonest(s: Sys, e: Event)
    requires Honest(s) && e.pid in s.live && !s.pc.Forked?
    ensures Honest(Reported(s, e))
  {
    hide Pids, DistinctPids;
    if e.kind == Stopped {
      SetStatePids(s.jobs, Find(s.jobs, e.pid), ST);
    } else {
      DeletePids(s.jobs, e.pid);
    }
  }

  lemma ReapFg(s: Sys, e: Event)
    requires OneFg(s.jobs.slots) && FgFits(s)
    ensures var t := Reported(s, e); OneFg(t.jobs.slots) && FgFits(t)
  {
    hide Reap;
    ReapSlots(s.jobs, e);
  }

  lemma ReapKeeps(s: Sys, e: Event)
    requires Inv(s) && e.pid in s.live && !s.pc.Forked?
    ensures Inv(Reported(s, e))
  {
    hide Honest, OneFg, FgFits;
    ReapHonest(s, e);
    ReapFg(s, e);
  }

  lemma {:induction false} HandleKeeps(s: Sys, es: seq<Event>)
    requires Inv(s) && !s.pc.Forked? && Handle(s, es).Some?
    ensures Inv(Handle(s, es).value) && Handle(s, es).value.pc == s.pc
    ensures Handle(s, es).value.jobs == ReapAll(s.jobs, es)
    decreases |es|
  {
    if es != [] {
      ReapKeeps(s, es[0]);
      hide Inv;
      HandleKeeps(Reported(s, es[0]), es[1..]);
    }
  }

  lemma AddKeeps(s: Sys)
    requires Inv(s) && s.pc.Forked? && Advance(s).Some?
    ensures Inv(Advance(s).value)
  {
    if s.pc.pid >= 1 {
      AddPids(s.jobs, s.pc.pid, if s.pc.bg then BG else FG);
    }
    hide Pids;
    hide DistinctPids;
  }

  lemma AdvanceKeeps(s: Sys)
    requires Inv(s) && Advance(s).Some?
    ensures Inv(Advance(s).value)
  {
    match s.pc {
    case Forked(_, _) => AddKeeps(s);
    case Continued(slot, fg) => SetStatePids(s.jobs, slot, if fg then FG else BG);
      hide Pids;
      hide DistinctPids;
    case _ =>
      hide Pids;
      hide DistinctPids;
    }
  }

  lemma NextKeeps(s: Sys, a: Action)
    requires Inv(s) && Next(s, a, true).Some?
    ensures Inv(Next(s, a, true).value)
  {
    match a
    case Deliver(es) => HandleKeeps(s, es);
    case Go => AdvanceKeeps(s);
    case _ =>
  }

  lemma {:induction false} RunKeeps(s: Sys, acts: seq<Action>)
    requires Inv(s) && Run(s, acts, true).Some?
    ensures Inv(Run(s, acts, true).value)
    decreases |acts|
  {
    if acts != [] {
      NextKeeps(s, acts[0]);
      hide Next, Inv;
      RunKeeps(Next(s, acts[0], true).value, acts[1..]);
    }
  }

  lemma InitialInv()
    ensures Inv(INITIAL)
  {
  }

  // ---------- what follows for every run ----------

  /** Over every interleaving: one foreground job at most, none at the prompt, and a table that tells the truth about the children. */
  lemma EveryRunIsHonest(acts: seq<Action>)
    requires Run(INITIAL, acts, true).Some?
    ensures var s := Run(INITIAL, acts, true).value;
      Inv(s) && OneFg(s.jobs.slots) && (s.pc == Prompt ==> NoFg(s.jobs.slots))
      && DistinctPids(s.jobs.slots) && Pids(s.jobs.slots) <= s.live
      && s.live == Pids(s.jobs.slots) + s.lost + Pending(s.pc)
  {
    InitialInv();
    hide Run;
    RunKeeps(INITIAL, acts);
  }

  /** ctrl-c, ctrl-z and SIGCONT go to a child that still exists, or to nobody's group. */
  lemma SignalsReachChildren(acts: seq<Action>)
    requires Run(INITIAL, acts, true).Some?
    ensures var s := Run(INITIAL, acts, true).value;
      (FgPid(s.jobs) != 0 ==> FgPid(s.jobs) in s.live)
      && (s.pc.Found? ==> s.pc.slot < |s.jobs.slots| && (s.jobs.slots[s.pc.slot].pid != 0 ==> s.jobs.slots[s.pc.slot].pid in s.live))
  {
    EveryRunIsHonest(acts);
    var s := Run(INITIAL, acts, true).value;
    hide Run;
    forall j | 0 <= j < |s.jobs.slots| && s.jobs.slots[j].pid != 0 ensures s.jobs.slots[j].pid in s.live {
      assert s.jobs.slots[j].pid in Pids(s.jobs.slots);
    }
  }

  // ---------- what the states say ----------

  /** In the window between SIGCONT and the state that bg or fg sets, slot j may still say ST; else it does exactly for a stopped child,
      unless the stop was reported in such a window. */
  ghost predicate StateTrue(s: Sys, j: nat)
    requires j < |s.jobs.slots|
  {
    var p, state := s.jobs.slots[j].pid, s.jobs.slots[j].state;
    state != UNDEF
    && if s.pc.Continued? && s.pc.slot == j then p !in s.late && (p in s.stopped ==> state == ST)
       else state == ST <==> p in s.stopped && p !in s.late
  }

  ghost predicate StatesTrue(s: Sys) {
    s.late <= s.stopped <= s.live && (s.pc.Forked? ==> s.pc.pid !in s.stopped)
    && forall j {:trigger StateTrue(s, j)} :: 0 <= j < |s.jobs.slots| && s.jobs.slots[j].pid != 0 ==> StateTrue(s, j)
  }

  /** A report concerns the slot of its child alone: a stop makes it ST and keeps pid and jid, an end clears it. */
  lemma ReportExact(s: Sys, e: Event)
    requires Honest(s) && e.pid >= 1
    ensures var t := Reported(s, e);
      |t.jobs.slots| == |s.jobs.slots|
      && forall j :: 0 <= j < |s.jobs.slots| ==>
           t.jobs.slots[j] == if s.jobs.slots[j].pid != e.pid then s.jobs.slots[j]
                              else if e.kind == Stopped then Job(e.pid, s.jobs.slots[j].jid, ST) else Job(0, 0, UNDEF)
  {
    hide Pids;
  }

  /** The table t is s with a free slot filled by that child, in that state. */
  ghost predicate Entered(t: seq<Job>, s: seq<Job>, pid: int, state: JobState) {
    exists i :: 0 <= i < |s| && s[i].pid == 0 && |t| == |s| && t == s[i := Job(pid, t[i].jid, state)]
  }

  /** eval enters its child as FG or BG if there is room, and changes no other slot. */
  lemma EvalEnters(s: Sys)
    requires Honest(s) && s.pc.Forked? && s.pc.pid >= 1
    ensures var t := Advance(s).value;
      (t.lost == s.lost && Entered(t.jobs.slots, s.jobs.slots, s.pc.pid, if s.pc.bg then BG else FG))
      || (t.jobs == s.jobs && t.lost == s.lost + {s.pc.pid} && forall j :: 0 <= j < |s.jobs.slots| ==> s.jobs.slots[j].pid != 0)
  {
    hide Pids, DistinctPids;
    var i := FirstPid(s.jobs.slots, 0, 0);
    var t := Advance(s).value.jobs.slots;
    if i < |s.jobs.slots| { assert t == s.jobs.slots[i := Job(s.pc.pid, t[i].jid, if s.pc.bg then BG else FG)]; }
  }

  lemma ReportKeepsStates(s: Sys, e: Event)
    requires Inv(s) && StatesTrue(s) && e.pid in s.live && !s.pc.Forked?
    ensures StatesTrue(Reported(s, e))
  {
    hide Pids, OneFg, FgFits, Reap;
    ReportExact(s, e);
    var t := Reported(s, e);
    forall j {:trigger StateTrue(t, j)} | 0 <= j < |t.jobs.slots| && t.jobs.slots[j].pid != 0 ensures StateTrue(t, j) {
      assert StateTrue(s, j);
    }
  }

  lemma {:induction false} HandleKeepsStates(s: Sys, es: seq<Event>)
    requires Inv(s) && StatesTrue(s) && !s.pc.Forked? && Handle(s, es).Some?
    ensures StatesTrue(Handle(s, es).value)
    decreases |es|
  {
    hide Inv, StatesTrue;
    if es != [] {
      ReapKeeps(s, es[0]);
      ReportKeepsStates(s, es[0]);
      HandleKeepsStates(Reported(s, es[0]), es[1..]);
    }
  }

  lemma AdvanceKeepsStates(s: Sys)
    requires Inv(s) && StatesTrue(s) && Advance(s).Some?
    ensures StatesTrue(Advance(s).value)
  {
    hide Pids, OneFg, FgFits;
    var t := Advance(s).value;
    forall j {:trigger StateTrue(t, j)} | 0 <= j < |t.jobs.slots| && t.jobs.slots[j].pid != 0 ensures StateTrue(t, j) {
      assert s.jobs.slots[j].pid != 0 ==> StateTrue(s, j);
    }
  }

  lemma NextKeepsStates(s: Sys, a: Action)
    requires Inv(s) && StatesTrue(s) && Next(s, a, true).Some?
    ensures StatesTrue(Next(s, a, true).value)
  {
    if a.Deliver? {
      HandleKeepsStates(s, a.events);
    } else if a.Go? {
      AdvanceKeepsStates(s);
    } else {
      hide Pids, OneFg, FgFits;
      var t := Next(s, a, true).value;
      forall j {:trigger StateTrue(t, j)} | 0 <= j < |t.jobs.slots| && t.jobs.slots[j].pid != 0 ensures StateTrue(t, j) {
        assert StateTrue(s, j);
      }
    }
  }

  lemma {:induction false} RunKeepsStates(s: Sys, acts: seq<Action>)
    requires Inv(s) && StatesTrue(s) && Run(s, acts, true).Some?
    ensures StatesTrue(Run(s, acts, true).value)
    decreases |acts|
  {
    hide Next, Inv, StatesTrue;
    if acts != [] {
      NextKeeps(s, acts[0]);
      NextKeepsStates(s, acts[0]);
      RunKeepsStates(Next(s, acts[0], true).value, acts[1..]);
    }
  }

  /** Over every interleaving, outside that window: an entry says ST exactly for a stopped child whose stop was not reported late; at the
      prompt every other entry says BG. */
  lemma EveryRunTellsStates(acts: seq<Action>, j: nat)
    requires Run(INITIAL, acts, true).Some? && j < |Run(INITIAL, acts, true).value.jobs.slots|
    ensures var s := Run(INITIAL, acts, true).value;
      var p, state := s.jobs.slots[j].pid, s.jobs.slots[j].state;
      p != 0 && !(s.pc.Continued? && s.pc.slot == j) ==>
        p in s.live && state != UNDEF && (state == ST <==> p in s.stopped && p !in s.late)
        && (s.pc == Prompt ==> (state == BG <==> !(p in s.stopped && p !in s.late)))
  {
    InitialInv();
    EveryRunIsHonest(acts);
    hide Run;
    RunKeepsStates(INITIAL, acts);
    var s := Run(INITIAL, acts, true).value;
    if s.jobs.slots[j].pid != 0 {
      assert StateTrue(s, j);
      assert s.jobs.slots[j].pid in Pids(s.jobs.slots);
    }
  }

  /** A report is late only if the stop was reported between SIGCONT to that very child and the next step of bg or fg. */
  lemma LateOnlyThen(s: Sys, a: Action, p: int)
    requires Inv(s) && StatesTrue(s) && Next(s, a, true).Some? && p in Next(s, a, true).value.late && p !in s.late
    ensures a == Go && s.pc.Continued? && PidIn(s, s.pc.slot) == p && p in s.stopped && s.jobs.slots[s.pc.slot].state == ST
  {
    if a.Deliver? { NoReportIsLate(s, a.events); }
    hide Pids, OneFg, Handle;
    if a == Go && s.pc.Continued? { assert StateTrue(s, s.pc.slot); }
  }

  lemma {:induction false} NoReportIsLate(s: Sys, es: seq<Event>)
    requires Handle(s, es).Some?
    ensures Handle(s, es).value.late <= s.late
    decreases |es|
  {
    hide Reap;
    if es != [] { NoReportIsLate(Reported(s, es[0]), es[1..]); }
  }

  /** A run in which nothing is reported in that window. */
  ghost predicate Timely(s: Sys, acts: seq<Action>)
    decreases |acts|
  {
    acts != [] ==>
      !(s.pc.Continued? && acts[0].Deliver? && acts[0].events != [])
      && (Next(s, acts[0], true).Some? ==> Timely(Next(s, acts[0], true).value, acts[1..]))
  }

  /** In such a run no report is late: ST is the whole truth. */
  lemma {:induction false} TimelyRunsTell(s: Sys, acts: seq<Action>)
    requires Inv(s) && StatesTrue(s) && s.late == {} && (s.pc.Continued? ==> PidIn(s, s.pc.slot) !in s.stopped)
    requires Run(s, acts, true).Some? && Timely(s, acts)
    ensures Run(s, acts, true).value.late == {}
    decreases |acts|
  {
    if acts != [] {
      var t := Next(s, acts[0], true).value;
      NextKeeps(s, acts[0]);
      NextKeepsStates(s, acts[0]);
      assert t.late == {} by {
        if acts[0].Deliver? { NoReportIsLate(s, acts[0].events); }
      }
      assert t.pc.Continued? ==> PidIn(t, t.pc.slot) !in t.stopped by {
        if acts[0].Deliver? { HandleKeeps(s, acts[0].events); }
      }
      hide Inv, StatesTrue, Next;
      TimelyRunsTell(t, acts[1..]);
    }
  }

  /** So over every such run an entry says ST exactly if its child is stopped. */
  lemma TimelyStatesAreTrue(acts: seq<Action>, j: nat)
    requires Run(INITIAL, acts, true).Some? && Timely(INITIAL, acts) && j < |Run(INITIAL, acts, true).value.jobs.slots|
    ensures var s := Run(INITIAL, acts, true).value;
      s.jobs.slots[j].pid != 0 && !s.pc.Continued? ==> (s.jobs.slots[j].state == ST <==> s.jobs.slots[j].pid in s.stopped)
  {
    InitialInv();
    EveryRunTellsStates(acts, j);
    hide Run, Timely, Inv;
    TimelyRunsTell(INITIAL, acts);
  }

  // ---------- waiting for the foreground job ----------

  function Gos(n: nat): seq<Action> {
    if n == 0 then [] else [Go] + Gos(n - 1)
  }

  predicate WaitsOn(pc: Pc, pid: int) {
    (pc.Scan? || pc.Hit?) && pc.pid == pid
  }

  /** With a foreground job the shell's own steps keep it waiting. */
  lemma {:induction false} KeepsWaiting(s: Sys, n: nat)
    requires Inv(s) && (s.pc.Scan? || s.pc.Hit?) && !NoFg(s.jobs.slots)
    ensures Run(s, Gos(n), true).Some? && WaitsOn(Run(s, Gos(n), true).value.pc, s.pc.pid)
    decreases n
  {
    if n > 0 {
      NextKeeps(s, Go);
      assert Gos(n)[1..] == Gos(n - 1);
      KeepsWaiting(Advance(s).value, n - 1);
    }
  }

  /** Without one, fgpid runs off the end of the table and waitfg returns. */
  lemma {:induction false} StopsWaiting(s: Sys)
    requires |s.jobs.slots| == MAXJOBS && NoFg(s.jobs.slots) && s.pc.Scan? && s.pc.pid != 0 && s.pc.i <= MAXJOBS
    ensures Run(s, Gos(MAXJOBS - s.pc.i + 1), true) == Some(s.(pc := Prompt))
    decreases MAXJOBS - s.pc.i
  {
    var n := MAXJOBS - s.pc.i + 1;
    var t := Advance(s).value;
    assert Gos(n)[1..] == Gos(n - 1);
    if s.pc.i < MAXJOBS {
      StopsWaiting(t);
    } else {
      assert Run(t, Gos(0), true) == Some(t);
    }
  }

  /** waitfg(0) never returns, whatever happens meanwhile. */
  lemma {:induction false} ZeroNeverReturns(s: Sys, acts: seq<Action>)
    requires Inv(s) && WaitsOn(s.pc, 0) && Run(s, acts, true).Some?
    ensures WaitsOn(Run(s, acts, true).value.pc, 0)
    decreases |acts|
  {
    if acts != [] {
      NextKeeps(s, acts[0]);
      var t := Next(s, acts[0], true).value;
      assert WaitsOn(t.pc, 0) by {
        if acts[0].Deliver? { HandleKeeps(s, acts[0].events); }
      }
      hide Inv, Next;
      ZeroNeverReturns(t, acts[1..]);
    }
  }

  /** Left alone, waitfg returns exactly if it was given a pid and no job is in the foreground. */
  lemma WaitReturnsExactly(s: Sys)
    requires Inv(s) && s.pc.Scan? && s.pc.i == 0
    ensures (exists n :: Run(s, Gos(n), true).Some? && Run(s, Gos(n), true).value.pc == Prompt) <==> s.pc.pid != 0 && NoFg(s.jobs.slots)
  {
    if s.pc.pid != 0 && NoFg(s.jobs.slots) {
      StopsWaiting(s);
    } else {
      forall n: nat | Run(s, Gos(n), true).Some? ensures Run(s, Gos(n), true).value.pc != Prompt {
        if s.pc.pid == 0 { ZeroNeverReturns(s, Gos(n)); } else { KeepsWaiting(s, n); }
      }
    }
  }

  ghost predicate Reached(s: Sys, blocking: bool) {
    exists acts :: Run(INITIAL, acts, blocking) == Some(s)
  }

  lemma {:induction false} RunSnoc(s: Sys, acts: seq<Action>, a: Action, blocking: bool)
    requires Run(s, acts, blocking).Some?
    ensures Run(s, acts + [a], blocking) == Next(Run(s, acts, blocking).value, a, blocking)
    decreases |acts|
  {
    hide Next;
    if acts == [] {
      var t := Next(s, a, blocking);
      assert ([] + [a])[1..] == [];
      assert t.Some? ==> Run(t.value, [], blocking) == t;
    } else {
      assert (acts + [a])[1..] == acts[1..] + [a];
      RunSnoc(Next(s, acts[0], blocking).value, acts[1..], a, blocking);
    }
  }

  lemma ReachNext(s: Sys, a: Action, t: Sys, blocking: bool)
    requires Reached(s, blocking) && Next(s, a, blocking) == Some(t)
    ensures Reached(t, blocking)
  {
    hide Next;
    var acts :| Run(INITIAL, acts, blocking) == Some(s);
    RunSnoc(INITIAL, acts, a, blocking);
  }

  lemma ReachInitial(blocking: bool)
    ensures Reached(INITIAL, blocking)
  {
    assert Run(INITIAL, [], blocking) == Some(INITIAL);
  }

  /** The table with child 5 in its first slot. */
  function OneJob(state: JobState): Jobs {
    Jobs(INITIAL.jobs.slots[0 := Job(5, 1, state)], 2)
  }

  lemma OneJobComesAndGoes(state: JobState)
    ensures Add(INITIAL.jobs, 5, state) == (OneJob(state), true)
    ensures Delete(OneJob(state), 5) == (INITIAL.jobs, true)
  {
    var slots := INITIAL.jobs.slots;
    assert slots[0 := Job(5, 1, state)][0 := CLEARED] == slots;
    assert FirstPid(slots, 0, 0) == 0 && FirstPid(OneJob(state).slots, 5, 0) == 0;
  }

  lemma ForkOne(bg: bool, blocking: bool)
    ensures Next(INITIAL, Fork(5, bg), blocking) == Some(Sys(INITIAL.jobs, Forked(5, bg), {5}, {}, {}, {}))
  {
    assert {} + {5} == {5};
  }

  lemma ReapOne(s: Sys)
    requires s.live == {5} && s.lost == {} && s.stopped == {} && s.late == {}
    ensures Handle(s, [Event(5, Exited)]) == Some(Sys(Delete(s.jobs, 5).0, s.pc, {}, {}, {}, {}))
  {
    var e := Event(5, Exited);
    var t := Sys(Delete(s.jobs, 5).0, s.pc, {}, {}, {}, {});
    assert Fresh(e, {5}) == {} && Fresh(e, {}) == {};
    assert [e][1..] == [];
    assert Handle(t, []) == Some(t);
  }

  /** SIGCONT has just been sent to child 5, which runs in the background. */
  function Woken(fg: bool): Sys {
    Sys(OneJob(BG), Continued(0, fg), {5}, {}, {}, {})
  }

  lemma ReachWoken(fg: bool)
    ensures Reached(Woken(fg), true)
  {
    OneJobComesAndGoes(BG);
    ForkOne(true, true);
    ReachInitial(true);
    var j0, j1 := INITIAL.jobs, OneJob(BG);
    hide Add, Delete;
    ReachNext(INITIAL, Fork(5, true), Sys(j0, Forked(5, true), {5}, {}, {}, {}), true);
    ReachNext(Sys(j0, Forked(5, true), {5}, {}, {}, {}), Go, Sys(j1, Added(5, true), {5}, {}, {}, {}), true);
    ReachNext(Sys(j1, Added(5, true), {5}, {}, {}, {}), Go, Sys(j1, Prompt, {5}, {}, {}, {}), true);
    ReachNext(Sys(j1, Prompt, {5}, {}, {}, {}), FindJob(0, fg), Sys(j1, Found(0, fg), {5}, {}, {}, {}), true);
    assert {} - {5} == {} && PidIn(Woken(fg), 0) == 5;
    ReachNext(Sys(j1, Found(0, fg), {5}, {}, {}, {}), SendCont(true), Woken(fg), true);
  }

  /** fg can be overtaken: the job ends after it was found, and the shell waits for pid 0. */
  lemma FgCanWaitForZero()
    ensures exists s :: Reached(s, true) && s.pc == Scan(0, 0)
  {
    OneJobComesAndGoes(BG);
    hide Add, Delete;
    ReachWoken(true);
    ReapOne(Woken(true));
    var s := Sys(INITIAL.jobs, Continued(0, true), {}, {}, {}, {});
    ReachNext(Woken(true), Deliver([Event(5, Exited)]), s, true);
    var t := Advance(s).value;
    ReachNext(s, Go, t, true);
    ReachNext(t, Go, t.(pc := Scan(0, 0)), true);
  }

  /** Reports can be late: a job stopped again right after SIGCONT is listed as running in the background. */
  lemma StopCanBeOverwritten()
    ensures exists s ::
      Reached(s, true) && s.pc == Prompt && |s.jobs.slots| == MAXJOBS && s.jobs.slots[0] == Job(5, 1, BG) && 5 in s.stopped && 5 in s.late
  {
    ReachWoken(false);
    StopOne(Woken(false));
    var t := Sys(OneJob(ST), Continued(0, false), {5}, {}, {5}, {});
    ReachNext(Woken(false), Deliver([Event(5, Stopped)]), t, true);
    assert {} + {5} == {5};
    assert SetState(OneJob(ST), 0, BG) == OneJob(BG);
    ReachNext(t, Go, Sys(OneJob(BG), Prompt, {5}, {}, {5}, {5}), true);
  }

  lemma StopOne(s: Sys)
    requires s.jobs == OneJob(BG) && s.live == {5} && s.lost == {} && s.stopped == {} && s.late == {}
    ensures Handle(s, [Event(5, Stopped)]) == Some(Sys(OneJob(ST), s.pc, {5}, {}, {5}, {}))
  {
    var e := Event(5, Stopped);
    var t := Sys(OneJob(ST), s.pc, {5}, {}, {5}, {});
    assert FirstPid(s.jobs.slots, 5, 0) == 0;
    assert s.jobs.slots[0 := Job(5, 1, ST)] == OneJob(ST).slots;
    assert {} + {5} == {5} && {} - {5} == {};
    assert Reported(s, e) == t;
    assert [e][1..] == [];
    assert Handle(t, []) == Some(t);
  }

  // ---------- why SIGCHLD is blocked ----------

  /** Slot i says that child p is in the foreground, though it is reaped already; the shell waits for it. */
  ghost predicate WaitsInVain(s: Sys, p: int, i: nat) {
    i < |s.jobs.slots| && p >= 1 && p !in s.live
    && s.jobs.slots[i].pid == p && s.jobs.slots[i].state == FG
    && (forall j :: 0 <= j < |s.jobs.slots| && s.jobs.slots[j].state == FG ==> s.jobs.slots[j].pid == p)
    && ((s.pc.Scan? && s.pc.pid == p && s.pc.i <= i)
        || (s.pc.Hit? && s.pc.pid == p && s.pc.i < |s.jobs.slots| && s.jobs.slots[s.pc.i].pid == p))
  }

  /** Reports about other children leave it so. */
  lemma {:induction false} InVainHandled(s: Sys, es: seq<Event>, p: int, i: nat)
    requires WaitsInVain(s, p, i) && Handle(s, es).Some?
    ensures WaitsInVain(Handle(s, es).value, p, i)
    decreases |es|
  {
    if es != [] {
      var e := es[0];
      var t := Reported(s, e);
      ReapSlots(s.jobs, e);
      OthersSlot(s.jobs, e, p);
      hide Reap;
      InVainHandled(t, es[1..], p, i);
    }
  }

  /** A report about another child changes no slot of p. */
  lemma OthersSlot(t: Jobs, e: Event, p: int)
    requires e.pid != p
    ensures |Reap(t, e).slots| == |t.slots|
    ensures forall j :: 0 <= j < |t.slots| && t.slots[j].pid == p ==> Reap(t, e).slots[j] == t.slots[j]
  {
  }

  /** A foreground entry of a child that is no more keeps the shell waiting over every continuation. */
  lemma {:induction false} StaleForever(s: Sys, acts: seq<Action>, blocking: bool, p: int, i: nat)
    requires WaitsInVain(s, p, i) && Run(s, acts, blocking).Some?
    ensures WaitsInVain(Run(s, acts, blocking).value, p, i)
    decreases |acts|
  {
    if acts != [] {
      if acts[0].Deliver? { InVainHandled(s, acts[0].events, p, i); }
      StaleForever(Next(s, acts[0], blocking).value, acts[1..], blocking, p, i);
    }
  }

  const STALE: Sys := Sys(OneJob(FG), Scan(5, 0), {}, {}, {}, {})

  /** Without blocking the shell can come to wait for ever for a child it has already reaped. */
  lemma UnblockedHangs()
    ensures Reached(STALE, false) && STALE.pc == Scan(5, 0) && 5 in Pids(STALE.jobs.slots) && 5 !in STALE.live
    ensures forall acts :: Run(STALE, acts, false).Some? ==> WaitsOn(Run(STALE, acts, false).value.pc, 5)
  {
    var j0, j1 := INITIAL.jobs, OneJob(FG);
    OneJobComesAndGoes(FG);
    ForkOne(false, false);
    assert Delete(j0, 5).0 == j0;
    ReachInitial(false);
    var s := Sys(j0, Forked(5, false), {5}, {}, {}, {});
    ReachNext(INITIAL, Fork(5, false), s, false);
    ReapOne(s);
    ReachNext(s, Deliver([Event(5, Exited)]), s.(live := {}), false);
    ReachNext(s.(live := {}), Go, Sys(j1, Added(5, false), {}, {}, {}, {}), false);
    ReachNext(Sys(j1, Added(5, false), {}, {}, {}, {}), Go, STALE, false);
    assert j1.slots[0].pid in Pids(j1.slots);
    forall acts | Run(STALE, acts, false).Some? ensures WaitsOn(Run(STALE, acts, false).value.pc, 5) {
      StaleForever(STALE, acts, false, 5, 0);
    }
  }

  /** Entries are children not yet reaped in every reachable state if and only if SIGCHLD is blocked from fork to addjob. */
  lemma BlockingIsNeeded(blocking: bool)
    ensures (forall s :: Reached(s, blocking) ==> Pids(s.jobs.slots) <= s.live) <==> blocking
  {
    if blocking {
      forall s | Reached(s, blocking) ensures Pids(s.jobs.slots) <= s.live {
        var acts :| Run(INITIAL, acts, blocking) == Some(s);
        EveryRunIsHonest(acts);
      }
    } else {
      UnblockedHangs();
    }
  }

  // ---------- the shell in place ----------

  class Tsh {
    const table: JobTable
    var pc: Pc
    ghost var live: set<int>
    ghost var lost: set<int>
    ghost var stopped: set<int>
    ghost var late: set<int>

    ghost predicate Valid()
      reads this
    {
      table.Valid()
    }

    ghost function View(): Sys
      reads this, table, table.jobs
    {
      Sys(table.View(), pc, live, lost, stopped, late)
    }

    constructor ()
      ensures Valid() && fresh(table) && fresh(table.jobs) && View() == INITIAL
    {
      table := new JobTable();
      pc, live, lost, stopped, late := Prompt, {}, {}, {}, {};
    }

    /** The next part of eval, do_bgfg or waitfg, up to the next point where the handler may run. */
    method Resume()
      requires Valid() && Advance(View()).Some?
      modifies this, table, table.jobs
      ensures Valid() && Some(View()) == Advance(old(View()))
    {
      match pc {
      case Forked(pid, bg) =>
        var added := table.Addjob(pid, if bg then BG else FG);
        if !added && pid >= 1 { lost := lost + {pid}; }
        pc := Added(pid, bg);
      case Added(pid, bg) =>
        pc := if bg then Prompt else Scan(pid, 0);
      case Continued(slot, fg) =>
        if PidIn(View(), slot) in stopped { late := late + {PidIn(View(), slot)}; }
        if slot < table.jobs.Length {
          table.jobs[slot] := table.jobs[slot].(state := if fg then FG else BG);
        }
        pc := if fg then Marked(slot) else Prompt;
      case Marked(slot) =>
        pc := Scan(table.jobs[slot].pid, 0);
      case Scan(pid, i) =>
        if i < table.jobs.Length {
          pc := if table.jobs[i].state == FG then Hit(pid, i) else Scan(pid, i + 1);
        } else {
          pc := if pid == 0 then Scan(pid, 0) else Prompt;
        }
      case Hit(pid, i) =>
        pc := if table.jobs[i].pid == pid then Scan(pid, 0) else Prompt;
      }
    }

    /** Any one action that can happen. */
    method Perform(a: Action)
      requires Valid() && Next(View(), a, true).Some? && Inv(View())
      modifies this, table, table.jobs
      ensures Valid() && Some(View()) == Next(old(View()), a, true) && Inv(View())
    {
      NextKeeps(View(), a);
      match a {
      case Deliver(es) =>
        HandleKeeps(View(), es);
        ghost var t := Handle(View(), es).value;
        table.SigchldHandler(es);
        live, lost, stopped, late := t.live, t.lost, t.stopped, t.late;
      case Fork(pid, bg) =>
        pc := Forked(pid, bg);
        live := if pid == -1 then live else live + {pid};
      case FindJob(slot, fg) =>
        pc := Found(slot, fg);
      case SendCont(ok) =>
        if ok {
          stopped, late := stopped - {PidIn(View(), pc.slot)}, late - {PidIn(View(), pc.slot)};
        }
        pc := if ok then Continued(pc.slot, pc.fg) else Dead;
      case Go =>
        Resume();
      }
    }
  }
}
