/**
 * The job list of lab9/tsh.c: 16 slots changed in place, first as values, then as a class
 * whose methods are tied to the functions on those values.
 */
module JobList {
  import opened Prelude

  const MAXJOBS := 16

  datatype JobState = UNDEF | FG | BG | ST

  datatype Job = Job(pid: int, jid: int, state: JobState)

  const CLEARED := Job(0, 0, UNDEF)

  datatype Jobs = Jobs(slots: seq<Job>, nextjid: int)

  datatype Kind = Exited | Signaled | Stopped

  /** What waitpid reports about one child. */
  datatype Event = Event(pid: int, kind: Kind)

  // ---------- the operations on values ----------

  /** The first slot from `from` on that has this pid, or the number of slots. */
  function FirstPid(s: seq<Job>, pid: int, from: nat): (i: nat)
    requires from <= |s|
    ensures from <= i <= |s| && (i < |s| ==> s[i].pid == pid)
    ensures forall k :: from <= k < i ==> s[k].pid != pid
    decreases |s| - from
  {
    if from == |s| || s[from].pid == pid then from else FirstPid(s, pid, from + 1)
  }

  function FirstFg(s: seq<Job>, from: nat): (i: nat)
    requires from <= |s|
    ensures from <= i <= |s| && (i < |s| ==> s[i].state == FG)
    ensures forall k :: from <= k < i ==> s[k].state != FG
    decreases |s| - from
  {
    if from == |s| || s[from].state == FG then from else FirstFg(s, from + 1)
  }

  /** The largest jid among the first n slots, or 0. */
  function MaxJid(s: seq<Job>, n: nat): (m: int)
    requires n <= |s|
    ensures m >= 0 && forall k :: 0 <= k < n ==> s[k].jid <= m
    ensures m == 0 || exists k :: 0 <= k < n && s[k].jid == m
  {
    if n == 0 then 0
    else
      var m := MaxJid(s, n - 1);
      if s[n - 1].jid > m then s[n - 1].jid else m
  }

  function Add(t: Jobs, pid: int, state: JobState): (Jobs, bool) {
    var i := FirstPid(t.slots, 0, 0);
    if pid < 1 || i == |t.slots| then (t, false)
    else (Jobs(t.slots[i := Job(pid, t.nextjid, state)], if t.nextjid + 1 > MAXJOBS then 1 else t.nextjid + 1), true)
  }

  function Delete(t: Jobs, pid: int): (Jobs, bool) {
    var i := FirstPid(t.slots, pid, 0);
    if pid < 1 || i == |t.slots| then (t, false)
    else
      var slots := t.slots[i := CLEARED];
      (Jobs(slots, MaxJid(slots, |slots|) + 1), true)
  }

  function SetState(t: Jobs, i: int, state: JobState): Jobs {
    if 0 <= i < |t.slots| then t.(slots := t.slots[i := t.slots[i].(state := state)]) else t
  }

  function FgPid(t: Jobs): int {
    var i := FirstFg(t.slots, 0);
    if i < |t.slots| then t.slots[i].pid else 0
  }

  /** The slot getjobpid returns; -1 for its NULL. */
  function Find(t: Jobs, pid: int): int {
    var i := FirstPid(t.slots, pid, 0);
    if pid < 1 || i == |t.slots| then -1 else i
  }

  /** One turn of the loop in the SIGCHLD handler. */
  function Reap(t: Jobs, e: Event): Jobs {
    match e.kind
    case Exited => Delete(t, e.pid).0
    case Signaled => Delete(t, e.pid).0
    case Stopped => SetState(t, Find(t, e.pid), ST)
  }

  function ReapAll(t: Jobs, es: seq<Event>): Jobs
    decreases |es|
  {
    if es == [] then t else ReapAll(Reap(t, es[0]), es[1..])
  }

  // ---------- the list in place ----------

  class JobTable {
    const jobs: array<Job>
    var nextjid: int

    ghost predicate Valid() { jobs.Length == MAXJOBS }

    function View(): Jobs
      reads this, jobs
    {
      Jobs(jobs[..], nextjid)
    }

    constructor ()
      ensures Valid() && fresh(jobs) && View() == Jobs(seq(MAXJOBS, i => CLEARED), 1)
    {
      jobs := new Job[MAXJOBS](i => CLEARED);
      nextjid := 1;
      new;
      assert jobs[..] == seq(MAXJOBS, i => CLEARED);
    }

    method Maxjid() returns (max: int)
      ensures max == MaxJid(jobs[..], jobs.Length)
    {
      max := 0;
      for i := 0 to jobs.Length
        invariant max == MaxJid(jobs[..], i)
      {
        if jobs[i].jid > max { max := jobs[i].jid; }
      }
    }

    method Addjob(pid: int, state: JobState) returns (added: bool)
      requires Valid()
      modifies this, jobs
      ensures (View(), added) == Add(old(View()), pid, state)
    {
      if pid < 1 { return false; }
      for i := 0 to MAXJOBS
        invariant View() == old(View()) && FirstPid(jobs[..], 0, 0) == FirstPid(jobs[..], 0, i)
      {
        if jobs[i].pid == 0 {
          jobs[i] := Job(pid, nextjid, state);
          nextjid := nextjid + 1;
          if nextjid > MAXJOBS { nextjid := 1; }
          return true;
        }
      }
      return false;
    }

    method Deletejob(pid: int) returns (found: bool)
      requires Valid()
      modifies this, jobs
      ensures (View(), found) == Delete(old(View()), pid)
    {
      if pid < 1 { return false; }
      for i := 0 to MAXJOBS
        invariant View() == old(View()) && FirstPid(jobs[..], pid, 0) == FirstPid(jobs[..], pid, i)
      {
        if jobs[i].pid == pid {
          jobs[i] := CLEARED;
          var max := Maxjid();
          nextjid := max + 1;
          return true;
        }
      }
      return false;
    }

    method Fgpid() returns (pid: int)
      requires Valid()
      ensures pid == FgPid(View())
    {
      for i := 0 to MAXJOBS
        invariant FirstFg(jobs[..], 0) == FirstFg(jobs[..], i)
      {
        if jobs[i].state == FG { return jobs[i].pid; }
      }
      return 0;
    }

    method Getjobpid(pid: int) returns (slot: int)
      requires Valid()
      ensures slot == Find(View(), pid)
    {
      if pid < 1 { return -1; }
      for i := 0 to MAXJOBS
        invariant FirstPid(jobs[..], pid, 0) == FirstPid(jobs[..], pid, i)
      {
        if jobs[i].pid == pid { return i; }
      }
      return -1;
    }

    /** The SIGCHLD handler, given what waitpid reports until it has no more. */
    method SigchldHandler(es: seq<Event>)
      requires Valid()
      modifies this, jobs
      ensures View() == ReapAll(old(View()), es)
    {
      var n := 0;
      while n < |es|
        invariant n <= |es| && ReapAll(View(), es[n..]) == ReapAll(old(View()), es)
      {
        assert es[n..][0] == es[n] && es[n..][1..] == es[n + 1..];
        match es[n].kind {
        case Exited =>
          var _ := Deletejob(es[n].pid);
        case Signaled =>
          var _ := Deletejob(es[n].pid);
        case Stopped =>
          var slot := Getjobpid(es[n].pid);
          if slot != -1 {
            jobs[slot] := jobs[slot].(state := ST);
          }
        }
        n := n + 1;
      }
    }
  }
}
