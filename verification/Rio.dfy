/** Buffered input of lab10/csapp.c: rio_read, rio_readnb and rio_readlineb over a kernel that splits its input as it likes. */
module Rio {
  const RIO_BUFSIZE := 8192

  /** What one read call is about to do. */
  datatype Outcome = Short(k: nat) | Eintr | Fail

  /** The kernel's side of a descriptor: input not yet read, and how it will be handed out. */
  class Descriptor {
    var rest: string
    var plan: seq<Outcome>

    constructor (input: string, outcomes: seq<Outcome>)
      ensures rest == input && plan == outcomes
    {
      rest, plan := input, outcomes;
    }

    /** Carries out the next outcome of the plan; with none left, as much as there is room for. */
    method Read(buf: array<char>) returns (r: int, eintr: bool)
      requires buf.Length > 0
      modifies this, buf
      ensures plan == if old(plan) == [] then [] else old(plan)[1..]
      ensures r == -1 <==> old(plan) != [] && !old(plan)[0].Short?
      ensures eintr <==> old(plan) != [] && old(plan)[0].Eintr?
      ensures r == -1 ==> rest == old(rest)
      ensures r != -1 ==> r == Chunk(old(plan), old(|rest|), buf.Length) && old(rest) == buf[..r] + rest
    {
      var most := buf.Length;
      if plan != [] {
        var next := plan[0];
        plan := plan[1..];
        match next
        case Short(k) => if 0 < k < most { most := k; }
        case Eintr => return -1, true;
        case Fail => return -1, false;
      }
      r := if |rest| < most then |rest| else most;
      for i := 0 to r
        invariant buf[..i] == rest[..i]
        modifies buf
      {
        buf[i] := rest[i];
      }
      rest := rest[r..];
      return r, false;
    }
  }

  /** Bytes a successful read hands out: at least one unless the input has ended. */
  function Chunk(plan: seq<Outcome>, rest: nat, room: nat): (c: nat)
    requires room > 0
    ensures c <= rest && c <= room && (c == 0 <==> rest == 0)
  {
    var most := if plan != [] && plan[0].Short? && 0 < plan[0].k < room then plan[0].k else room;
    if rest < most then rest else most
  }

  /** Whether fetching need bytes through the buffer, of which the kernel still has rest, meets a failing read. */
  predicate Meets(plan: seq<Outcome>, rest: nat, need: nat)
    decreases |plan|
  {
    plan != [] && need > 0 &&
    match plan[0]
    case Fail => true
    case Eintr => Meets(plan[1..], rest, need)
    case Short(_) =>
      var c := Chunk(plan, rest, RIO_BUFSIZE);
      0 < c < need && Meets(plan[1..], rest - c, need - c)
  }

  /** The same with unread bytes in the buffer already. */
  predicate FailsIn(unread: nat, plan: seq<Outcome>, rest: nat, need: nat) {
    need > unread && Meets(plan, rest, need - unread)
  }

  // ---------- what the reads deliver, as functions of the input alone ----------

  /** Length of the next line of p, cut after a newline, at lim bytes or at the end. */
  function LineLen(p: string, lim: nat): (n: nat)
    ensures n <= lim && n <= |p|
    decreases |p|
  {
    if lim == 0 || p == "" then 0
    else if p[0] == '\n' then 1
    else 1 + LineLen(p[1..], lim - 1)
  }

  /** How many bytes reading such a line asks for: one more than it has if only the end of the input ends it. */
  function LineWant(p: string, lim: nat): (n: nat)
    ensures LineLen(p, lim) <= n <= LineLen(p, lim) + 1
    decreases |p|
  {
    if lim == 0 then 0
    else if p == "" || p[0] == '\n' then 1
    else 1 + LineWant(p[1..], lim - 1)
  }

  /** Both take a line apart at its first character. */
  lemma LineStep(p: string, lim: nat)
    requires lim > 0
    ensures LineLen(p, lim) == if p == "" then 0 else if p[0] == '\n' then 1 else 1 + LineLen(p[1..], lim - 1)
    ensures LineWant(p, lim) == if p == "" || p[0] == '\n' then 1 else 1 + LineWant(p[1..], lim - 1)
    ensures LineLen(p, 0) == 0 && LineWant(p, 0) == 0
  {
  }

  /** The cut is at the first newline, the limit or the end, whichever comes first. */
  lemma {:induction false} LineLenExact(p: string, lim: nat, n: nat)
    requires n <= |p| && n <= lim
    ensures n == LineLen(p, lim) <==>
      (forall k :: 0 <= k < n - 1 ==> p[k] != '\n') && (n == lim || n == |p| || (n > 0 && p[n - 1] == '\n'))
    decreases |p|
  {
    if lim > 0 && p != "" && p[0] != '\n' && n > 0 {
      LineLenExact(p[1..], lim - 1, n - 1);
    }
  }

  /** One request of a reader. */
  datatype Request = Bytes(n: nat) | Line(maxlen: nat)

  /** How many bytes of the pending input p a request takes. */
  function Taken(p: string, q: Request): (n: nat)
    ensures n <= |p|
  {
    match q
    case Bytes(n) => if n < |p| then n else |p|
    case Line(maxlen) => if maxlen == 0 then 0 else LineLen(p, maxlen - 1)
  }

  /** How many bytes it asks for. */
  function Want(p: string, q: Request): nat {
    match q
    case Bytes(n) => n
    case Line(maxlen) => if maxlen == 0 then 0 else LineWant(p, maxlen - 1)
  }

  function Answers(p: string, qs: seq<Request>): seq<string> {
    if qs == [] then [] else [p[..Taken(p, qs[0])]] + Answers(p[Taken(p, qs[0])..], qs[1..])
  }

  function Flat(ss: seq<string>): string {
    if ss == [] then "" else ss[0] + Flat(ss[1..])
  }

  /** The answers, put together, are a prefix of the input. */
  lemma {:induction false} AnswersArePrefix(p: string, qs: seq<Request>)
    ensures |Answers(p, qs)| == |qs| && |Flat(Answers(p, qs))| <= |p| && Flat(Answers(p, qs)) == p[..|Flat(Answers(p, qs))|]
    decreases |qs|
  {
    if qs != [] {
      var n := Taken(p, qs[0]);
      AnswersArePrefix(p[n..], qs[1..]);
      assert Answers(p, qs)[1..] == Answers(p[n..], qs[1..]);
    }
  }

  lemma AnswersCons(p: string, q: Request, qs: seq<Request>)
    ensures var n := Taken(p, q);
      Answers(p, [q] + qs) == [p[..n]] + Answers(p[n..], qs) && Flat(Answers(p, [q] + qs)) == p[..n] + Flat(Answers(p[n..], qs))
  {
  }

  lemma Associate<T>(x: seq<T>, y: seq<T>, z: seq<T>)
    ensures x + y + z == x + (y + z)
  {
  }

  /** One more request is answered from what the earlier ones leave. */
  lemma {:induction false} AnswersSnoc(p: string, qs: seq<Request>, q: Request, rest: string)
    requires p == Flat(Answers(p, qs)) + rest
    ensures Answers(p, qs + [q]) == Answers(p, qs) + [rest[..Taken(rest, q)]]
    ensures Flat(Answers(p, qs + [q])) == Flat(Answers(p, qs)) + rest[..Taken(rest, q)]
    decreases |qs|
  {
    if qs == [] {
      assert Flat(Answers(p, [])) == "" && p == rest;
      AnswersCons(p, q, []);
      assert [] + [q] == [q] + [];
    } else {
      var n := Taken(p, qs[0]);
      AnswersCons(p, qs[0], qs[1..]);
      AnswersCons(p, qs[0], qs[1..] + [q]);
      hide Answers, Flat, Taken;
      assert qs == [qs[0]] + qs[1..] && qs + [q] == [qs[0]] + (qs[1..] + [q]);
      var f := Flat(Answers(p[n..], qs[1..]));
      assert p == p[..n] + (f + rest) by { Associate(p[..n], f, rest); }
      AnswersSnoc(p[n..], qs[1..], q, rest);
      Associate(p[..n], f, rest[..Taken(rest, q)]);
      Associate([p[..n]], Answers(p[n..], qs[1..]), [rest[..Taken(rest, q)]]);
    }
  }

  // ---------- the buffer ----------

  /** The first k bytes of the user's buffer u and the rest are all there was: p. */
  ghost predicate Delivered(u: string, k: int, rest: string, p: string) {
    0 <= k <= |u| && u[..k] + rest == p
  }

  lemma DeliverMore(u: string, u': string, k: nat, r: nat, rest: string, rest': string, p: string)
    requires Delivered(u, k, rest, p) && k + r <= |u'| && u'[..k] == u[..k] && rest == u'[k..k + r] + rest'
    ensures Delivered(u', k + r, rest', p)
  {
  }

  /** One more character c of the line read, q and rest being what was pending before and after it. */
  lemma LineMore(u: string, i: nat, c: char, q: string, rest: string, p: string, maxlen: nat)
    requires Delivered(u, i, q, p) && i + 1 < maxlen <= |u| && q == [c] + rest
    requires Taken(p, Line(maxlen)) == i + LineLen(q, maxlen - 1 - i)
    ensures Delivered(u[i := c], i + 1, rest, p)
    ensures Taken(p, Line(maxlen)) == i + 1 + if c == '\n' then 0 else LineLen(rest, maxlen - 2 - i)
  {
  }

  /** Nothing has been delivered yet. */
  lemma DeliveredNone(u: string, p: string, maxlen: nat)
    ensures Delivered(u, 0, p, p) && Kept(u, u, 0) && Taken(p, Line(maxlen)) == if maxlen > 1 then LineLen(p, maxlen - 1) else 0
  {
  }

  /** All kept is unchanged. */
  lemma KeptWhole(user: string, u: string)
    requires Kept(user, u, 0)
    ensures u == user
  {
  }

  lemma TakenBytes(u: string, k: nat, rest: string, p: string, n: nat)
    requires Delivered(u, k, rest, p) && k <= n && (k == n || rest == "")
    ensures Taken(p, Bytes(n)) == k
  {
  }

  /** Writing behind the k bytes delivered changes none of them, and nothing further on. */
  lemma WriteBehind(user: string, u: string, k: nat, c: char, rest: string, p: string)
    requires Delivered(u, k, rest, p) && Kept(user, u, k) && k < |u|
    ensures Delivered(u[k := c], k, rest, p) && Kept(user, u[k := c], k + 1)
  {
  }

  /** From k on the user's buffer is as it was. */
  ghost predicate Kept(u0: string, u: string, k: nat) {
    |u0| == |u| && forall i :: k <= i < |u| ==> u[i] == u0[i]
  }

  /** Only the c characters at off may differ. */
  ghost predicate Untouched(u0: string, u: string, off: nat, c: int) {
    |u0| == |u| && forall i :: 0 <= i < |u| && !(off <= i < off + c) ==> u[i] == u0[i]
  }

  /** A read of r bytes behind the k delivered ones. */
  lemma ReadMore(user: string, u: string, u': string, k: nat, r: int, q: string, rest: string, p: string)
    requires Delivered(u, k, q, p) && Kept(user, u, k) && Untouched(u, u', k, r) && r >= -1 && k + r <= |u|
    requires if r >= 0 then q == u'[k..k + r] + rest else rest == q
    ensures Delivered(u', if r >= 0 then k + r else k, rest, p) && Kept(user, u', if r >= 0 then k + r else k)
  {
    assert u'[..k] == u[..k];
    if r >= 0 { DeliverMore(u, u', k, r, q, rest, p); }
  }

  /** The outcomes a refill of an empty buffer goes through change nothing about what is still to fail. */
  lemma ChunkMoves(plan: seq<Outcome>, rest: nat, need: nat)
    requires need > 0 && (plan == [] || plan[0].Short?)
    ensures var c := Chunk(plan, rest, RIO_BUFSIZE);
      c > 0 ==> FailsIn(0, plan, rest, need) == FailsIn(c, if plan == [] then [] else plan[1..], rest - c, need)
  {
  }

  lemma {:induction false} MeetsOne(plan: seq<Outcome>, rest: nat, need: nat)
    requires need > 0
    ensures Meets(plan, rest, 1) ==> Meets(plan, rest, need)
    ensures rest == 0 ==> Meets(plan, rest, need) == Meets(plan, rest, 1)
    decreases |plan|
  {
    if plan != [] && plan[0].Eintr? { MeetsOne(plan[1..], rest, need); }
  }

  /** A plan without failures fails no one. */
  lemma {:induction false} NoneFails(plan: seq<Outcome>, rest: nat, need: nat)
    requires Fail !in plan
    ensures !Meets(plan, rest, need)
    decreases |plan|
  {
    if plan != [] {
      assert plan[0] in plan;
      NoneFails(plan[1..], if plan[0].Short? then rest - Chunk(plan, rest, RIO_BUFSIZE) else rest,
                if plan[0].Short? && Chunk(plan, rest, RIO_BUFSIZE) < need then need - Chunk(plan, rest, RIO_BUFSIZE) else need);
    }
  }

  method Memcpy(to: array<char>, off: nat, from: array<char>, start: nat, c: nat)
    requires to != from && off + c <= to.Length && start + c <= from.Length
    modifies to
    ensures to[off..off + c] == from[start..start + c]
    ensures forall k :: 0 <= k < to.Length && !(off <= k < off + c) ==> to[k] == old(to[k])
  {
    for i := 0 to c
      invariant to[off..off + i] == from[start..start + i]
      invariant forall k :: 0 <= k < to.Length && !(off <= k < off + i) ==> to[k] == old(to[k])
    {
      ghost var done := to[off..off + i];
      to[off + i] := from[start + i];
      assert to[off..off + i + 1] == done + [from[start + i]];
    }
  }

  /** The terminator behind a line. */
  method Terminate(usrbuf: array<char>, i: nat, ghost user: string, ghost rest: string, ghost p: string)
    requires i < usrbuf.Length && Delivered(usrbuf[..], i, rest, p) && Kept(user, usrbuf[..], i)
    modifies usrbuf
    ensures usrbuf[i] == '\0' && Delivered(usrbuf[..], i, rest, p) && Kept(user, usrbuf[..], i + 1)
  {
    ghost var u := usrbuf[..];
    usrbuf[i] := '\0';
    assert usrbuf[..] == u[i := '\0'];
    WriteBehind(user, u, i, '\0', rest, p);
  }

  class RioBuf {
    const fd: Descriptor
    const buf: array<char>
    var cnt: int
    var bufptr: nat

    ghost predicate Valid()
      reads this
    {
      buf.Length == RIO_BUFSIZE && (cnt > 0 ==> bufptr + cnt <= buf.Length)
    }

    ghost function Unread(): string
      requires Valid()
      reads this, buf
    {
      if cnt > 0 then buf[bufptr..bufptr + cnt] else ""
    }

    /** Everything not yet delivered. */
    ghost function Pending(): string
      requires Valid()
      reads this, buf, fd
    {
      Unread() + fd.rest
    }

    constructor (descriptor: Descriptor)
      ensures Valid() && fd == descriptor && fresh(buf) && Pending() == fd.rest
    {
      fd := descriptor;
      buf := new char[RIO_BUFSIZE](i => '\0');
      cnt, bufptr := 0, 0;
    }

    /** Whether a read of need bytes will meet a failing read of the kernel. */
    ghost predicate Fails(need: nat)
      requires Valid()
      reads this, buf, fd
    {
      FailsIn(|Unread()|, fd.plan, |fd.rest|, need)
    }

    /** Refills an empty buffer, trying again when interrupted: 1 if there is something to copy, 0 at the end, -1 exactly on failure. */
    method Refill() returns (rc: int)
      requires Valid()
      modifies this, fd, buf
      ensures Valid() && Pending() == old(Pending())
      ensures rc == -1 <==> old(Fails(1))
      ensures rc == -1 || rc == if old(Pending()) == "" then 0 else 1
      ensures rc == 1 ==> cnt > 0
      ensures rc == 1 ==> SameFailures(old(|Unread()|), old(fd.plan), old(|fd.rest|), 0)
      ensures Fail in fd.plan ==> Fail in old(fd.plan)
    {
      ghost var u0, plan0, rest0 := |Unread()|, fd.plan, |fd.rest|;
      while cnt <= 0
        invariant Valid() && Pending() == old(Pending())
        invariant SameFailures(u0, plan0, rest0, 0)
        invariant Fail in fd.plan ==> Fail in old(fd.plan)
        decreases cnt <= 0, |fd.plan|
      {
        ghost var plan, rest := fd.plan, |fd.rest|;
        assert FailsIn(u0, plan0, rest0, 1) == FailsIn(0, plan, rest, 1);
        var eintr;
        cnt, eintr := fd.Read(buf);
        if cnt < 0 {
          if !eintr { return -1; }
        } else if cnt == 0 {
          return 0;
        } else {
          bufptr := 0;
          forall need: nat | need > 0 ensures FailsIn(0, plan, rest, need) == Fails(need) { ChunkMoves(plan, rest, need); }
        }
      }
      assert FailsIn(u0, plan0, rest0, 1) == Fails(1);
      return 1;
    }

    /** Of the bytes still wanted, done have been delivered since the unread bytes, plan and rest were these. */
    ghost predicate SameFailures(unread: nat, plan: seq<Outcome>, rest: nat, done: nat)
      requires Valid()
      reads this, buf, fd
    {
      forall need: nat {:trigger FailsIn(unread, plan, rest, need)} :: need > 0 && need >= done ==>
        FailsIn(unread, plan, rest, need) == Fails(need - done)
    }

    method RioRead(usrbuf: array<char>, off: nat, n: nat) returns (rc: int)
      requires Valid() && off + n <= usrbuf.Length && usrbuf != buf
      modifies this, fd, buf, usrbuf
      ensures Valid() && -1 <= rc <= n
      ensures rc == -1 <==> old(Fails(1))
      ensures rc == -1 ==> Pending() == old(Pending())
      ensures rc >= 0 ==> old(Pending()) == usrbuf[..][off..off + rc] + Pending() && (rc == 0 <==> n == 0 || old(Pending()) == "")
      ensures rc > 0 ==> SameFailures(old(|Unread()|), old(fd.plan), old(|fd.rest|), rc)
      ensures Untouched(old(usrbuf[..]), usrbuf[..], off, rc)
      ensures Fail in fd.plan ==> Fail in old(fd.plan)
    {
      hide RioBuf.Pending, RioBuf.Unread, FailsIn;
      ghost var u0, plan0, rest0 := |Unread()|, fd.plan, |fd.rest|;
      var filled := Refill();
      if filled == 1 {
        var c: nat := if cnt < n then cnt else n;
        CopyOut(usrbuf, off, c);
        assert usrbuf[..][off..off + c] == usrbuf[off..off + c];
        return c;
      }
      assert usrbuf[..][off..off] == "";
      return filled;
    }

    method CopyOut(usrbuf: array<char>, off: nat, c: nat)
      requires Valid() && off + c <= usrbuf.Length && usrbuf != buf && c <= cnt && cnt > 0
      modifies this, usrbuf
      ensures Valid() && old(Pending()) == usrbuf[off..off + c] + Pending()
      ensures forall need: nat {:trigger old(Fails(need))} :: need >= c ==> old(Fails(need)) == Fails(need - c)
      ensures forall k :: 0 <= k < usrbuf.Length && !(off <= k < off + c) ==> usrbuf[k] == old(usrbuf[k])
    {
      Memcpy(usrbuf, off, buf, bufptr, c);
      ghost var before := Unread();
      bufptr, cnt := bufptr + c, cnt - c;
      assert before == usrbuf[off..off + c] + Unread();
      assert before + fd.rest == usrbuf[off..off + c] + Pending();
    }

    /** All of the next n bytes, or what there is; -1 exactly if getting them meets a failing read, and then nothing is lost but undelivered. */
    method RioReadnb(usrbuf: array<char>, n: nat) returns (rc: int)
      requires Valid() && n <= usrbuf.Length && usrbuf != buf
      modifies this, fd, buf, usrbuf
      ensures Valid() && rc >= -1 && (rc == -1 <==> old(Fails(n)))
      ensures rc >= 0 ==> rc == Taken(old(Pending()), Bytes(n)) && Delivered(usrbuf[..], rc, Pending(), old(Pending()))
      ensures rc >= 0 ==> Kept(old(usrbuf[..]), usrbuf[..], rc)
      ensures rc == -1 ==> exists k :: 0 <= k < n && Delivered(usrbuf[..], k, Pending(), old(Pending())) && Kept(old(usrbuf[..]), usrbuf[..], k)
      ensures Fail in fd.plan ==> Fail in old(fd.plan)
    {
      hide Delivered, Kept, Untouched, Taken, RioBuf.Pending, RioBuf.Valid, RioBuf.Fails, RioBuf.Unread, FailsIn;
      var nleft: nat := n;
      ghost var p, user, failing := Pending(), usrbuf[..], Fails(n);
      DeliveredNone(user, p, 0);
      NeedNothing();
      while nleft > 0
        invariant Valid() && nleft <= n && Delivered(usrbuf[..], n - nleft, Pending(), p) && Kept(user, usrbuf[..], n - nleft)
        invariant failing == Fails(nleft)
        invariant Fail in fd.plan ==> Fail in old(fd.plan)
      {
        ghost var u, q, done := usrbuf[..], Pending(), n - nleft;
        FailsFacts(nleft);
        ghost var u0, plan0, rest0 := |Unread()|, fd.plan, |fd.rest|;
        assert failing == FailsIn(u0, plan0, rest0, nleft);
        var nread := RioRead(usrbuf, n - nleft, nleft);
        ReadMore(user, u, usrbuf[..], done, nread, q, Pending(), p);
        if nread < 0 { return -1; }
        if nread == 0 {
          assert Pending() == "";
          TakenBytes(usrbuf[..], done, Pending(), p, n);
          return n - nleft;
        }
        nleft := nleft - nread;
      }
      NeedNothing();
      TakenBytes(usrbuf[..], n, Pending(), p, n);
      return n;
    }

    lemma NeedNothing()
      requires Valid()
      ensures !Fails(0)
    {
    }

    /** A failure at the next byte is a failure for more; at the end of the input there is no other. */
    lemma FailsFacts(need: nat)
      requires Valid()
      ensures Fails(need) == FailsIn(|Unread()|, fd.plan, |fd.rest|, need)
      ensures need > 0 && Fails(1) ==> Fails(need)
      ensures need > 0 && Pending() == "" && !Fails(1) ==> !Fails(need)
    {
      if need > 0 { MeetsOne(fd.plan, |fd.rest|, need); }
    }

    /** rio_read of a single character. */
    method ReadChar() returns (rc: int, ch: char)
      requires Valid()
      modifies this, fd, buf
      ensures Valid() && -1 <= rc <= 1 && (rc == -1 <==> old(Fails(1)))
      ensures rc == 1 ==> old(Pending()) == [ch] + Pending() && SameFailures(old(|Unread()|), old(fd.plan), old(|fd.rest|), 1)
      ensures rc == 0 ==> old(Pending()) == "" && Pending() == ""
      ensures rc == -1 ==> Pending() == old(Pending())
      ensures Fail in fd.plan ==> Fail in old(fd.plan)
    {
      hide RioBuf.Fails;
      var c := new char[1];
      rc := RioRead(c, 0, 1);
      ch := c[0];
      assert rc == 1 ==> c[0..1] == [ch];
    }

    /** i characters of the line are in usrbuf; ended: no more are wanted. user, p and failing are its contents, what was pending and whether
        a failure lies ahead, when the line was begun. */
    ghost predicate MidLine(usrbuf: array<char>, i: nat, maxlen: nat, ended: bool, user: string, p: string, failing: bool)
      reads this, buf, fd, usrbuf
    {
      Valid() && i < usrbuf.Length && Delivered(usrbuf[..], i, Pending(), p) && Kept(user, usrbuf[..], i)
      && var left := if ended || maxlen < i + 1 then 0 else maxlen - 1 - i;
         Taken(p, Line(maxlen)) == i + LineLen(Pending(), left) && failing == Fails(LineWant(Pending(), left))
    }

    /** One turn of the loop: a character, the end of the input, or a failure. */
    method LineChar(usrbuf: array<char>, i: nat, maxlen: nat, ghost user: string, ghost p: string, ghost failing: bool) returns (rc: int, c: char)
      requires MidLine(usrbuf, i, maxlen, false, user, p, failing) && i + 1 < maxlen <= usrbuf.Length && usrbuf != buf
      modifies this, fd, buf, usrbuf
      ensures -1 <= rc <= 1 && (rc == -1 ==> failing && Valid() && Delivered(usrbuf[..], i, Pending(), p) && Kept(user, usrbuf[..], i))
      ensures rc == 0 ==> MidLine(usrbuf, i, maxlen, true, user, p, failing)
      ensures rc == 1 ==> MidLine(usrbuf, i + 1, maxlen, c == '\n', user, p, failing)
      ensures Fail in fd.plan ==> Fail in old(fd.plan)
    {
      hide Delivered, Kept, LineLen, LineWant, Taken, RioBuf.Pending, RioBuf.Valid, RioBuf.Fails, RioBuf.Unread, FailsIn;
      ghost var q, u, lim := Pending(), usrbuf[..], maxlen - 1 - i;
      ghost var want := LineWant(q, lim);
      LineStep(q, lim);
      FailsFacts(want);
      ghost var u0, plan0, rest0 := |Unread()|, fd.plan, |fd.rest|;
      assert failing == FailsIn(u0, plan0, rest0, want);
      rc, c := ReadChar();
      assert usrbuf[..] == u;
      NeedNothing();
      LineStep(Pending(), 1);
      if rc == 1 {
        LineMore(u, i, c, q, Pending(), p, maxlen);
        WriteBehind(user, u, i, c, q, p);
        usrbuf[i] := c;
        assert usrbuf[..] == u[i := c];
        assert failing == Fails(want - 1);
        assert q[0] == c && q[1..] == Pending();
      }
    }

    /** The next line, terminated; at the end of the input the user's buffer is left alone; -1 exactly if finding the line's end meets
        a failing read. */
    method RioReadlineb(usrbuf: array<char>, maxlen: nat) returns (rc: int)
      requires Valid() && usrbuf.Length >= 1 && maxlen <= usrbuf.Length && usrbuf != buf
      modifies this, fd, buf, usrbuf
      ensures Valid() && rc >= -1 && (rc == -1 <==> old(Fails(Want(Pending(), Line(maxlen)))))
      ensures rc >= 0 ==> rc == Taken(old(Pending()), Line(maxlen)) && Delivered(usrbuf[..], rc, Pending(), old(Pending()))
      ensures rc >= 0 ==> if rc == 0 && maxlen > 1 then usrbuf[..] == old(usrbuf[..]) else usrbuf[rc] == '\0' && Kept(old(usrbuf[..]), usrbuf[..], rc + 1)
      ensures rc == -1 ==> exists k :: 0 <= k < maxlen && Delivered(usrbuf[..], k, Pending(), old(Pending())) && Kept(old(usrbuf[..]), usrbuf[..], k)
      ensures Fail in fd.plan ==> Fail in old(fd.plan)
    {
      hide Delivered, Kept, LineLen, LineWant, Taken, RioBuf.Pending, RioBuf.Valid, RioBuf.Fails;
      var n: nat, i: nat := 1, 0;
      ghost var p, user, failing := Pending(), usrbuf[..], Fails(Want(Pending(), Line(maxlen)));
      DeliveredNone(user, p, maxlen);
      NeedNothing();
      LineStep(p, 1);
      while n < maxlen
        invariant n == i + 1 && MidLine(usrbuf, i, maxlen, false, user, p, failing)
        invariant Fail in fd.plan ==> Fail in old(fd.plan)
      {
        var rc', c := LineChar(usrbuf, i, maxlen, user, p, failing);
        if rc' == 1 {
          i, n := i + 1, n + 1;
          if c == '\n' { break; }
        } else if rc' == 0 {
          if n == 1 {
            KeptWhole(user, usrbuf[..]);
            LineStep(Pending(), 1);
            NeedNothing();
            return 0;
          }
          break;
        } else {
          return -1;
        }
      }
      LineStep(Pending(), 1);
      NeedNothing();
      Terminate(usrbuf, i, user, Pending(), p);
      return n - 1;
    }

    /** A whole run of requests: the answers depend on the input alone, not on how the kernel split it, and nothing is lost. */
    method Session(qs: seq<Request>) returns (out: seq<string>)
      requires Valid() && Fail !in fd.plan
      modifies this, fd, buf
      ensures Valid() && out == Answers(old(Pending()), qs) && Flat(out) + Pending() == old(Pending())
    {
      hide Delivered, Answers, Flat, RioBuf.Pending, RioBuf.Valid;
      out := [];
      ghost var p := Pending();
      NoAnswers(p);
      for i := 0 to |qs|
        invariant Valid() && Fail !in fd.plan
        invariant out == Answers(p, qs[..i]) && Flat(out) + Pending() == p
      {
        ghost var q := Pending();
        var answer := Answer(qs[i]);
        SessionStep(p, qs, i, out, q, answer, Pending());
        out := out + [answer];
      }
      assert qs[..|qs|] == qs;
    }

    method Answer(q: Request) returns (answer: string)
      requires Valid() && Fail !in fd.plan
      modifies this, fd, buf
      ensures Valid() && Fail !in fd.plan
      ensures answer == old(Pending())[..Taken(old(Pending()), q)] && answer + Pending() == old(Pending())
    {
      hide Taken, RioBuf.Pending, RioBuf.Valid, Meets;
      if Want(Pending(), q) > |Unread()| { NoneFails(fd.plan, |fd.rest|, Want(Pending(), q) - |Unread()|); }
      match q
      case Bytes(n) =>
        var usrbuf := new char[n];
        var rc := RioReadnb(usrbuf, n);
        answer := usrbuf[..rc];
      case Line(maxlen) =>
        var usrbuf := new char[maxlen + 1];
        var rc := RioReadlineb(usrbuf, maxlen);
        answer := usrbuf[..rc];
    }
  }

  lemma SessionStep(p: string, qs: seq<Request>, i: nat, out: seq<string>, q: string, answer: string, rest: string)
    requires i < |qs| && out == Answers(p, qs[..i]) && Flat(out) + q == p
    requires answer == q[..Taken(q, qs[i])] && answer + rest == q
    ensures out + [answer] == Answers(p, qs[..i + 1]) && Flat(out + [answer]) + rest == p
  {
    hide Answers, Flat, Taken;
    AnswersSnoc(p, qs[..i], qs[i], q);
    assert qs[..i + 1] == qs[..i] + [qs[i]];
    Associate(Flat(out), answer, rest);
  }

  lemma NoAnswers(p: string)
    ensures Answers(p, []) == [] && Flat([]) + p == p
  {
  }
}
