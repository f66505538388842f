/** Requests of a CLD client waiting for their responses: completion, re-acknowledgement, expiry and
    session failure, and who gets called back (lib/cldc.c). */
module Requests {

  const MSG_EXPIRE := 5 * 60
  const MSG_SCAN := 60

  /** An outgoing message; `id` stands for its address, `xid` is the random number sent with it. */
  datatype Req = Req(id: nat, xid: nat, expire: int, done: bool)

  /** The list, the next fresh id, and what has happened to the requests no longer waiting:
      called back, in order, or dropped by an expiry scan before any response. */
  datatype Ledger = Ledger(outMsg: seq<Req>, nextId: nat, called: seq<nat>, lapsed: set<nat>, scanTime: int)

  datatype Event =
    | Send(xid: nat, now: int)
    | Response(xid: nat)
    | Scan(now: int)
    | Expire

  function Find(q: seq<Req>, xid: nat, i: nat): (k: nat)
    requires i <= |q|
    ensures i <= k <= |q| && (k < |q| ==> q[k].xid == xid) && forall j | i <= j < k :: q[j].xid != xid
    decreases |q| - i
  {
    if i == |q| || q[i].xid == xid then i else Find(q, xid, i + 1)
  }

  /** Requests not past their expiry time. */
  function Kept(q: seq<Req>, now: int): seq<Req> {
    if q == [] then []
    else
      var m := q[|q| - 1];
      Kept(q[..|q| - 1], now) + if now > m.expire then [] else [m]
  }

  function Waiting(q: seq<Req>): seq<nat> {
    if q == [] then []
    else
      var m := q[|q| - 1];
      Waiting(q[..|q| - 1]) + if m.done then [] else [m.id]
  }

  function Step(s: Ledger, e: Event): Ledger {
    match e
    case Send(xid, now) =>
      s.(outMsg := [Req(s.nextId, xid, now + MSG_EXPIRE, false)] + s.outMsg, nextId := s.nextId + 1)
    case Response(xid) =>
      var k := Find(s.outMsg, xid, 0);
      if k == |s.outMsg| || s.outMsg[k].done then s
      else s.(outMsg := s.outMsg[k := s.outMsg[k].(done := true)], called := s.called + [s.outMsg[k].id])
    case Scan(now) =>
      if now < s.scanTime then s
      else s.(outMsg := Kept(s.outMsg, now), scanTime := now + MSG_SCAN,
              lapsed := s.lapsed + Lapsing(s.outMsg, now))
    case Expire =>
      s.(outMsg := [], called := s.called + Waiting(s.outMsg))
  }

  function Run(events: seq<Event>): Ledger {
    if events == [] then Ledger([], 0, [], {}, 0)
    else Step(Run(events[..|events| - 1]), events[|events| - 1])
  }

  // ---------- What every run keeps ----------

  ghost predicate InList(q: seq<Req>, id: nat) {
    exists m | m in q :: m.id == id
  }

  ghost predicate IsWaiting(q: seq<Req>, id: nat) {
    exists m | m in q :: m.id == id && !m.done
  }

  ghost predicate UniqueIds(q: seq<Req>) {
    forall i, j | 0 <= i < j < |q| :: q[i].id != q[j].id
  }

  ghost predicate NoDup(s: seq<nat>) {
    forall i, j | 0 <= i < j < |s| :: s[i] != s[j]
  }

  lemma NoDupConcat(a: seq<nat>, b: seq<nat>)
    requires NoDup(a) && NoDup(b) && forall x | x in a :: x !in b
    ensures NoDup(a + b)
  {
    forall i, j | 0 <= i < j < |a + b|
      ensures (a + b)[i] != (a + b)[j]
    {
      if i < |a| <= j {
        assert a[i] in a && b[j - |a|] in b;
      }
    }
  }

  lemma UniqueAppend(q: seq<Req>, m: Req)
    requires UniqueIds(q) && !InList(q, m.id)
    ensures UniqueIds(q + [m])
  {
    assert forall i | 0 <= i < |q| :: q[i] in q;
  }

  /** Every request sent is in exactly one of three places: still waiting, called back once, or lapsed. */
  ghost predicate Inv(s: Ledger) {
    && UniqueIds(s.outMsg) && NoDup(s.called)
    && (forall id: nat | id in s.called || id in s.lapsed || InList(s.outMsg, id) :: id < s.nextId)
    && (forall id :: id in s.called ==> !IsWaiting(s.outMsg, id) && id !in s.lapsed)
    && (forall id :: id in s.lapsed ==> !InList(s.outMsg, id))
    && (forall id | 0 <= id < s.nextId :: id in s.called || id in s.lapsed || IsWaiting(s.outMsg, id))
    && (forall m | m in s.outMsg && m.done :: m.id in s.called)
  }

  lemma {:induction false} KeptMembers(q: seq<Req>, now: int)
    ensures forall m :: m in Kept(q, now) <==> m in q && now <= m.expire
  {
    if q != [] {
      KeptMembers(q[..|q| - 1], now);
      assert q == q[..|q| - 1] + [q[|q| - 1]];
    }
  }

  lemma {:induction false} KeptDistinct(q: seq<Req>, now: int)
    requires UniqueIds(q)
    ensures UniqueIds(Kept(q, now))
  {
    if q != [] {
      var init, last := q[..|q| - 1], q[|q| - 1];
      KeptDistinct(init, now);
      KeptMembers(init, now);
      if now <= last.expire {
        UniqueAppend(Kept(init, now), last);
      }
    }
  }

  lemma {:induction false} WaitingMembers(q: seq<Req>)
    requires UniqueIds(q)
    ensures forall id :: id in Waiting(q) <==> IsWaiting(q, id)
    ensures NoDup(Waiting(q))
  {
    if q != [] {
      var init, last := q[..|q| - 1], q[|q| - 1];
      WaitingMembers(init);
      assert q == init + [last];
      forall id
        ensures IsWaiting(q, id) <==> IsWaiting(init, id) || (!last.done && last.id == id)
      {
        if !last.done && last.id == id {
          assert last in q;
        }
        if IsWaiting(init, id) {
          var m :| m in init && m.id == id && !m.done;
          assert m in q;
        }
      }
      assert !IsWaiting(init, last.id);
      NoDupConcat(Waiting(init), if last.done then [] else [last.id]);
    }
  }

  lemma SendKeeps(s: Ledger, xid: nat, now: int)
    requires Inv(s)
    ensures Inv(Step(s, Send(xid, now)))
  {
    var s' := Step(s, Send(xid, now));
    var m := s'.outMsg[0];
    assert m.id == s.nextId;
    forall id
      ensures InList(s'.outMsg, id) <==> InList(s.outMsg, id) || id == s.nextId
      ensures IsWaiting(s'.outMsg, id) <==> IsWaiting(s.outMsg, id) || id == s.nextId
    {
      assert forall x :: x in s'.outMsg <==> x in s.outMsg || x == m;
      assert m in s'.outMsg;
    }
    assert forall i | 0 <= i < |s.outMsg| :: s.outMsg[i] in s.outMsg && InList(s.outMsg, s.outMsg[i].id);
  }

  lemma ResponseKeeps(s: Ledger, xid: nat)
    requires Inv(s)
    ensures Inv(Step(s, Response(xid)))
  {
    var k := Find(s.outMsg, xid, 0);
    if k < |s.outMsg| && !s.outMsg[k].done {
      var q, m, s' := s.outMsg, s.outMsg[k], Step(s, Response(xid));
      var m' := m.(done := true);
      assert m in q && IsWaiting(q, m.id) && InList(q, m.id);
      forall x
        ensures x in s'.outMsg <==> (x in q && x != m) || x == m'
      {
        if x in q && x != m {
          var j :| 0 <= j < |q| && q[j] == x;
          assert s'.outMsg[j] == x;
        }
        assert s'.outMsg[k] == m';
      }
      forall id
        ensures InList(s'.outMsg, id) <==> InList(q, id)
        ensures IsWaiting(s'.outMsg, id) <==> IsWaiting(q, id) && id != m.id
      {
        assert id == m.id ==> m' in s'.outMsg && m in q;
        assert forall x | x in q && x != m :: x.id != m.id;
      }
    }
  }

  /** Ids of the unanswered requests a scan drops. */
  function Lapsing(q: seq<Req>, now: int): set<nat> {
    set i | 0 <= i < |q| && now > q[i].expire && !q[i].done :: q[i].id
  }

  lemma LapsingMembers(q: seq<Req>, now: int, id: nat)
    requires UniqueIds(q)
    ensures id in Lapsing(q, now) ==> IsWaiting(q, id) && !InList(Kept(q, now), id)
    ensures IsWaiting(q, id) ==> id in Lapsing(q, now) || IsWaiting(Kept(q, now), id)
    ensures InList(Kept(q, now), id) ==> InList(q, id)
    ensures IsWaiting(Kept(q, now), id) ==> IsWaiting(q, id)
  {
    KeptMembers(q, now);
    if id in Lapsing(q, now) {
      var i :| 0 <= i < |q| && now > q[i].expire && !q[i].done && q[i].id == id;
      assert q[i] in q;
      assert forall m | m in q && m.id == id :: m == q[i];
    }
    if IsWaiting(q, id) {
      var m :| m in q && m.id == id && !m.done;
      var i :| 0 <= i < |q| && q[i] == m;
    }
  }

  lemma ScanKeeps(s: Ledger, now: int)
    requires Inv(s)
    ensures Inv(Step(s, Scan(now)))
  {
    if now >= s.scanTime {
      KeptMembers(s.outMsg, now);
      KeptDistinct(s.outMsg, now);
      forall id: nat
        ensures id in Lapsing(s.outMsg, now) ==> IsWaiting(s.outMsg, id) && !InList(Kept(s.outMsg, now), id)
        ensures IsWaiting(s.outMsg, id) ==> id in Lapsing(s.outMsg, now) || IsWaiting(Kept(s.outMsg, now), id)
        ensures InList(Kept(s.outMsg, now), id) ==> InList(s.outMsg, id)
        ensures IsWaiting(Kept(s.outMsg, now), id) ==> IsWaiting(s.outMsg, id)
        ensures IsWaiting(s.outMsg, id) ==> InList(s.outMsg, id)
      {
        LapsingMembers(s.outMsg, now, id);
      }
      hide Lapsing, IsWaiting, InList, UniqueIds, NoDup, Kept;
    }
  }

  lemma ExpireKeeps(s: Ledger)
    requires Inv(s)
    ensures Inv(Step(s, Expire))
  {
    WaitingMembers(s.outMsg);
    NoDupConcat(s.called, Waiting(s.outMsg));
  }

  /** Over every run of sends, responses, duplicates, expiry scans and session failures, each
      request's callback runs at most once; it has run unless the request still waits or lapsed. */
  lemma {:induction false} RunKeeps(events: seq<Event>)
    ensures Inv(Run(events))
  {
    if events != [] {
      var s, e := Run(events[..|events| - 1]), events[|events| - 1];
      RunKeeps(events[..|events| - 1]);
      hide Inv, Step;
      match e
      case Send(xid, now) => SendKeeps(s, xid, now);
      case Response(xid) => ResponseKeeps(s, xid);
      case Scan(now) => ScanKeeps(s, now);
      case Expire => ExpireKeeps(s);
    }
  }

  // ---------- Which requests lapse ----------

  /** Request `id` is the one sent by event k. */
  ghost predicate SentAt(events: seq<Event>, k: nat, id: nat) {
    k < |events| && events[k].Send? && Run(events[..k]).nextId == id
  }

  /** Event m is a scan that is due, later than the expiry of the request sent by event k, and comes before
      the request's callback. */
  ghost predicate LapsesAt(events: seq<Event>, k: nat, m: nat, id: nat)
    requires k < m < |events| && events[k].Send?
  {
    && events[m].Scan? && events[m].now >= Run(events[..m]).scanTime
    && events[m].now > events[k].now + MSG_EXPIRE
    && id !in Run(events[..m]).called
  }

  lemma RunNext(events: seq<Event>, n: nat)
    requires n < |events|
    ensures Run(events[..n + 1]) == Step(Run(events[..n]), events[n])
  {
    hide Step;
    assert events[..n + 1][..n] == events[..n];
  }

  /** Request `id` has been sent; wherever it is listed, it has this number and this expiry. */
  ghost predicate Expires(s: Ledger, id: nat, at: int, xid: nat) {
    id < s.nextId && forall m | m in s.outMsg && m.id == id :: m.expire == at && m.xid == xid
  }

  lemma ExpiresStep(s: Ledger, e: Event, id: nat, at: int, xid: nat)
    requires Expires(s, id, at, xid)
    ensures Expires(Step(s, e), id, at, xid)
  {
    if e.Scan? {
      KeptMembers(s.outMsg, e.now);
    }
  }

  lemma {:induction false} ExpiresSince(events: seq<Event>, k: nat, n: nat, id: nat)
    requires SentAt(events, k, id) && k < n <= |events|
    ensures Expires(Run(events[..n]), id, events[k].now + MSG_EXPIRE, events[k].xid)
    decreases n
  {
    RunNext(events, n - 1);
    if n == k + 1 {
      var s := Run(events[..k]);
      RunKeeps(events[..k]);
      assert forall m | m in s.outMsg :: InList(s.outMsg, m.id);
    } else {
      ExpiresSince(events, k, n - 1, id);
      hide Run, Step, Expires;
      ExpiresStep(Run(events[..n - 1]), events[n - 1], id, events[k].now + MSG_EXPIRE, events[k].xid);
    }
  }

  /** One event makes a request lapse exactly when it is a due scan later than the request's expiry, before
      its callback. */
  lemma LapseStep(s: Ledger, e: Event, id: nat, at: int, xid: nat)
    requires Inv(s) && Expires(s, id, at, xid)
    ensures id in Step(s, e).lapsed <==>
      id in s.lapsed || (e.Scan? && e.now >= s.scanTime && e.now > at && id !in s.called)
  {
    if e.Scan? && e.now >= s.scanTime {
      LapsingIs(s.outMsg, e.now, id, at);
      assert id in s.called || id in s.lapsed || IsWaiting(s.outMsg, id);
    }
  }

  lemma LapsingIs(q: seq<Req>, now: int, id: nat, at: int)
    requires forall m | m in q && m.id == id :: m.expire == at
    ensures id in Lapsing(q, now) <==> now > at && IsWaiting(q, id)
  {
    if id in Lapsing(q, now) {
      var i :| 0 <= i < |q| && now > q[i].expire && !q[i].done && q[i].id == id;
      assert q[i] in q;
    }
    if now > at && IsWaiting(q, id) {
      var m :| m in q && m.id == id && !m.done;
      var i :| 0 <= i < |q| && q[i] == m;
      assert q[i].id in Lapsing(q, now);
    }
  }

  ghost predicate LapsesBefore(events: seq<Event>, k: nat, n: nat, id: nat)
    requires k < n <= |events| && events[k].Send?
  {
    exists m | k < m < n :: LapsesAt(events, k, m, id)
  }

  lemma LapsesNext(events: seq<Event>, k: nat, n: nat, id: nat)
    requires k < n < |events| && events[k].Send?
    ensures LapsesBefore(events, k, n + 1, id) <==> LapsesBefore(events, k, n, id) || LapsesAt(events, k, n, id)
  {
    hide LapsesAt;
  }

  lemma LapsedNext(events: seq<Event>, k: nat, n: nat, id: nat)
    requires SentAt(events, k, id) && k < n < |events|
    ensures id in Run(events[..n + 1]).lapsed <==> id in Run(events[..n]).lapsed || LapsesAt(events, k, n, id)
  {
    hide Run, Step, Expires, Inv;
    RunNext(events, n);
    RunKeeps(events[..n]);
    ExpiresSince(events, k, n, id);
    LapseStep(Run(events[..n]), events[n], id, events[k].now + MSG_EXPIRE, events[k].xid);
  }

  lemma JustSent(events: seq<Event>, k: nat, id: nat)
    requires SentAt(events, k, id)
    ensures id !in Run(events[..k + 1]).lapsed
  {
    RunNext(events, k);
    RunKeeps(events[..k]);
    hide Run;
  }

  /** A request has lapsed exactly when a due scan later than its expiry came before its callback. */
  lemma {:induction false} LapsedIff(events: seq<Event>, k: nat, n: nat, id: nat)
    requires SentAt(events, k, id) && k < n <= |events|
    ensures id in Run(events[..n]).lapsed <==> LapsesBefore(events, k, n, id)
    decreases n
  {
    hide Run, LapsesAt, LapsesBefore;
    if n == k + 1 {
      JustSent(events, k, id);
      NoneYet(events, k, id);
    } else {
      LapsedIff(events, k, n - 1, id);
      LapsedNext(events, k, n - 1, id);
      LapsesNext(events, k, n - 1, id);
    }
  }

  lemma NoneYet(events: seq<Event>, k: nat, id: nat)
    requires k < |events| && events[k].Send?
    ensures !LapsesBefore(events, k, k + 1, id)
  {
  }

  // ---------- Which requests are called back ----------

  /** Request `id` is the first in the list with this number. */
  ghost predicate Foremost(q: seq<Req>, xid: nat, id: nat) {
    exists i | 0 <= i < |q| :: q[i].id == id && q[i].xid == xid && forall j | 0 <= j < i :: q[j].xid != xid
  }

  /** Event m finds the request sent by event k waiting, and is the session's expiry or a response with its
      number that no earlier entry of the list has. */
  ghost predicate AnsweredAt(events: seq<Event>, k: nat, m: nat, id: nat)
    requires k < m < |events| && events[k].Send?
  {
    var q := Run(events[..m]).outMsg;
    && IsWaiting(q, id)
    && (events[m].Expire?
        || (events[m].Response? && events[m].xid == events[k].xid && Foremost(q, events[m].xid, id)))
  }

  ghost predicate AnsweredBefore(events: seq<Event>, k: nat, n: nat, id: nat)
    requires k < n <= |events| && events[k].Send?
  {
    exists m | k < m < n :: AnsweredAt(events, k, m, id)
  }

  lemma ResponseCalls(s: Ledger, xid: nat, id: nat)
    requires Inv(s)
    ensures id in Step(s, Response(xid)).called <==>
      id in s.called || (IsWaiting(s.outMsg, id) && Foremost(s.outMsg, xid, id))
  {
    var q := s.outMsg;
    var k := Find(q, xid, 0);
    if k < |q| && !q[k].done {
      assert q[k] in q && Foremost(q, xid, q[k].id) && IsWaiting(q, q[k].id);
    }
    if IsWaiting(q, id) && Foremost(q, xid, id) {
      var i :| 0 <= i < |q| && q[i].id == id && q[i].xid == xid && forall j | 0 <= j < i :: q[j].xid != xid;
      assert i == k;
      var m :| m in q && m.id == id && !m.done;
      assert m == q[i];
    }
  }

  lemma ExpireCalls(s: Ledger, id: nat)
    requires Inv(s)
    ensures id in Step(s, Expire).called <==> id in s.called || IsWaiting(s.outMsg, id)
  {
    WaitingMembers(s.outMsg);
  }

  /** One event calls a request back exactly when it finds it waiting and is the expiry, or a response with its
      number for which it is the first in the list. */
  lemma CallStep(s: Ledger, e: Event, id: nat, at: int, xid: nat)
    requires Inv(s) && Expires(s, id, at, xid)
    ensures id in Step(s, e).called <==>
      || id in s.called
      || (IsWaiting(s.outMsg, id)
          && (e.Expire? || (e.Response? && e.xid == xid && Foremost(s.outMsg, e.xid, id))))
  {
    if e.Response? {
      ResponseCalls(s, e.xid, id);
      assert Foremost(s.outMsg, e.xid, id) ==> e.xid == xid;
    } else if e.Expire? {
      ExpireCalls(s, id);
    }
  }

  lemma CalledNext(events: seq<Event>, k: nat, n: nat, id: nat)
    requires SentAt(events, k, id) && k < n < |events|
    ensures id in Run(events[..n + 1]).called <==> id in Run(events[..n]).called || AnsweredAt(events, k, n, id)
  {
    hide Run, Step, Expires, Inv, Foremost, IsWaiting;
    RunNext(events, n);
    RunKeeps(events[..n]);
    ExpiresSince(events, k, n, id);
    CallStep(Run(events[..n]), events[n], id, events[k].now + MSG_EXPIRE, events[k].xid);
  }

  lemma AnsweredNext(events: seq<Event>, k: nat, n: nat, id: nat)
    requires k < n < |events| && events[k].Send?
    ensures AnsweredBefore(events, k, n + 1, id) <==> AnsweredBefore(events, k, n, id) || AnsweredAt(events, k, n, id)
  {
    hide AnsweredAt;
  }

  lemma NotYetCalled(events: seq<Event>, k: nat, id: nat)
    requires SentAt(events, k, id)
    ensures id !in Run(events[..k + 1]).called && !AnsweredBefore(events, k, k + 1, id)
  {
    RunNext(events, k);
    RunKeeps(events[..k]);
    hide Run;
  }

  /** In every run, a request has been called back exactly when some event found it waiting and was the
      session's expiry, or a response with its number for which it was the first in the list. */
  lemma {:induction false} CalledIff(events: seq<Event>, k: nat, n: nat, id: nat)
    requires SentAt(events, k, id) && k < n <= |events|
    ensures id in Run(events[..n]).called <==> AnsweredBefore(events, k, n, id)
    decreases n
  {
    hide Run, AnsweredAt, AnsweredBefore;
    if n == k + 1 {
      NotYetCalled(events, k, id);
    } else {
      CalledIff(events, k, n - 1, id);
      CalledNext(events, k, n - 1, id);
      AnsweredNext(events, k, n - 1, id);
    }
  }

  /** A request's callback runs at most once, whatever happens. */
  lemma AtMostOnce(events: seq<Event>, id: nat)
    ensures multiset(Run(events).called)[id] <= 1
  {
    RunKeeps(events);
    Distinct(Run(events).called, id);
  }

  lemma Settled(s: Ledger, id: nat)
    requires Inv(s) && s.outMsg == [] && id < s.nextId
    ensures multiset(s.called)[id] == 1 <==> id !in s.lapsed
  {
    Distinct(s.called, id);
  }

  /** Once the session has expired it has run exactly once, unless a due scan later than the request's expiry
      came first. */
  lemma OnceUnlessLapsed(events: seq<Event>, k: nat, id: nat)
    requires SentAt(events, k, id) && events[|events| - 1].Expire?
    ensures multiset(Run(events).called)[id] == 1 <==> !LapsesBefore(events, k, |events|, id)
  {
    var n := |events|;
    assert events[..n] == events;
    RunNext(events, n - 1);
    assert Run(events).outMsg == [];
    hide LapsesBefore, Run, Inv;
    RunKeeps(events);
    LapsedIff(events, k, n, id);
    ExpiresSince(events, k, n, id);
    Settled(Run(events), id);
  }

  lemma {:induction false} Distinct(s: seq<nat>, id: nat)
    requires NoDup(s)
    ensures multiset(s)[id] == if id in s then 1 else 0
  {
    if s != [] {
      var init, last := s[..|s| - 1], s[|s| - 1];
      Distinct(init, id);
      assert s == init + [last];
      assert last !in init;
    }
  }

  // ---------- The client's code ----------

  /** Entry i is the first with this number. */
  predicate IsFirst(q: seq<Req>, xid: nat, i: int) {
    0 <= i < |q| && q[i].xid == xid && forall j | 0 <= j < i :: q[j].xid != xid
  }

  class Client {
    var outMsg: seq<Req>
    var nextId: nat
    var called: seq<nat>
    var scanTime: int
    ghost var lapsed: set<nat>

    ghost function View(): Ledger
      reads this
    {
      Ledger(outMsg, nextId, called, lapsed, scanTime)
    }

    constructor ()
      ensures View() == Run([])
    {
      outMsg, nextId, called, scanTime, lapsed := [], 0, [], 0, {};
    }

    /** sess_send of a new message. */
    method SessSend(xid: nat, now: int)
      modifies this
      ensures View() == Step(old(View()), Send(xid, now))
      ensures outMsg == [Req(old(nextId), xid, now + 300, false)] + old(outMsg) && called == old(called)
    {
      var msg := Req(nextId, xid, now + MSG_EXPIRE, false);
      nextId := nextId + 1;
      outMsg := [msg] + outMsg;
    }

    /** rxmsg_generic: completes the request a response answers; a duplicate is only acknowledged. */
    method RxmsgGeneric(xidIn: nat) returns (rc: int)
      modifies this
      ensures View() == Step(old(View()), Response(xidIn))
      ensures rc == -1005 <==> forall m | m in old(outMsg) :: m.xid != xidIn
      ensures rc == -1005 ==> View() == old(View())
      ensures forall i | IsFirst(old(outMsg), xidIn, i) ::
        var req := old(outMsg)[i];
        if req.done then View() == old(View())
        else View() == old(View()).(outMsg := old(outMsg)[i := req.(done := true)], called := old(called) + [req.id])
    {
      var i := 0;
      while i < |outMsg| && outMsg[i].xid != xidIn
        invariant 0 <= i <= |outMsg| && outMsg == old(outMsg) && View() == old(View())
        invariant Find(outMsg, xidIn, 0) == Find(outMsg, xidIn, i)
        invariant forall j | 0 <= j < i :: outMsg[j].xid != xidIn
      {
        i := i + 1;
      }
      if i == |outMsg| {
        return -1005;
      }
      var req := outMsg[i];
      assert req in old(outMsg);
      if !req.done {
        outMsg := outMsg[i := req.(done := true)];
        called := called + [req.id];
      }
      return 0;
    }

    /** sess_expire_outmsg, as cldc_receive_pkt calls it. */
    method ExpireOutmsg(now: int)
      modifies this
      ensures View() == Step(old(View()), Scan(now))
      ensures scanTime == if now >= old(scanTime) then now + 60 else old(scanTime)
      ensures forall m :: m in outMsg <==> m in old(outMsg) && (now < old(scanTime) || now <= m.expire)
    {
      if now < scanTime {
        return;
      }
      lapsed := lapsed + Lapsing(outMsg, now);
      var i, k := 0, 0;
      ghost var q := outMsg;
      while i < |outMsg|
        invariant 0 <= i <= |outMsg| && 0 <= k <= |q| && outMsg[i..] == q[k..]
        invariant outMsg[..i] == Kept(q[..k], now)
        invariant nextId == old(nextId) && called == old(called)
        invariant lapsed == old(lapsed) + Lapsing(q, now)
        decreases |q| - k
      {
        assert outMsg[i] == outMsg[i..][0] == q[k];
        assert q[..k + 1][..k] == q[..k];
        assert outMsg[i..][1..] == q[k..][1..];
        if now > outMsg[i].expire {
          outMsg := outMsg[..i] + outMsg[i + 1..];
        } else {
          assert outMsg[..i + 1] == outMsg[..i] + [outMsg[i]];
          i := i + 1;
        }
        k := k + 1;
      }
      assert q[..k] == q && outMsg[..i] == outMsg;
      KeptMembers(q, now);
      scanTime := now + MSG_SCAN;
    }

    /** sess_msg_drop: a failed session calls back every request still waiting. */
    method MsgDrop()
      modifies this
      ensures View() == Step(old(View()), Expire)
    {
      for i := 0 to |outMsg|
        invariant outMsg == old(outMsg) && nextId == old(nextId) && lapsed == old(lapsed) && scanTime == old(scanTime)
        invariant called == old(called) + Waiting(outMsg[..i])
      {
        assert outMsg[..i + 1][..i] == outMsg[..i];
        if !outMsg[i].done {
          called := called + [outMsg[i].id];
        }
      }
      assert outMsg[..|outMsg|] == outMsg;
      outMsg := [];
    }

    /** sess_timer: fails the session once nothing was heard for too long, else sends again what
        still waits, which changes no request. */
    method SessTimer(now: int, expireTime: int) returns (resent: seq<nat>)
      modifies this
      ensures now > expireTime ==> View() == Step(old(View()), Expire) && resent == []
      ensures now <= expireTime ==> View() == old(View()) && resent == Waiting(outMsg)
    {
      resent := [];
      if now > expireTime {
        MsgDrop();
        return;
      }
      for i := 0 to |outMsg|
        invariant View() == old(View()) && resent == Waiting(outMsg[..i])
      {
        assert outMsg[..i + 1][..i] == outMsg[..i];
        if !outMsg[i].done {
          resent := resent + [outMsg[i].id];
        }
      }
      assert outMsg[..|outMsg|] == outMsg;
    }
  }
}
