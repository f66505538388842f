/** The asynchronous write queue: buffers are written to a socket in order, by calls that may take any
    number of bytes, and each buffer's callback runs once (lib/atcp.c). */
module WriteQueue {
  import opened Bytes

  /** A buffer handed to the queue.  A null callback is one that does nothing. */
  datatype Buf = Buf(data: bytes, cb: nat)

  /** A queued buffer, of which the last `togo` bytes are not written yet. */
  datatype Write = Write(buf: Buf, togo: nat)

  datatype Call = Call(cb: nat, done: bool)

  /** The two queues, and what happened so far: every buffer accepted, the bytes that reached the
      socket, and the callbacks that ran. */
  datatype State = State(writeQ: seq<Write>, complQ: seq<Write>, history: seq<Buf>, wire: bytes, calls: seq<Call>)

  /** The bytes of the first n buffers. */
  function Upto(h: seq<Buf>, n: nat): bytes
    requires n <= |h|
  {
    if n == 0 then [] else Upto(h, n - 1) + h[n - 1].data
  }

  function Total(q: seq<Write>): nat {
    if q == [] then 0 else |q[0].buf.data| + Total(q[1..])
  }

  function Rest(w: Write): bytes
    requires w.togo <= |w.buf.data|
  {
    w.buf.data[|w.buf.data| - w.togo..]
  }

  predicate Sized(q: seq<Write>) {
    forall i | 0 <= i < |q| :: 0 < q[i].togo <= |q[i].buf.data|
  }

  /** The bytes still to be written. */
  function Pending(q: seq<Write>): bytes
    requires Sized(q)
  {
    if q == [] then [] else Rest(q[0]) + Pending(q[1..])
  }

  predicate Queued(h: seq<Buf>, from: nat, q: seq<Write>) {
    from + |q| <= |h| && forall i | 0 <= i < |q| :: q[i].buf == h[from + i]
  }

  function Sent(q: seq<Write>): bytes
    requires Sized(q)
  {
    if q == [] then [] else q[0].buf.data[..|q[0].buf.data| - q[0].togo]
  }

  /** The buffers accepted are, in order: those whose callback ran, those completed, those queued.  The
      wire holds the first two kinds and what is sent of the first buffer queued. */
  ghost predicate Live(s: State) {
    var c := |s.calls| + |s.complQ|;
    && |s.history| == c + |s.writeQ|
    && Sized(s.writeQ) && (forall i | 1 <= i < |s.writeQ| :: s.writeQ[i].togo == |s.writeQ[i].buf.data|)
    && Queued(s.history, |s.calls|, s.complQ)
    && Queued(s.history, c, s.writeQ)
    && s.wire == Upto(s.history, c) + Sent(s.writeQ)
    && forall i | 0 <= i < |s.calls| :: s.calls[i] == Call(s.history[i].cb, true)
  }

  function Enqueue(s: State, b: Buf): State {
    if b.data == [] then s
    else s.(writeQ := s.writeQ + [Write(b, |b.data|)], history := s.history + [b])
  }

  function EnqueueAll(s: State, bs: seq<Buf>): (r: State)
    ensures r.complQ == s.complQ && r.calls == s.calls && r.wire == s.wire
    decreases |bs|
  {
    if bs == [] then s else EnqueueAll(Enqueue(s, bs[0]), bs[1..])
  }

  /** The first completed buffer's callback runs, and may queue more. */
  function Release(s: State, more: seq<Buf>): (r: State)
    requires s.complQ != []
    ensures r.complQ == s.complQ[1..] && r.calls == s.calls + [Call(s.complQ[0].buf.cb, true)] && r.wire == s.wire
  {
    EnqueueAll(s.(complQ := s.complQ[1..], calls := s.calls + [Call(s.complQ[0].buf.cb, true)]), more)
  }

  /** What a callback does: buffers it queues, and whether it asks the caller to loop. */
  datatype Reaction = Reaction(more: seq<Buf>, again: bool)

  /** The completed buffers' callbacks run, the first of them being the n-th. */
  function ReleaseAll(s: State, react: nat -> Reaction, n: nat): (r: State)
    ensures r.complQ == [] && r.wire == s.wire
    decreases |s.complQ|
  {
    if s.complQ == [] then s else ReleaseAll(Release(s, react(n).more), react, n + 1)
  }

  function Calls(q: seq<Write>, done: bool): (r: seq<Call>)
    ensures |r| == |q| && forall i | 0 <= i < |q| :: r[i] == Call(q[i].buf.cb, done)
  {
    if q == [] then [] else [Call(q[0].buf.cb, done)] + Calls(q[1..], done)
  }

  /** The socket took `sz` more bytes of the first buffer queued. */
  function Took(s: State, sz: nat): State
    requires Sized(s.writeQ) && s.writeQ != [] && sz <= s.writeQ[0].togo
  {
    var w := s.writeQ[0];
    var w' := w.(togo := w.togo - sz);
    var s' := s.(wire := s.wire + Rest(w)[..sz]);
    if w'.togo == 0 then s'.(writeQ := s.writeQ[1..], complQ := s.complQ + [w'])
    else s'.(writeQ := [w'] + s.writeQ[1..])
  }

  lemma {:induction false} UptoPrefix(h: seq<Buf>, h': seq<Buf>, n: nat)
    requires n <= |h| <= |h'| && h'[..|h|] == h
    ensures Upto(h', n) == Upto(h, n)
  {
    if n > 0 {
      UptoPrefix(h, h', n - 1);
      assert h'[..|h|][n - 1] == h'[n - 1];
    }
  }

  lemma EnqueueKeeps(s: State, b: Buf)
    requires Live(s)
    ensures Live(Enqueue(s, b))
  {
    var c := |s.calls| + |s.complQ|;
    UptoPrefix(s.history, s.history + [b], c);
  }

  lemma {:induction false} EnqueueAllKeeps(s: State, bs: seq<Buf>)
    requires Live(s)
    ensures Live(EnqueueAll(s, bs))
    decreases |bs|
  {
    if bs != [] {
      EnqueueKeeps(s, bs[0]);
      EnqueueAllKeeps(Enqueue(s, bs[0]), bs[1..]);
    }
  }

  lemma ReleaseKeeps(s: State, more: seq<Buf>)
    requires Live(s) && s.complQ != []
    ensures Live(Release(s, more))
  {
    EnqueueAllKeeps(s.(complQ := s.complQ[1..], calls := s.calls + [Call(s.complQ[0].buf.cb, true)]), more);
  }

  lemma CallsCons(q: seq<Write>, before: seq<Call>)
    requires q != []
    ensures before + [Call(q[0].buf.cb, true)] + Calls(q[1..], true) == before + Calls(q, true)
  {
  }

  lemma {:induction false} ReleaseAllCalls(s: State, react: nat -> Reaction, n: nat)
    ensures ReleaseAll(s, react, n).calls == s.calls + Calls(s.complQ, true)
    decreases |s.complQ|
  {
    hide Release;
    if s.complQ != [] {
      ReleaseAllCalls(Release(s, react(n).more), react, n + 1);
      CallsCons(s.complQ, s.calls);
      hide Calls;
    }
  }

  /** Callbacks that queue nothing leave the write queue as it is. */
  lemma {:induction false} ReleaseAllIdle(s: State, react: nat -> Reaction, n: nat)
    requires forall k: nat :: react(k).more == []
    ensures ReleaseAll(s, react, n).writeQ == s.writeQ
    decreases |s.complQ|
  {
    if s.complQ != [] {
      ReleaseAllIdle(Release(s, react(n).more), react, n + 1);
    }
  }

  /** Part of the first buffer queued is written. */
  lemma TookSome(s: State, sz: nat)
    requires Live(s) && s.writeQ != [] && sz < s.writeQ[0].togo
    ensures Live(Took(s, sz))
  {
    var w := s.writeQ[0];
    var k := |w.buf.data| - w.togo;
    assert w.buf.data[..k] + Rest(w)[..sz] == w.buf.data[..k + sz];
  }

  /** The rest of the first buffer queued is written. */
  lemma TookRest(s: State)
    requires Live(s) && s.writeQ != []
    ensures Live(Took(s, s.writeQ[0].togo))
  {
    var w := s.writeQ[0];
    var c := |s.calls| + |s.complQ|;
    assert Sent(s.writeQ) + Rest(w)[..w.togo] == w.buf.data;
    assert Upto(s.history, c + 1) == Upto(s.history, c) + w.buf.data;
    assert s.wire + Rest(w)[..w.togo] == Upto(s.history, c + 1) + [];
  }

  lemma Shift(a: bytes, r: bytes, p: bytes, k: nat)
    requires k <= |r|
    ensures a + r[..k] + (r[k..] + p) == a + (r + p)
  {
    assert r[..k] + r[k..] == r;
  }

  lemma TookPending(s: State, sz: nat)
    requires Sized(s.writeQ) && s.writeQ != [] && sz <= s.writeQ[0].togo && Sized(Took(s, sz).writeQ)
    ensures Took(s, sz).wire + Pending(Took(s, sz).writeQ) == s.wire + Pending(s.writeQ)
    ensures |Took(s, sz).wire| == |s.wire| + sz
  {
    var w, rest := s.writeQ[0], s.writeQ[1..];
    Shift(s.wire, Rest(w), Pending(rest), sz);
    if w.togo == sz {
      assert Rest(w)[sz..] == [] && [] + Pending(rest) == Pending(rest);
    } else {
      var w' := w.(togo := w.togo - sz);
      assert ([w'] + rest)[1..] == rest && Rest(w') == Rest(w)[sz..];
    }
  }

  /** Nothing is lost, repeated or reordered by a write of any number of bytes. */
  lemma TookKeeps(s: State, sz: nat)
    requires Live(s) && s.writeQ != [] && sz <= s.writeQ[0].togo
    ensures Live(Took(s, sz))
    ensures Took(s, sz).wire + Pending(Took(s, sz).writeQ) == s.wire + Pending(s.writeQ)
    ensures |Took(s, sz).wire| == |s.wire| + sz
  {
    if sz < s.writeQ[0].togo {
      TookSome(s, sz);
    } else {
      TookRest(s);
    }
    TookPending(s, sz);
  }

  lemma SameSplit(a: bytes, b: bytes, c: bytes, d: bytes, k: nat)
    requires a + b == c + d && |c| == |a| + k && k <= |b|
    ensures c == a + b[..k] && d == b[k..]
  {
    assert c == (c + d)[..|c|] && d == (c + d)[|c|..];
    assert (a + b)[..|c|] == a + b[..k] && (a + b)[|c|..] == b[k..];
  }

  // ---------- What the invariant means ----------

  /** The rest of the history is queued, and nothing of it is sent. */
  ghost predicate Unsent(h: seq<Buf>, c: nat, q: seq<Write>) {
    && Sized(q) && Queued(h, c, q) && |h| == c + |q|
    && forall i | 0 <= i < |q| :: q[i].togo == |q[i].buf.data|
  }

  lemma UnsentTail(s: State, c: nat)
    requires Live(s) && c == |s.calls| + |s.complQ| && s.writeQ != []
    ensures Unsent(s.history, c + 1, s.writeQ[1..])
  {
    var q := s.writeQ[1..];
    assert forall i | 0 <= i < |q| :: q[i] == s.writeQ[i + 1];
  }

  lemma {:induction false} PendingFull(h: seq<Buf>, c: nat, q: seq<Write>)
    requires Unsent(h, c, q)
    ensures Upto(h, c) + Pending(q) == Upto(h, |h|)
    decreases |q|
  {
    if q != [] {
      PendingFull(h, c + 1, q[1..]);
      assert Rest(q[0]) == h[c].data;
      assert Upto(h, c) + Pending(q) == Upto(h, c + 1) + Pending(q[1..]);
    }
  }

  lemma Regroup(a: bytes, b: bytes, c: bytes, d: bytes)
    ensures (a + b) + (c + d) == (a + (b + c)) + d
  {
  }

  lemma SplitHead(h: seq<Buf>, c: nat, q: seq<Write>)
    requires q != [] && Sized(q) && c < |h| && q[0].buf == h[c]
    ensures Upto(h, c) + Sent(q) + Pending(q) == Upto(h, c + 1) + Pending(q[1..])
  {
    assert Sent(q) + Rest(q[0]) == h[c].data;
    Regroup(Upto(h, c), Sent(q), Rest(q[0]), Pending(q[1..]));
  }

  /** Bytes on the wire followed by the bytes still queued are all the bytes ever queued, in order. */
  lemma NothingLost(s: State)
    requires Live(s)
    ensures s.wire + Pending(s.writeQ) == Upto(s.history, |s.history|)
  {
    var c := |s.calls| + |s.complQ|;
    if s.writeQ == [] {
      assert s.wire + [] == s.wire;
    } else {
      UnsentTail(s, c);
      SplitHead(s.history, c, s.writeQ);
      hide Upto, Pending, Sent, Unsent;
      PendingFull(s.history, c + 1, s.writeQ[1..]);
    }
  }

  lemma {:induction false} UptoGrows(h: seq<Buf>, m: nat, n: nat)
    requires m <= n <= |h|
    ensures |Upto(h, m)| <= |Upto(h, n)|
  {
    if m < n {
      UptoGrows(h, m, n - 1);
    }
  }

  /** A buffer has left the write queue exactly when all its bytes are on the wire. */
  lemma CompletedIffWritten(s: State, i: nat)
    requires Live(s) && i < |s.history|
    ensures i < |s.calls| + |s.complQ| <==> |Upto(s.history, i + 1)| <= |s.wire|
  {
    var c := |s.calls| + |s.complQ|;
    if i < c {
      UptoGrows(s.history, i + 1, c);
    } else {
      UptoGrows(s.history, c + 1, i + 1);
      assert s.writeQ[0].buf == s.history[c];
    }
  }

  // ---------- Teardown ----------

  /** The callbacks of everything still queued, completed or not. */
  function Teardown(s: State): seq<Call> {
    s.calls + Calls(s.complQ, true) + Calls(s.writeQ, false)
  }

  /** Over a connection's life each buffer's callback runs exactly once, in the order of queueing, and is
      told `done` exactly when all the buffer's bytes were written. */
  lemma EachCallbackOnce(s: State)
    requires Live(s)
    ensures |Teardown(s)| == |s.history|
    ensures forall i | 0 <= i < |s.history| ::
      Teardown(s)[i] == Call(s.history[i].cb, |Upto(s.history, i + 1)| <= |s.wire|)
  {
    forall i | 0 <= i < |s.history|
      ensures Teardown(s)[i] == Call(s.history[i].cb, |Upto(s.history, i + 1)| <= |s.wire|)
    {
      CompletedIffWritten(s, i);
    }
  }

  lemma {:induction false} TotalJoin(a: seq<Write>, b: seq<Write>)
    ensures Total(a + b) == Total(a) + Total(b)
  {
    if a == [] {
      assert a + b == b;
    } else {
      assert (a + b)[1..] == a[1..] + b;
      TotalJoin(a[1..], b);
    }
  }

  // ---------- Runs ----------

  /** The socket takes the first rc pending bytes. */
  ghost function Advance(s: State, rc: nat): (r: State)
    requires Live(s) && rc <= |Pending(s.writeQ)|
    ensures Live(r)
    decreases rc
  {
    if rc == 0 then s
    else
      var sz := Min(s.writeQ[0].togo, rc);
      TookKeeps(s, sz);
      TookLeaves(s, sz);
      Advance(Took(s, sz), rc - sz)
  }

  lemma TookLeaves(s: State, sz: nat)
    requires Live(s) && s.writeQ != [] && sz <= s.writeQ[0].togo
    ensures Live(Took(s, sz)) && |Pending(Took(s, sz).writeQ)| == |Pending(s.writeQ)| - sz
    ensures Took(s, sz).history == s.history && Took(s, sz).calls == s.calls
  {
    TookKeeps(s, sz);
    var s' := Took(s, sz);
    assert |s'.wire + Pending(s'.writeQ)| == |s.wire + Pending(s.writeQ)|;
  }

  lemma {:induction false} AdvanceWire(s: State, rc: nat)
    requires Live(s) && rc <= |Pending(s.writeQ)|
    ensures |Advance(s, rc).wire| == |s.wire| + rc
    ensures Advance(s, rc).history == s.history && Advance(s, rc).calls == s.calls
    decreases rc
  {
    if rc > 0 {
      var sz := Min(s.writeQ[0].togo, rc);
      TookKeeps(s, sz);
      TookLeaves(s, sz);
      hide Took, Live, Pending;
      AdvanceWire(Took(s, sz), rc - sz);
    }
  }

  /** A buffer handed to the queue, a write that took rc bytes, or the callback of the first completed buffer,
      which hands in more. */
  datatype Event = Queue(b: Buf) | Wrote(rc: nat) | Callback(more: seq<Buf>)

  ghost predicate Enabled(s: State, e: Event)
    requires Sized(s.writeQ)
  {
    match e
    case Queue(_) => true
    case Wrote(rc) => rc <= |Pending(s.writeQ)|
    case Callback(_) => s.complQ != []
  }

  ghost function Step(s: State, e: Event): (r: State)
    requires Live(s) && Enabled(s, e)
    ensures Live(r)
  {
    match e
    case Queue(b) => EnqueueKeeps(s, b); Enqueue(s, b)
    case Wrote(rc) => Advance(s, rc)
    case Callback(more) => ReleaseKeeps(s, more); Release(s, more)
  }

  const EMPTY: State := State([], [], [], [], [])

  ghost predicate IsRun(events: seq<Event>)
    decreases |events|, 0
  {
    var n := |events| - 1;
    events == [] || (IsRun(events[..n]) && Enabled(After(events[..n]), events[n]))
  }

  ghost function After(events: seq<Event>): (s: State)
    requires IsRun(events)
    ensures Live(s)
    decreases |events|, 1
  {
    if events == [] then EMPTY else Step(After(events[..|events| - 1]), events[|events| - 1])
  }

  // What a run hands in, takes and calls, from its events alone.

  function NonEmpty(bs: seq<Buf>): seq<Buf> {
    if bs == [] then [] else (if bs[0].data == [] then [] else [bs[0]]) + NonEmpty(bs[1..])
  }

  /** The non-empty buffers handed in, by the caller and by callbacks, in order. */
  function Handed(events: seq<Event>): seq<Buf> {
    if events == [] then []
    else
      var e := events[|events| - 1];
      Handed(events[..|events| - 1]) +
      match e
      case Queue(b) => NonEmpty([b])
      case Wrote(_) => []
      case Callback(more) => NonEmpty(more)
  }

  /** The number of bytes the socket took. */
  function Taken(events: seq<Event>): nat {
    if events == [] then 0
    else
      var e := events[|events| - 1];
      Taken(events[..|events| - 1]) + if e.Wrote? then e.rc else 0
  }

  function Called(events: seq<Event>): nat {
    if events == [] then 0
    else Called(events[..|events| - 1]) + if events[|events| - 1].Callback? then 1 else 0
  }

  lemma {:induction false} EnqueueAllHistory(s: State, bs: seq<Buf>)
    ensures EnqueueAll(s, bs).history == s.history + NonEmpty(bs)
    decreases |bs|
  {
    if bs == [] {
      assert s.history + [] == s.history;
    } else {
      EnqueueAllHistory(Enqueue(s, bs[0]), bs[1..]);
      var one := if bs[0].data == [] then [] else [bs[0]];
      assert Enqueue(s, bs[0]).history == s.history + one;
      assert s.history + one + NonEmpty(bs[1..]) == s.history + (one + NonEmpty(bs[1..]));
    }
  }

  /** What one event adds to the history, the wire and the callbacks. */
  lemma StepAdds(s: State, e: Event)
    requires Live(s) && Enabled(s, e)
    ensures Step(s, e).history == s.history +
      match e { case Queue(b) => NonEmpty([b]) case Wrote(_) => [] case Callback(more) => NonEmpty(more) }
    ensures |Step(s, e).wire| == |s.wire| + if e.Wrote? then e.rc else 0
    ensures |Step(s, e).calls| == |s.calls| + if e.Callback? then 1 else 0
  {
    match e
    case Queue(b) =>
      assert NonEmpty([b]) == if b.data == [] then [] else [b];
      assert s.history + [] == s.history;
    case Wrote(rc) =>
      AdvanceWire(s, rc);
      assert s.history + [] == s.history;
    case Callback(more) =>
      EnqueueAllHistory(s.(complQ := s.complQ[1..], calls := s.calls + [Call(s.complQ[0].buf.cb, true)]), more);
  }

  lemma {:induction false} RunAdds(events: seq<Event>)
    requires IsRun(events)
    ensures After(events).history == Handed(events)
    ensures |After(events).wire| == Taken(events) && |After(events).calls| == Called(events)
  {
    if events != [] {
      var n := |events| - 1;
      RunAdds(events[..n]);
      StepAdds(After(events[..n]), events[n]);
      hide Step, Live, Enabled, NonEmpty;
    }
  }

  /** In every run, the wire holds the first bytes of the buffers handed in, as many as the socket took; what is
      still queued is the rest of them; and the first of their callbacks have run, told done, as many as there
      were callback events. */
  lemma RunDelivers(events: seq<Event>)
    requires IsRun(events)
    ensures var s, h := After(events), Handed(events);
      && Taken(events) <= |Upto(h, |h|)| && s.wire == Upto(h, |h|)[..Taken(events)]
      && Pending(s.writeQ) == Upto(h, |h|)[Taken(events)..]
      && Called(events) == |s.calls| <= |h| && forall i | 0 <= i < |s.calls| :: s.calls[i] == Call(h[i].cb, true)
  {
    RunAdds(events);
    NothingLost(After(events));
    hide IsRun, After, Handed, Taken, Called, Upto, Pending;
    var s := After(events);
    assert s.wire == (s.wire + Pending(s.writeQ))[..|s.wire|];
    assert Pending(s.writeQ) == (s.wire + Pending(s.writeQ))[|s.wire|..];
  }

  /** And a teardown after any run completes the callbacks: one for each buffer handed in, in order, told done
      exactly when the socket took all of the buffer's bytes. */
  lemma RunCallsAll(events: seq<Event>)
    requires IsRun(events)
    ensures var h := Handed(events);
      && |Teardown(After(events))| == |h|
      && forall i | 0 <= i < |h| ::
           Teardown(After(events))[i] == Call(h[i].cb, |Upto(h, i + 1)| <= Taken(events))
  {
    RunAdds(events);
    hide IsRun, After, Handed, Taken, Called, Upto, Teardown;
    EachCallbackOnce(After(events));
  }

  // ---------- The program ----------

  datatype WriteResult = Wrote(rc: nat) | Again | Failed

  function Flat(iov: seq<bytes>): bytes {
    if iov == [] then [] else iov[0] + Flat(iov[1..])
  }

  const MAX_WR_IOV: nat := 32

  /** What one write call offers the socket. */
  ghost function Offered(q: seq<Write>): bytes
    requires Sized(q)
  {
    Pending(q[..Min(|q|, MAX_WR_IOV)])
  }

  class WriteState {
    var writeQ: seq<Write>
    var complQ: seq<Write>
    var writeCnt: nat
    var writeCntMax: nat
    ghost var history: seq<Buf>
    ghost var wire: bytes
    ghost var calls: seq<Call>

    ghost function View(): State
      reads this
    {
      State(writeQ, complQ, history, wire, calls)
    }

    /** The water level is the total length over both queues. */
    ghost predicate Valid()
      reads this
    {
      Live(View()) && writeCnt == Total(complQ) + Total(writeQ) && writeCnt <= writeCntMax
    }

    /** atcp_wr_init. */
    constructor ()
      ensures Valid() && View() == State([], [], [], [], [])
    {
      writeQ, complQ, writeCnt, writeCntMax, history, wire, calls := [], [], 0, 0, [], [], [];
    }

    /** atcp_writeq. */
    method Writeq(b: Buf) returns (ok: bool)
      requires Valid()
      modifies this
      ensures Valid() && ok == (b.data != []) && View() == Enqueue(old(View()), b)
      ensures writeCntMax == if writeCnt > old(writeCntMax) then writeCnt else old(writeCntMax)
      ensures ok ==> writeQ == old(writeQ) + [Write(b, |b.data|)] && writeCnt == old(writeCnt) + |b.data|
      ensures !ok ==> writeQ == old(writeQ) && writeCnt == old(writeCnt)
      ensures complQ == old(complQ) && wire == old(wire) && calls == old(calls)
      ensures history == old(history) + if ok then [b] else []
    {
      if |b.data| == 0 {
        return false;
      }
      EnqueueKeeps(View(), b);
      TotalJoin(writeQ, [Write(b, |b.data|)]);
      writeQ := writeQ + [Write(b, |b.data|)];
      history := history + [b];
      writeCnt := writeCnt + |b.data|;
      if writeCnt > writeCntMax {
        writeCntMax := writeCnt;
      }
      ok := true;
    }

    /** atcp_wr_iov: the unwritten parts of the first 32 buffers. */
    method WrIov() returns (iov: seq<bytes>)
      requires Valid()
      ensures |iov| <= MAX_WR_IOV && Flat(iov) == Offered(writeQ)
    {
      iov := [];
      var n := 0;
      while n < |writeQ| && n != MAX_WR_IOV
        invariant n == |iov| <= |writeQ| && n <= MAX_WR_IOV
        invariant forall i | 0 <= i < n :: iov[i] == Rest(writeQ[i])
      {
        iov := iov + [writeQ[n].buf.data[|writeQ[n].buf.data| - writeQ[n].togo..]];
        n := n + 1;
      }
      IovPending(iov, writeQ[..n]);
    }

    /** atcp_wr_completed. */
    method WrCompleted(rc: nat)
      requires Valid() && rc <= |Pending(writeQ)|
      modifies this`writeQ, this`complQ, this`wire
      ensures Valid() && wire == old(wire) + Pending(old(writeQ))[..rc]
      ensures |Pending(writeQ)| == |Pending(old(writeQ))| - rc
      ensures wire + Pending(writeQ) == old(wire) + Pending(old(writeQ))
      ensures View() == Advance(old(View()), rc)
    {
      hide Upto, Queued, Rest, Took, Total;
      var left := rc;
      ghost var all := wire + Pending(writeQ);
      while left > 0
        invariant Valid() && 0 <= left <= |Pending(writeQ)|
        invariant |wire| == |old(wire)| + rc - left && wire + Pending(writeQ) == all
        invariant Advance(View(), left) == Advance(old(View()), rc)
      {
        var sz := if writeQ[0].togo < left then writeQ[0].togo else left;
        TookKeeps(View(), sz);
        TookTotal(View(), sz);
        Take(sz);
        left := left - sz;
      }
      SameSplit(old(wire), Pending(old(writeQ)), wire, Pending(writeQ), rc);
    }

    /** The body of that loop. */
    method Take(sz: nat)
      requires Live(View()) && writeQ != [] && sz <= writeQ[0].togo
      modifies this`writeQ, this`complQ, this`wire
      ensures View() == Took(old(View()), sz)
    {
      var tmp := writeQ[0];
      wire := wire + Rest(tmp)[..sz];
      tmp := tmp.(togo := tmp.togo - sz);
      if tmp.togo == 0 {
        writeQ := writeQ[1..];
        complQ := complQ + [tmp];
      } else {
        writeQ := [tmp] + writeQ[1..];
      }
    }

    /** atcp_writable: the socket takes any number of the bytes offered, or none, or fails.  Once the queue is
        empty the write event is removed, and if that fails the queue is torn down, every callback being told
        that its buffer was written. */
    method Writable(result: WriteResult, evDelOk: bool) returns (ok: bool, ghost log: seq<Call>)
      requires Valid() && (result.Wrote? ==> result.rc <= |Offered(writeQ)|)
      modifies this
      ensures Valid() && (ok <==> result.Again? || (result.Wrote? && (evDelOk || result.rc < |Pending(old(writeQ))|)))
      ensures result.Wrote? && ok ==>
        && wire == old(wire) + Offered(old(writeQ))[..result.rc]
        && wire + Pending(writeQ) == old(wire) + Pending(old(writeQ))
        && history == old(history) && calls == old(calls)
      ensures result.Again? ==> View() == old(View())
      ensures !ok ==> View() == State([], [], [], [], []) && |log| == |old(history)|
      ensures result.Failed? ==> log == Teardown(old(View()))
      ensures result.Wrote? && !ok ==> forall i | 0 <= i < |log| :: log[i] == Call(old(history)[i].cb, true)
    {
      ok, log := true, [];
      var iov := WrIov();
      PendingPrefix(writeQ, Min(|writeQ|, MAX_WR_IOV));
      EachCallbackOnce(View());
      hide Upto, Queued, Rest, Sent, Calls, Total, Teardown;
      match result {
        case Wrote(rc) =>
          ok, log := WroteSome(rc, evDelOk);
        case Again =>
        case Failed =>
          ok := false;
          log := FreeAll();
      }
    }

    /** The case that the socket took rc bytes. */
    method WroteSome(rc: nat, evDelOk: bool) returns (ok: bool, ghost log: seq<Call>)
      requires Valid() && rc <= |Pending(writeQ)|
      modifies this
      ensures Valid() && (ok <==> evDelOk || rc < |Pending(old(writeQ))|)
      ensures ok ==>
        && wire == old(wire) + Pending(old(writeQ))[..rc]
        && wire + Pending(writeQ) == old(wire) + Pending(old(writeQ))
        && history == old(history) && calls == old(calls)
      ensures !ok ==> View() == State([], [], [], [], []) && |log| == |old(history)|
      ensures !ok ==> forall i | 0 <= i < |log| :: log[i] == Call(old(history)[i].cb, true)
    {
      hide Upto, Queued, Rest, Sent, Calls, Total, Teardown;
      ok, log := true, [];
      WrCompleted(rc);
      EmptyIff(writeQ);
      if |writeQ| == 0 && !evDelOk {
        AllDone(View());
        ok := false;
        log := FreeAll();
      }
    }

    /** atcp_write_run_compl; `react(n)` is what the n-th callback run does. */
    method RunCompl(react: nat -> Reaction) returns (again: bool)
      requires Valid()
      modifies this
      ensures Valid() && View() == ReleaseAll(old(View()), react, 0)
      ensures again <==> exists n: nat | n < |old(complQ)| :: react(n).again
    {
      hide Live, Release, Calls;
      again := false;
      var n := 0;
      while complQ != []
        invariant Valid() && n + |complQ| == |old(complQ)|
        invariant ReleaseAll(View(), react, n) == ReleaseAll(old(View()), react, 0)
        invariant again <==> exists k: nat | k < n :: react(k).again
        decreases |complQ|
      {
        ReleaseOne(react(n).more);
        again := again || react(n).again;
        n := n + 1;
      }
    }

    /** atcp_write_free of a completed buffer, with its callback. */
    method ReleaseOne(more: seq<Buf>)
      requires Valid() && complQ != []
      modifies this
      ensures Valid() && View() == Release(old(View()), more)
    {
      ReleaseKeeps(View(), []);
      hide Live, Enqueue;
      var tmp := complQ[0];
      writeCnt := writeCnt - |tmp.buf.data|;
      complQ := complQ[1..];
      calls := calls + [Call(tmp.buf.cb, true)];
      var i := 0;
      while i < |more|
        invariant i <= |more| && Valid()
        invariant EnqueueAll(View(), more[i..]) == Release(old(View()), more)
      {
        assert more[i..][1..] == more[i + 1..];
        var _ := Writeq(more[i]);
        i := i + 1;
      }
    }

    /** atcp_write_free_all, with callbacks that queue nothing: both queues are emptied, the completed
        buffers' callbacks being told so and the others the contrary.  The history starts anew. */
    method FreeAll() returns (ghost log: seq<Call>)
      requires Valid()
      modifies this
      ensures Valid() && View() == State([], [], [], [], []) && writeCnt == 0
      ensures log == Teardown(old(View()))
    {
      ghost var idle := (n: nat) => Reaction([], false);
      ReleaseAllIdle(View(), idle, 0);
      ReleaseAllCalls(View(), idle, 0);
      var _ := RunCompl((n: nat) => Reaction([], false));
      ghost var freed := FreeQueued();
      log := calls + freed;
      history, wire, calls := [], [], [];
    }

    /** Its second half: what is still in the write queue. */
    method FreeQueued() returns (ghost log: seq<Call>)
      requires Valid() && complQ == []
      modifies this`writeQ, this`writeCnt
      ensures writeQ == [] && writeCnt == 0
      ensures log == Calls(old(writeQ), false)
    {
      log := [];
      while writeQ != []
        invariant writeCnt == Total(writeQ)
        invariant log + Calls(writeQ, false) == Calls(old(writeQ), false)
        decreases |writeQ|
      {
        writeCnt := writeCnt - |writeQ[0].buf.data|;
        log := log + [Call(writeQ[0].buf.cb, false)];
        writeQ := writeQ[1..];
      }
    }
  }

  lemma {:induction false} IovPending(iov: seq<bytes>, q: seq<Write>)
    requires Sized(q) && |iov| == |q| && forall i | 0 <= i < |iov| :: iov[i] == Rest(q[i])
    ensures Flat(iov) == Pending(q)
  {
    if iov != [] {
      IovPending(iov[1..], q[1..]);
    }
  }

  lemma {:induction false} PendingPrefix(q: seq<Write>, n: nat)
    requires Sized(q) && n <= |q|
    ensures Pending(q[..n]) <= Pending(q)
  {
    if n > 0 {
      PendingPrefix(q[1..], n - 1);
      assert q[..n][1..] == q[1..][..n - 1];
    }
  }

  lemma EmptyIff(q: seq<Write>)
    requires Sized(q)
    ensures q == [] <==> Pending(q) == []
  {
  }

  lemma LiveCount(s: State)
    requires Live(s)
    ensures |s.history| == |s.calls| + |s.complQ| + |s.writeQ|
  {
  }

  /** With nothing left to write, teardown tells every callback that its buffer was written. */
  lemma AllDone(s: State)
    requires Live(s) && s.writeQ == []
    ensures |Teardown(s)| == |s.history|
    ensures forall i | 0 <= i < |s.history| :: Teardown(s)[i] == Call(s.history[i].cb, true)
  {
    EachCallbackOnce(s);
    hide Teardown, Live, Upto;
    forall i | 0 <= i < |s.history|
      ensures Teardown(s)[i] == Call(s.history[i].cb, true)
    {
      CompletedIffWritten(s, i);
      LiveCount(s);
    }
  }

  lemma TookTotal(s: State, sz: nat)
    requires Live(s) && s.writeQ != [] && sz <= s.writeQ[0].togo
    ensures Total(Took(s, sz).complQ) + Total(Took(s, sz).writeQ) == Total(s.complQ) + Total(s.writeQ)
  {
    var w := s.writeQ[0];
    TotalJoin(s.complQ, [w.(togo := w.togo - sz)]);
  }
}
