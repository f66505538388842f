/** Messages as packets: both sides' fragmentation and reassembly, and the client's window of
    64-bit sequence numbers (cld/session.c, cld/server.c, lib/cldc.c, include/cldc.h).  The XDR
    header is abstracted to the fields the protocol uses. */
module Transport {
  import opened Bytes

  const MAX_PKT_MSG: nat := 1024
  const MAX_MSG: nat := 196608
  const TWO_64: nat := 0x1_0000_0000_0000_0000
  const REMEMBER: nat := 25

  type u64 = x: nat | x < TWO_64

  /** Addition and subtraction wrap around. */
  function Add(a: u64, n: nat): u64 {
    (a + n) % TWO_64
  }

  lemma AddNext(a: u64, k: nat)
    ensures Add(Add(a, k), 1) == Add(a, k + 1) && Add(a, 0) == a
  {
    var q, r := (a + k) / TWO_64, (a + k) % TWO_64;
    assert a + k == q * TWO_64 + r;
    if r + 1 == TWO_64 {
      assert a + k + 1 == (q + 1) * TWO_64;
    }
  }

  function Sub(a: u64, b: u64): (r: u64)
    ensures r == if a >= b then a - b else a + TWO_64 - b
  {
    (a + TWO_64 - b) % TWO_64
  }

  datatype MsgOp = NewSess | NotMaster | AckFrag | Ack | Ping | Event | Other(n: nat)

  datatype Order = Mid | First | Last | FirstLast

  predicate IsFirst(o: Order) {
    o.First? || o.FirstLast?
  }

  predicate IsLast(o: Order) {
    o.Last? || o.FirstLast?
  }

  /** `xid` and `op` are carried by first packets only. */
  datatype Pkt = Pkt(sid: nat, order: Order, xid: u64, op: MsgOp, body: bytes, seqid: u64)

  // ---------- Fragmentation ----------

  function PktCount(len: nat): (n: nat)
    ensures n >= 1
  {
    if len == 0 then 1 else (len + MAX_PKT_MSG - 1) / MAX_PKT_MSG
  }

  function OrderAt(i: nat, n: nat): Order {
    if i == 0 then (if i == n - 1 then FirstLast else First) else if i == n - 1 then Last else Mid
  }

  function ChunkAt(msg: bytes, i: nat): bytes
    requires i < PktCount(|msg|)
  {
    msg[i * MAX_PKT_MSG..Min((i + 1) * MAX_PKT_MSG, |msg|)]
  }

  /** What identifies a message on the wire. */
  datatype Tag = Tag(sid: nat, xid: u64, op: MsgOp)

  /** The i-th packet of a message, not yet numbered. */
  function PktAt(msg: bytes, tag: Tag, i: nat): Pkt
    requires i < PktCount(|msg|)
  {
    var order := OrderAt(i, PktCount(|msg|));
    Pkt(tag.sid, order, if i == 0 then tag.xid else 0, if i == 0 then tag.op else Other(0), ChunkAt(msg, i), 0)
  }

  function Cut(msg: bytes, tag: Tag): (ps: seq<Pkt>)
    ensures |ps| == PktCount(|msg|)
    ensures forall i | 0 <= i < |ps| :: ps[i] == PktAt(msg, tag, i)
  {
    seq(PktCount(|msg|), i requires 0 <= i < PktCount(|msg|) => PktAt(msg, tag, i))
  }

  function Numbered(ps: seq<Pkt>, seq0: u64): (r: seq<Pkt>)
    ensures |r| == |ps|
    ensures forall i | 0 <= i < |ps| :: r[i] == ps[i].(seqid := Add(seq0, i))
  {
    seq(|ps|, i requires 0 <= i < |ps| => ps[i].(seqid := Add(seq0, i)))
  }

  /** The packets of a message whose first sequence number is `seq0`. */
  function Fragment(msg: bytes, tag: Tag, seq0: u64): seq<Pkt> {
    Numbered(Cut(msg, tag), seq0)
  }

  /** Gives packets consecutive sequence numbers. */
  method NumberPkts(ps: seq<Pkt>, seq0: u64) returns (r: seq<Pkt>, next: u64)
    ensures r == Numbered(ps, seq0) && next == Add(seq0, |ps|)
  {
    r, next := ps, seq0;
    assert next == Add(seq0, 0);
    hide Add;
    for i := 0 to |ps|
      invariant |r| == |ps| && next == Add(seq0, i)
      invariant forall j | 0 <= j < i :: r[j] == ps[j].(seqid := Add(seq0, j))
      invariant forall j | i <= j < |ps| :: r[j] == ps[j]
    {
      AddNext(seq0, i);
      r := r[i := r[i].(seqid := next)];
      next := Add(next, 1);
    }
  }

  /** The server's packet loop (sess_sendmsg). */
  method ServerCut(msg: bytes, tag: Tag) returns (ps: seq<Pkt>)
    ensures ps == Cut(msg, tag)
  {
    ps := [];
    ghost var n := PktCount(|msg|);
    var first, last, cur := true, false, 0;
    while !last
      invariant 0 <= cur <= |msg| && (first <==> ps == []) && |ps| <= n && (last <==> |ps| == n)
      invariant cur == Min(|ps| * MAX_PKT_MSG, |msg|)
      invariant forall i | 0 <= i < |ps| :: ps[i] == PktAt(msg, tag, i)
      decreases n - |ps|
    {
      var rem := |msg| - cur;
      var chunkLen := MAX_PKT_MSG;
      if rem <= MAX_PKT_MSG {
        chunkLen := rem;
        last := true;
      }
      var order := if first then (if last then FirstLast else First) else if last then Last else Mid;
      ps := ps + [Pkt(tag.sid, order, if first then tag.xid else 0, if first then tag.op else Other(0),
                      msg[cur..cur + chunkLen], 0)];
      first, cur := false, cur + chunkLen;
    }
  }

  /** The client's packet loop (cldc_new_msg). */
  method ClientCut(msg: bytes, tag: Tag) returns (ps: seq<Pkt>)
    ensures ps == Cut(msg, tag)
  {
    var nPkts := if |msg| == 0 then 1 else (|msg| + MAX_PKT_MSG - 1) / MAX_PKT_MSG;
    ps := [];
    var body, bodyLen := 0, |msg|;
    for i := 0 to nPkts
      invariant |ps| == i && 0 <= bodyLen && body + bodyLen == |msg|
      invariant body == Min(i * MAX_PKT_MSG, |msg|)
      invariant forall j | 0 <= j < i :: ps[j] == PktAt(msg, tag, j)
    {
      var order := if i == 0 then (if i == nPkts - 1 then FirstLast else First)
                   else if i == nPkts - 1 then Last else Mid;
      var chunkLen := Min(bodyLen, MAX_PKT_MSG);
      ps := ps + [Pkt(tag.sid, order, if i == 0 then tag.xid else 0, if i == 0 then tag.op else Other(0),
                      msg[body..body + chunkLen], 0)];
      body, bodyLen := body + chunkLen, bodyLen - chunkLen;
    }
  }

  // ---------- Sequence window (include/cldc.h, accept_seqid) ----------

  predicate SeqidAfterEq(a: u64, b: u64) {
    Sub(a, b) < TWO_64 / 2
  }

  predicate SeqidBeforeEq(a: u64, b: u64) {
    SeqidAfterEq(b, a)
  }

  predicate SeqidInRange(a: u64, b: u64, c: u64) {
    SeqidAfterEq(a, b) && SeqidBeforeEq(a, c)
  }

  /** The client's receiving state: window, operation and bytes of the message in progress. */
  datatype Rx = Rx(next: u64, tr: u64, op: MsgOp, buf: bytes)

  function AcceptSeqid(rx: Rx, seqid: u64, op: MsgOp): (bool, Rx) {
    if op.NewSess? then (true, rx.(next := Add(seqid, 1), tr := Sub(Add(seqid, 1), REMEMBER)))
    else if op.NotMaster? || op.AckFrag? then (true, rx)
    else if seqid == rx.next then (true, rx.(next := Add(rx.next, 1), tr := Add(rx.tr, 1)))
    else (SeqidInRange(seqid, rx.tr, rx.next), rx)
  }

  /** The window is REMEMBER wide. */
  predicate WindowOk(rx: Rx) {
    rx.tr == Sub(rx.next, REMEMBER)
  }

  /** With such a window an ordinary number is accepted exactly when it is the next one or at most 25
      behind it, counting modulo 2^64, and only the next one moves the window. */
  lemma AcceptIff(rx: Rx, seqid: u64, op: MsgOp)
    requires WindowOk(rx) && !op.NewSess? && !op.NotMaster? && !op.AckFrag?
    ensures var (ok, rx') := AcceptSeqid(rx, seqid, op);
      && (ok <==> (rx.next - seqid) % 0x1_0000_0000_0000_0000 <= 25)
      && (rx' == rx <==> seqid != rx.next)
      && (seqid == rx.next ==> rx'.next == Add(rx.next, 1)) && WindowOk(rx')
  {
    hide Sub;
    assert rx.next != TWO_64 - 1 ==> Add(rx.next, 1) == rx.next + 1;
    assert rx.tr != TWO_64 - 1 ==> Add(rx.tr, 1) == rx.tr + 1;
  }

  /** The start of a session opens the window, and every later packet keeps its width. */
  lemma AcceptKeepsWindow(rx: Rx, seqid: u64, op: MsgOp)
    requires WindowOk(rx) || op.NewSess?
    ensures WindowOk(AcceptSeqid(rx, seqid, op).1)
  {
  }

  /** So over any run of packets that begins with NEW_SESS the window stays 25 wide. */
  lemma {:induction false} RunKeepsWindow(rx: Rx, ps: seq<Pkt>)
    requires ps != [] && IsFirst(ps[0].order) && ps[0].op.NewSess?
    ensures WindowOk(ClientRxAll(rx, ps).0)
  {
    var n := |ps| - 1;
    var p := ps[n];
    if n > 0 {
      RunKeepsWindow(rx, ps[..n]);
    }
    var rx1 := ClientRxAll(rx, ps[..n]).0;
    var rx2 := if IsFirst(p.order) then rx1.(op := p.op) else rx1;
    AcceptKeepsWindow(rx2, p.seqid, rx2.op);
    hide AcceptSeqid;
  }

  // ---------- Reassembly ----------

  datatype Result = BadSeqid | TooLong | FragAcked | Complete(op: MsgOp, msg: bytes)

  /** cldc_receive_pkt on an authenticated packet. */
  function ClientRx(rx: Rx, p: Pkt): (Rx, Result) {
    var rx1 := if IsFirst(p.order) then rx.(op := p.op) else rx;
    var (ok, rx2) := AcceptSeqid(rx1, p.seqid, rx1.op);
    if !ok then (rx2, BadSeqid)
    else
      var rx3 := if IsFirst(p.order) then rx2.(buf := []) else rx2;
      if |rx3.buf| + |p.body| > MAX_MSG then (rx3, TooLong)
      else
        var rx4 := rx3.(buf := rx3.buf + p.body);
        (rx4, if IsLast(p.order) then Complete(rx4.op, rx4.buf) else FragAcked)
  }

  /** The server's receiving state. */
  datatype SrvRx = SrvRx(nextIn: u64, op: MsgOp, xid: u64, buf: bytes)

  /** get_pkt_info and the reassembly part of tcp_rx, for a packet of an existing session. */
  function ServerRx(rx: SrvRx, p: Pkt): (SrvRx, Result) {
    var op := if IsFirst(p.order) then p.op else rx.op;
    var rx1 := if op.Ack? then rx else rx.(nextIn := Add(rx.nextIn, 1));
    var rx2 := if IsFirst(p.order) then rx1.(op := p.op, xid := p.xid, buf := []) else rx1;
    if |rx2.buf| + |p.body| > MAX_MSG then (rx2, TooLong)
    else
      var rx3 := rx2.(buf := rx2.buf + p.body);
      (rx3, if IsLast(p.order) then Complete(rx3.op, rx3.buf) else FragAcked)
  }

  function ClientRxAll(rx: Rx, ps: seq<Pkt>): (Rx, seq<Result>) {
    if ps == [] then (rx, [])
    else
      var (rx1, rs) := ClientRxAll(rx, ps[..|ps| - 1]);
      var (rx2, r) := ClientRx(rx1, ps[|ps| - 1]);
      (rx2, rs + [r])
  }

  function ServerRxAll(rx: SrvRx, ps: seq<Pkt>): (SrvRx, seq<Result>) {
    if ps == [] then (rx, [])
    else
      var (rx1, rs) := ServerRxAll(rx, ps[..|ps| - 1]);
      var (rx2, r) := ServerRx(rx1, ps[|ps| - 1]);
      (rx2, rs + [r])
  }

  /** What receiving a message in full looks like: one acknowledgement for each packet but the last,
      and the whole message, once, on the last. */
  function Delivery(op: MsgOp, msg: bytes): seq<Result> {
    seq(PktCount(|msg|) - 1, _ => FragAcked) + [Complete(op, msg)]
  }

  /** The bytes of the first k packets. */
  function Sofar(msg: bytes, k: nat): bytes {
    msg[..Min(k * MAX_PKT_MSG, |msg|)]
  }

  lemma SofarStep(msg: bytes, k: nat)
    requires k < PktCount(|msg|)
    ensures Sofar(msg, k) + ChunkAt(msg, k) == Sofar(msg, k + 1)
    ensures k == PktCount(|msg|) - 1 ==> Sofar(msg, k + 1) == msg
  {
    assert k == PktCount(|msg|) - 1 ==> Min((k + 1) * MAX_PKT_MSG, |msg|) == |msg|;
  }

  /** The client's state after k packets of a message delivered in order. */
  ghost predicate Midway(rx0: Rx, rx: Rx, msg: bytes, tag: Tag, seq0: u64, k: nat) {
    && (k > 0 ==> rx.op == tag.op && rx.buf == Sofar(msg, k))
    && (k == 0 ==> rx == rx0)
    && (!tag.op.NotMaster? && !tag.op.AckFrag? && (k > 0 || !tag.op.NewSess?) ==> rx.next == Add(seq0, k))
  }

  /** The next packet in order is accepted. */
  lemma ClientNext(rx0: Rx, rx: Rx, msg: bytes, tag: Tag, seq0: u64, k: nat)
    requires |msg| <= MAX_MSG && k < PktCount(|msg|) && Midway(rx0, rx, msg, tag, seq0, k)
    ensures var (rx', r) := ClientRx(rx, NumberedPkt(msg, tag, seq0, k));
      Midway(rx0, rx', msg, tag, seq0, k + 1) && r == ResultAt(tag.op, msg, k)
  {
    SofarStep(msg, k);
    assert |Sofar(msg, k + 1)| <= |msg|;
    AddNext(seq0, k);
    hide Add, Sub, ChunkAt, Sofar, PktCount;
    assert k == 0 ==> [] + ChunkAt(msg, 0) == ChunkAt(msg, 0);
    assert Sofar(msg, 0) == [];
  }

  function NumberedPkt(msg: bytes, tag: Tag, seq0: u64, k: nat): Pkt
    requires k < PktCount(|msg|)
  {
    PktAt(msg, tag, k).(seqid := Add(seq0, k))
  }

  function ResultAt(op: MsgOp, msg: bytes, k: nat): Result {
    if k == PktCount(|msg|) - 1 then Complete(op, msg) else FragAcked
  }

  /** One more packet, and the answer it gets. */
  lemma PrefixNext(msg: bytes, tag: Tag, seq0: u64, k: nat)
    requires k < PktCount(|msg|)
    ensures |Fragment(msg, tag, seq0)| == |Delivery(tag.op, msg)| == PktCount(|msg|)
    ensures Fragment(msg, tag, seq0)[..k + 1] == Fragment(msg, tag, seq0)[..k] + [NumberedPkt(msg, tag, seq0, k)]
    ensures Delivery(tag.op, msg)[..k + 1] == Delivery(tag.op, msg)[..k] + [ResultAt(tag.op, msg, k)]
  {
    hide PktAt, Add;
  }

  lemma ClientRxSnoc(rx: Rx, ps: seq<Pkt>, p: Pkt)
    ensures var (rx1, rs) := ClientRxAll(rx, ps);
      var (rx2, r) := ClientRx(rx1, p);
      ClientRxAll(rx, ps + [p]) == (rx2, rs + [r])
  {
    assert (ps + [p])[..|ps + [p]| - 1] == ps;
  }

  lemma ServerRxSnoc(rx: SrvRx, ps: seq<Pkt>, p: Pkt)
    ensures var (rx1, rs) := ServerRxAll(rx, ps);
      var (rx2, r) := ServerRx(rx1, p);
      ServerRxAll(rx, ps + [p]) == (rx2, rs + [r])
  {
    assert (ps + [p])[..|ps + [p]| - 1] == ps;
  }

  lemma {:induction false} ClientPrefix(rx: Rx, msg: bytes, tag: Tag, seq0: u64, k: nat)
    requires |msg| <= MAX_MSG && k <= PktCount(|msg|)
    requires tag.op.NewSess? || tag.op.NotMaster? || tag.op.AckFrag? || rx.next == seq0
    ensures var (rx', rs) := ClientRxAll(rx, Fragment(msg, tag, seq0)[..k]);
      && Midway(rx, rx', msg, tag, seq0, k)
      && rs == Delivery(tag.op, msg)[..k]
  {
    var ps := Fragment(msg, tag, seq0);
    if k == 0 {
      AddNext(seq0, 0);
    } else {
      ClientPrefix(rx, msg, tag, seq0, k - 1);
      hide ClientRx, Midway, ClientRxAll, NumberedPkt, ResultAt, Fragment, Delivery, PktCount;
      ClientNext(rx, ClientRxAll(rx, ps[..k - 1]).0, msg, tag, seq0, k - 1);
      PrefixNext(msg, tag, seq0, k - 1);
      ClientRxSnoc(rx, ps[..k - 1], NumberedPkt(msg, tag, seq0, k - 1));
    }
  }

  /** Server to client: any message of up to MAX_MSG bytes, delivered in order, is accepted packet by
      packet and completes exactly once, whole. */
  lemma ClientReassembles(rx: Rx, msg: bytes, tag: Tag, seq0: u64)
    requires |msg| <= MAX_MSG
    requires tag.op.NewSess? || tag.op.NotMaster? || tag.op.AckFrag? || rx.next == seq0
    ensures ClientRxAll(rx, Fragment(msg, tag, seq0)).1 == Delivery(tag.op, msg)
  {
    var ps := Fragment(msg, tag, seq0);
    ClientPrefix(rx, msg, tag, seq0, |ps|);
    assert ps[..|ps|] == ps && Delivery(tag.op, msg)[..|ps|] == Delivery(tag.op, msg);
  }

  /** The server's state after k packets of a message delivered in order. */
  ghost predicate SrvMidway(rx: SrvRx, msg: bytes, tag: Tag, k: nat) {
    k > 0 ==> rx.op == tag.op && rx.xid == tag.xid && rx.buf == Sofar(msg, k)
  }

  lemma ServerNext(rx: SrvRx, msg: bytes, tag: Tag, seq0: u64, k: nat)
    requires k < PktCount(|msg|) && SrvMidway(rx, msg, tag, k)
    ensures var (rx', r) := ServerRx(rx, NumberedPkt(msg, tag, seq0, k));
      if |Sofar(msg, k + 1)| <= MAX_MSG then SrvMidway(rx', msg, tag, k + 1) && r == ResultAt(tag.op, msg, k)
      else r == TooLong
  {
    SofarStep(msg, k);
    hide Add, ChunkAt, Sofar, PktCount;
    assert k == 0 ==> [] + ChunkAt(msg, 0) == ChunkAt(msg, 0);
    assert Sofar(msg, 0) == [];
  }

  lemma {:induction false} ServerPrefix(rx: SrvRx, msg: bytes, tag: Tag, seq0: u64, k: nat)
    requires k <= PktCount(|msg|) && |Sofar(msg, k)| <= MAX_MSG
    ensures var (rx', rs) := ServerRxAll(rx, Fragment(msg, tag, seq0)[..k]);
      SrvMidway(rx', msg, tag, k) && rs == Delivery(tag.op, msg)[..k]
  {
    var ps := Fragment(msg, tag, seq0);
    if k > 0 {
      ServerPrefix(rx, msg, tag, seq0, k - 1);
      hide ServerRx, SrvMidway, ServerRxAll, NumberedPkt, ResultAt, Fragment, Delivery, PktCount, Sofar;
      ServerNext(ServerRxAll(rx, ps[..k - 1]).0, msg, tag, seq0, k - 1);
      PrefixNext(msg, tag, seq0, k - 1);
      ServerRxSnoc(rx, ps[..k - 1], NumberedPkt(msg, tag, seq0, k - 1));
    }
  }

  predicate NoneComplete(rs: seq<Result>) {
    forall i | 0 <= i < |rs| :: !rs[i].Complete?
  }

  lemma FullBuffer(rx: SrvRx, msg: bytes, tag: Tag, seq0: u64, k: nat)
    requires 0 < k < PktCount(|msg|) && |rx.buf| == MAX_MSG
    ensures ServerRx(rx, NumberedPkt(msg, tag, seq0, k)).1 == TooLong
    ensures ServerRx(rx, NumberedPkt(msg, tag, seq0, k)).0.buf == rx.buf
  {
    assert |ChunkAt(msg, k)| > 0;
    hide Add, ChunkAt, PktCount;
  }

  lemma FragmentNotLast(msg: bytes, tag: Tag, n: nat)
    requires n < PktCount(|msg|)
    ensures |Delivery(tag.op, msg)| == PktCount(|msg|) && NoneComplete(Delivery(tag.op, msg)[..n])
  {
  }

  /** Once the buffer is full, every packet of the message that still comes is refused. */
  lemma {:induction false} OversizePrefix(rx: SrvRx, msg: bytes, tag: Tag, seq0: u64, k: nat)
    requires |msg| > MAX_MSG && MAX_MSG / MAX_PKT_MSG <= k <= PktCount(|msg|) == |Fragment(msg, tag, seq0)|
    ensures var (rx', rs) := ServerRxAll(rx, Fragment(msg, tag, seq0)[..k]);
      |rx'.buf| == MAX_MSG && NoneComplete(rs)
  {
    var ps, n := Fragment(msg, tag, seq0), MAX_MSG / MAX_PKT_MSG;
    if k == n {
      OversizeStart(rx, msg, tag, seq0);
    } else {
      hide ServerRx, ServerRxAll, NumberedPkt, Fragment, Delivery, PktCount;
      OversizePrefix(rx, msg, tag, seq0, k - 1);
      PrefixNext(msg, tag, seq0, k - 1);
      ServerRxSnoc(rx, ps[..k - 1], NumberedPkt(msg, tag, seq0, k - 1));
      FullBuffer(ServerRxAll(rx, ps[..k - 1]).0, msg, tag, seq0, k - 1);
    }
  }

  lemma OversizeStart(rx: SrvRx, msg: bytes, tag: Tag, seq0: u64)
    requires |msg| > MAX_MSG
    ensures var n := MAX_MSG / MAX_PKT_MSG;
      && n < PktCount(|msg|) == |Fragment(msg, tag, seq0)|
      && var (rx', rs) := ServerRxAll(rx, Fragment(msg, tag, seq0)[..n]);
         |rx'.buf| == MAX_MSG && NoneComplete(rs)
  {
    var n := MAX_MSG / MAX_PKT_MSG;
    assert Sofar(msg, n) == msg[..MAX_MSG];
    FragmentNotLast(msg, tag, n);
    hide ServerRxAll, Delivery, Fragment, NoneComplete;
    ServerPrefix(rx, msg, tag, seq0, n);
  }

  lemma OversizeNever(rx: SrvRx, msg: bytes, tag: Tag, seq0: u64)
    requires |msg| > MAX_MSG
    ensures NoneComplete(ServerRxAll(rx, Fragment(msg, tag, seq0)).1)
  {
    var ps := Fragment(msg, tag, seq0);
    OversizePrefix(rx, msg, tag, seq0, |ps|);
    assert ps[..|ps|] == ps;
  }

  /** Client to server: a message sent in order arrives whole, once, exactly when it fits; a longer
      one, which the client does not refuse, is cut off by the server at its first packet too many and never
      completes. */
  lemma ServerReassembles(rx: SrvRx, msg: bytes, tag: Tag, seq0: u64)
    ensures |msg| <= MAX_MSG ==> ServerRxAll(rx, Fragment(msg, tag, seq0)).1 == Delivery(tag.op, msg)
    ensures |msg| > MAX_MSG ==> TooLong in ServerRxAll(rx, Fragment(msg, tag, seq0)[..MAX_MSG / MAX_PKT_MSG + 1]).1
    ensures |msg| > MAX_MSG ==> NoneComplete(ServerRxAll(rx, Fragment(msg, tag, seq0)).1)
  {
    var ps := Fragment(msg, tag, seq0);
    if |msg| <= MAX_MSG {
      ServerPrefix(rx, msg, tag, seq0, |ps|);
      assert ps[..|ps|] == ps && Delivery(tag.op, msg)[..|ps|] == Delivery(tag.op, msg);
    } else {
      var k := MAX_MSG / MAX_PKT_MSG;
      ServerPrefix(rx, msg, tag, seq0, k);
      hide ServerRx, SrvMidway, ServerRxAll, NumberedPkt, ResultAt, Fragment, Delivery;
      ServerNext(ServerRxAll(rx, ps[..k]).0, msg, tag, seq0, k);
      PrefixNext(msg, tag, seq0, k);
      ServerRxSnoc(rx, ps[..k], NumberedPkt(msg, tag, seq0, k));
      OversizeNever(rx, msg, tag, seq0);
    }
  }

  // ---------- What packets and states look like ----------

  /** The bytes of the first n packets. */
  function Bodies(ps: seq<Pkt>, n: nat): bytes
    requires n <= |ps|
  {
    if n == 0 then [] else Bodies(ps, n - 1) + ps[n - 1].body
  }

  lemma {:induction false} BodiesAre(msg: bytes, tag: Tag, seq0: u64, n: nat)
    requires n <= |Fragment(msg, tag, seq0)|
    ensures Bodies(Fragment(msg, tag, seq0), n) == Sofar(msg, n)
  {
    if n > 0 {
      BodiesAre(msg, tag, seq0, n - 1);
      SofarStep(msg, n - 1);
      hide PktCount, Sofar, ChunkAt, Add;
    }
  }

  ghost predicate PktFits(p: Pkt, i: nat, n: nat, sid: nat, seq0: u64) {
    && p.sid == sid && p.seqid == (seq0 + i) % 0x1_0000_0000_0000_0000
    && |p.body| <= 1024 && (i < n - 1 ==> |p.body| == 1024)
    && (IsFirst(p.order) <==> i == 0) && (IsLast(p.order) <==> i == n - 1)
  }

  lemma PktFitsAt(msg: bytes, tag: Tag, seq0: u64, i: nat)
    requires i < PktCount(|msg|)
    ensures PktFits(NumberedPkt(msg, tag, seq0, i), i, PktCount(|msg|), tag.sid, seq0)
  {
  }

  /** The packets of a message: of the session, numbered consecutively from `seq0` modulo 2^64, full but for the
      last, marked first and last exactly at the ends, the first with the message's number and operation; and
      their bodies make up the message. */
  lemma FragmentExact(msg: bytes, tag: Tag, seq0: u64)
    ensures var ps := Fragment(msg, tag, seq0);
      && |ps| >= 1 && ps[0].xid == tag.xid && ps[0].op == tag.op
      && (forall i | 0 <= i < |ps| :: PktFits(ps[i], i, |ps|, tag.sid, seq0))
      && Bodies(ps, |ps|) == msg
  {
    var ps := Fragment(msg, tag, seq0);
    BodiesAre(msg, tag, seq0, |ps|);
    SofarStep(msg, |ps| - 1);
    hide PktFits, Sofar, PktCount, Bodies;
    forall i | 0 <= i < |ps|
      ensures PktFits(ps[i], i, |ps|, tag.sid, seq0)
    {
      PktFitsAt(msg, tag, seq0, i);
    }
  }

  /** The server counts every packet of a message but those of an acknowledgement. */
  lemma {:induction false} ServerCounts(rx: SrvRx, msg: bytes, tag: Tag, seq0: u64, k: nat)
    requires k <= PktCount(|msg|) == |Fragment(msg, tag, seq0)| && |Sofar(msg, k)| <= MAX_MSG
    ensures ServerRxAll(rx, Fragment(msg, tag, seq0)[..k]).0.nextIn ==
      if tag.op.Ack? then rx.nextIn else Add(rx.nextIn, k)
  {
    var ps := Fragment(msg, tag, seq0);
    AddNext(rx.nextIn, if k == 0 then 0 else k - 1);
    if k > 0 {
      assert |Sofar(msg, k - 1)| <= |Sofar(msg, k)|;
      hide Add, Sofar, Fragment, PktCount;
      ServerCounts(rx, msg, tag, seq0, k - 1);
      ServerPrefix(rx, msg, tag, seq0, k - 1);
      PrefixNext(msg, tag, seq0, k - 1);
      ServerRxSnoc(rx, ps[..k - 1], NumberedPkt(msg, tag, seq0, k - 1));
      CountNext(ServerRxAll(rx, ps[..k - 1]).0, msg, tag, seq0, k - 1);
      hide ServerRx, ServerRxAll;
    }
  }

  lemma CountNext(rx: SrvRx, msg: bytes, tag: Tag, seq0: u64, k: nat)
    requires k < PktCount(|msg|) && SrvMidway(rx, msg, tag, k)
    ensures ServerRx(rx, NumberedPkt(msg, tag, seq0, k)).0.nextIn ==
      if tag.op.Ack? then rx.nextIn else Add(rx.nextIn, 1)
  {
    hide Add, ChunkAt, Sofar, PktCount;
  }

  /** After a message has arrived, each side holds exactly it, with its operation, and has counted its packets. */
  lemma Arrived(rx: Rx, srv: SrvRx, msg: bytes, tag: Tag, seq0: u64)
    requires |msg| <= MAX_MSG
    requires tag.op.NewSess? || tag.op.NotMaster? || tag.op.AckFrag? || rx.next == seq0
    ensures var rx' := ClientRxAll(rx, Fragment(msg, tag, seq0)).0;
      && rx'.op == tag.op && rx'.buf == msg
      && (!tag.op.NotMaster? && !tag.op.AckFrag? ==> rx'.next == Add(seq0, PktCount(|msg|)))
    ensures var srv' := ServerRxAll(srv, Fragment(msg, tag, seq0)).0;
      && srv'.op == tag.op && srv'.xid == tag.xid && srv'.buf == msg
      && srv'.nextIn == if tag.op.Ack? then srv.nextIn else Add(srv.nextIn, PktCount(|msg|))
  {
    var ps := Fragment(msg, tag, seq0);
    var n := |ps|;
    assert ps[..n] == ps && n == PktCount(|msg|) && n > 0;
    SofarStep(msg, n - 1);
    hide ClientRxAll, ServerRxAll, Fragment, Add, Sofar, PktCount, Delivery;
    ClientPrefix(rx, msg, tag, seq0, n);
    ServerPrefix(srv, msg, tag, seq0, n);
    ServerCounts(srv, msg, tag, seq0, n);
  }

  /** The server's side of a session. */
  class ServerSession {
    const sid: nat
    var nextSeqidOut: u64
    var outQ: seq<Pkt>

    var nextSeqidIn: u64
    var msgOp: MsgOp
    var msgXid: u64
    var msgBuf: bytes

    constructor (sid: nat, seqOut: u64, seqIn: u64)
      ensures this.sid == sid && nextSeqidOut == seqOut && outQ == [] && nextSeqidIn == seqIn && msgBuf == []
    {
      this.sid, nextSeqidOut, outQ := sid, seqOut, [];
      nextSeqidIn, msgOp, msgXid, msgBuf := seqIn, Other(0), 0, [];
    }

    /** sess_sendmsg: cuts the message up, numbers the packets and queues them until acknowledged. */
    method SendMsg(msg: bytes, op: MsgOp, xid: u64) returns (sent: bool)
      modifies `nextSeqidOut, `outQ
      ensures sent <==> |msg| <= MAX_MSG
      ensures sent ==> outQ == old(outQ) + Fragment(msg, Tag(sid, xid, op), old(nextSeqidOut))
      ensures sent ==> nextSeqidOut == Add(old(nextSeqidOut), PktCount(|msg|))
      ensures !sent ==> outQ == old(outQ) && nextSeqidOut == old(nextSeqidOut)
    {
      if |msg| > MAX_MSG {
        return false;
      }
      var newPkts := ServerCut(msg, Tag(sid, xid, op));
      newPkts, nextSeqidOut := NumberPkts(newPkts, nextSeqidOut);
      outQ := outQ + newPkts;
      return true;
    }

    ghost function State(): SrvRx
      reads this
    {
      SrvRx(nextSeqidIn, msgOp, msgXid, msgBuf)
    }

    /** get_pkt_info and tcp_rx. */
    method TcpRx(p: Pkt) returns (r: Result)
      modifies `nextSeqidIn, `msgOp, `msgXid, `msgBuf
      ensures (State(), r) == ServerRx(old(State()), p)
    {
      var xid, op := p.xid, p.op;
      if !IsFirst(p.order) {
        xid, op := msgXid, msgOp;
      }
      if !op.Ack? {
        nextSeqidIn := Add(nextSeqidIn, 1);
      }
      if IsFirst(p.order) {
        msgOp, msgXid, msgBuf := op, xid, [];
      }
      if |msgBuf| + |p.body| > MAX_MSG {
        return TooLong;
      }
      msgBuf := msgBuf + p.body;
      if !IsLast(p.order) {
        return FragAcked;
      }
      return Complete(op, msgBuf);
    }

    /** msg_ack: every queued packet with that number leaves the queue, and no other. */
    method MsgAck(seqid: u64)
      modifies `outQ
      ensures outQ == Unacked(old(outQ), seqid)
      ensures forall p :: p in outQ <==> p in old(outQ) && p.seqid != seqid
    {
      var i, k := 0, 0;
      ghost var q := outQ;
      while i < |outQ|
        invariant 0 <= i <= |outQ| && 0 <= k <= |q| && outQ[i..] == q[k..]
        invariant outQ[..i] == Unacked(q[..k], seqid)
        decreases |q| - k
      {
        assert outQ[i] == outQ[i..][0] == q[k];
        assert q[..k + 1][..k] == q[..k];
        assert outQ[i..][1..] == q[k..][1..];
        if outQ[i].seqid != seqid {
          assert outQ[..i + 1] == outQ[..i] + [outQ[i]];
          i := i + 1;
        } else {
          outQ := outQ[..i] + outQ[i + 1..];
        }
        k := k + 1;
      }
      assert q[..k] == q && outQ[..i] == outQ;
      forall p
        ensures p in Unacked(q, seqid) <==> p in q && p.seqid != seqid
      {
        UnackedMembers(q, seqid, p);
      }
    }
  }

  function Unacked(q: seq<Pkt>, seqid: u64): seq<Pkt> {
    if q == [] then []
    else
      var p := q[|q| - 1];
      Unacked(q[..|q| - 1], seqid) + if p.seqid == seqid then [] else [p]
  }

  /** An acknowledgement drops exactly the packets of its number: those of other numbers stay, in order. */
  lemma {:induction false} UnackedKeeps(q: seq<Pkt>, seqid: u64)
    requires forall p | p in q :: p.seqid != seqid
    ensures Unacked(q, seqid) == q
  {
    if q != [] {
      UnackedKeeps(q[..|q| - 1], seqid);
      assert q == q[..|q| - 1] + [q[|q| - 1]];
    }
  }

  lemma {:induction false} UnackedDrops(a: seq<Pkt>, p: Pkt, b: seq<Pkt>, seqid: u64)
    requires p.seqid == seqid
    ensures Unacked(a + [p] + b, seqid) == Unacked(a + b, seqid)
    decreases |b|
  {
    if b == [] {
      assert a + [p] + b == a + [p] && a + b == a && (a + [p])[..|a|] == a;
    } else {
      var n := |b| - 1;
      UnackedDrops(a, p, b[..n], seqid);
      assert (a + [p] + b)[..|a| + 1 + n] == a + [p] + b[..n];
      assert (a + b)[..|a| + n] == a + b[..n];
    }
  }

  lemma {:induction false} UnackedMembers(q: seq<Pkt>, seqid: u64, p: Pkt)
    ensures p in Unacked(q, seqid) <==> p in q && p.seqid != seqid
  {
    if q != [] {
      UnackedMembers(q[..|q| - 1], seqid, p);
      assert q == q[..|q| - 1] + [q[|q| - 1]];
    }
  }

  /** The client's side of a session. */
  class ClientSession {
    const sid: nat
    var nextSeqidOut: u64
    var nextSeqidIn: u64
    var nextSeqidInTr: u64
    var msgBufOp: MsgOp
    var msgBuf: bytes

    constructor (sid: nat, seqOut: u64)
      ensures this.sid == sid && nextSeqidOut == seqOut && msgBuf == []
    {
      this.sid, nextSeqidOut := sid, seqOut;
      nextSeqidIn, nextSeqidInTr, msgBufOp, msgBuf := 0, 0, Other(0), [];
    }

    ghost function State(): Rx
      reads this
    {
      Rx(nextSeqidIn, nextSeqidInTr, msgBufOp, msgBuf)
    }

    /** cldc_new_msg and sess_send. */
    method Send(msg: bytes, op: MsgOp, xid: u64) returns (pkts: seq<Pkt>)
      modifies `nextSeqidOut
      ensures pkts == Fragment(msg, Tag(sid, xid, op), old(nextSeqidOut))
      ensures nextSeqidOut == Add(old(nextSeqidOut), PktCount(|msg|))
    {
      pkts := ClientCut(msg, Tag(sid, xid, op));
      pkts, nextSeqidOut := NumberPkts(pkts, nextSeqidOut);
    }

    /** cldc_receive_pkt. */
    method ReceivePkt(p: Pkt) returns (r: Result)
      modifies `nextSeqidIn, `nextSeqidInTr, `msgBufOp, `msgBuf
      ensures (State(), r) == ClientRx(old(State()), p)
    {
      if IsFirst(p.order) {
        msgBufOp := p.op;
      }
      match msgBufOp {
        case NewSess =>
          nextSeqidIn := Add(p.seqid, 1);
          nextSeqidInTr := Sub(nextSeqidIn, REMEMBER);
        case NotMaster =>
        case AckFrag =>
        case _ =>
          if p.seqid == nextSeqidIn {
            nextSeqidIn := Add(nextSeqidIn, 1);
            nextSeqidInTr := Add(nextSeqidInTr, 1);
          } else if !SeqidInRange(p.seqid, nextSeqidInTr, nextSeqidIn) {
            return BadSeqid;
          }
      }
      if IsFirst(p.order) {
        msgBuf := [];
      }
      if |msgBuf| + |p.body| > MAX_MSG {
        return TooLong;
      }
      msgBuf := msgBuf + p.body;
      if IsLast(p.order) {
        return Complete(msgBufOp, msgBuf);
      }
      return FragAcked;
    }
  }
}
