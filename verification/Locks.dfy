/** Lock records of one inode, in the order their database keeps them, and the cursor loops
    that search, add and remove them (cld/cldb.c, cld/session.c, cld/msg.c). */
module Locks {

  datatype Lock = Lock(sid: nat, fh: nat, ctime: int, shared: bool, pending: bool)

  /** lock_compare on records of the same inode. */
  predicate Before(a: Lock, b: Lock) {
    || a.ctime < b.ctime
    || (a.ctime == b.ctime && (a.sid < b.sid || (a.sid == b.sid && a.fh < b.fh)))
  }

  predicate SameKey(a: Lock, b: Lock) {
    a.ctime == b.ctime && a.sid == b.sid && a.fh == b.fh
  }

  ghost predicate Sorted(ls: seq<Lock>) {
    forall j, k | 0 <= j < k < |ls| :: Before(ls[j], ls[k])
  }

  /** The granted records are all shared, or there is just one. */
  ghost predicate Compatible(ls: seq<Lock>) {
    forall j, k | 0 <= j < k < |ls| && !ls[j].pending && !ls[k].pending :: ls[j].shared && ls[k].shared
  }

  ghost predicate Ok(ls: seq<Lock>) {
    Sorted(ls) && Compatible(ls)
  }

  /** A granted record stands in the way of a new request. */
  predicate Conflicts(l: Lock, shared: bool) {
    !l.pending && (!shared || !l.shared)
  }

  predicate HasConflict(ls: seq<Lock>, shared: bool) {
    exists l | l in ls :: Conflicts(l, shared)
  }

  /** Position at which the sorted list takes `l`. */
  function Place(ls: seq<Lock>, l: Lock, i: nat): (k: nat)
    requires i <= |ls|
    ensures i <= k <= |ls| && (k < |ls| ==> !Before(ls[k], l))
    ensures forall j | i <= j < k :: Before(ls[j], l)
    decreases |ls| - i
  {
    if i < |ls| && Before(ls[i], l) then Place(ls, l, i + 1) else i
  }

  predicate Present(ls: seq<Lock>, l: Lock) {
    exists x | x in ls :: SameKey(x, l)
  }

  function Insert(ls: seq<Lock>, l: Lock): seq<Lock> {
    var k := Place(ls, l, 0);
    ls[..k] + [l] + ls[k..]
  }

  lemma InsertMembers(ls: seq<Lock>, l: Lock)
    ensures forall x :: x in Insert(ls, l) <==> x in ls || x == l
  {
    var k := Place(ls, l, 0);
    assert ls == ls[..k] + ls[k..];
  }

  lemma InsertSorted(ls: seq<Lock>, l: Lock)
    requires Sorted(ls) && !Present(ls, l)
    ensures Sorted(Insert(ls, l))
  {
    var k := Place(ls, l, 0);
    var r := Insert(ls, l);
    forall i, j | 0 <= i < j < |r|
      ensures Before(r[i], r[j])
    {
      assert i != k ==> r[i] == ls[if i < k then i else i - 1];
      assert j != k ==> r[j] == ls[if j < k then j else j - 1];
      if i == k {
        assert ls[k] in ls && (ls[j - 1] == ls[k] || Before(ls[k], ls[j - 1]));
      }
    }
  }

  lemma InsertCompatible(ls: seq<Lock>, l: Lock)
    requires Compatible(ls) && (l.pending || !HasConflict(ls, l.shared))
    ensures Compatible(Insert(ls, l))
  {
    var k := Place(ls, l, 0);
    var r := Insert(ls, l);
    forall i, j | 0 <= i < j < |r| && !r[i].pending && !r[j].pending
      ensures r[i].shared && r[j].shared
    {
      assert i != k ==> r[i] == ls[if i < k then i else i - 1];
      assert j != k ==> r[j] == ls[if j < k then j else j - 1];
      assert !l.pending ==> forall m | 0 <= m < |ls| :: ls[m] in ls && !Conflicts(ls[m], l.shared);
    }
  }

  // ---------- Adding ----------

  datatype Outcome = Acquired | Pending | KeyExist | NotFound | Removed

  /** Result of a lock request, and the list it leaves. */
  function Add(ls: seq<Lock>, sid: nat, fh: nat, now: int, shared: bool, wait: bool): (Outcome, seq<Lock>) {
    var l := Lock(sid, fh, now, shared, HasConflict(ls, shared));
    if HasConflict(ls, shared) && !wait then (KeyExist, ls)
    else if Present(ls, l) then (KeyExist, ls)
    else (if HasConflict(ls, shared) then Pending else Acquired, Insert(ls, l))
  }

  /** A request is granted only without a conflicting granted record, waits only with one and only
      if asked to, and otherwise changes nothing; the list stays sorted and compatible. */
  lemma AddOk(ls: seq<Lock>, sid: nat, fh: nat, now: int, shared: bool, wait: bool)
    requires Ok(ls)
    ensures var (rc, r) := Add(ls, sid, fh, now, shared, wait);
      && Ok(r)
      && (rc == KeyExist ==> r == ls)
      && (rc == Acquired ==> !HasConflict(ls, shared) && Lock(sid, fh, now, shared, false) in r)
      && (rc == Pending ==> wait && HasConflict(ls, shared) && Lock(sid, fh, now, shared, true) in r)
      && (forall x | x in r && x !in ls :: x.sid == sid && x.fh == fh && (x.pending ==> rc == Pending))
      && (forall x | x in ls :: x in r)
  {
    var l := Lock(sid, fh, now, shared, HasConflict(ls, shared));
    InsertMembers(ls, l);
    if !Present(ls, l) {
      InsertSorted(ls, l);
      InsertCompatible(ls, l);
    }
  }

  /** A request conflicts exactly when granting it would make the list incompatible. */
  lemma ConflictIff(ls: seq<Lock>, l: Lock)
    requires Compatible(ls) && !l.pending
    ensures HasConflict(ls, l.shared) <==> !Compatible(Insert(ls, l))
  {
    var k := Place(ls, l, 0);
    var r := Insert(ls, l);
    if HasConflict(ls, l.shared) {
      var x :| x in ls && Conflicts(x, l.shared);
      var j :| 0 <= j < |ls| && ls[j] == x;
      var j' := if j < k then j else j + 1;
      assert r[j'] == x && r[k] == l;
      if j' < k {
        assert !(r[j'].shared && r[k].shared);
      } else {
        assert !(r[k].shared && r[j'].shared);
      }
    } else {
      InsertCompatible(ls, l);
    }
  }

  /** The outcome of a request, exactly: granted without a conflict, waiting against one if it may wait, and
      otherwise refused, as is a second request of the handle at the same time. */
  lemma AddOutcome(ls: seq<Lock>, sid: nat, fh: nat, now: int, shared: bool, wait: bool)
    ensures var rc := Add(ls, sid, fh, now, shared, wait).0;
      var again := exists x | x in ls :: x.sid == sid && x.fh == fh && x.ctime == now;
      && (rc == Acquired <==> !HasConflict(ls, shared) && !again)
      && (rc == Pending <==> HasConflict(ls, shared) && wait && !again)
      && (rc == KeyExist <==> again || (HasConflict(ls, shared) && !wait))
  {
    hide HasConflict;
    var l := Lock(sid, fh, now, shared, HasConflict(ls, shared));
    assert Present(ls, l) <==> exists x | x in ls :: x.sid == sid && x.fh == fh && x.ctime == now;
  }

  /** Records stand in the order in which they were asked for. */
  lemma SortedByTime(ls: seq<Lock>, i: nat, j: nat)
    requires Sorted(ls) && i < j < |ls|
    ensures ls[i].ctime <= ls[j].ctime
    ensures ls[i].ctime == ls[j].ctime ==> ls[i].sid <= ls[j].sid && (ls[i].sid == ls[j].sid ==> ls[i].fh < ls[j].fh)
  {
  }

  /** cldb_lock_find: looks for a conflicting granted record. */
  method LockFind(ls: seq<Lock>, wantShared: bool) returns (found: bool)
    ensures found <==> HasConflict(ls, wantShared)
  {
    for i := 0 to |ls|
      invariant forall j | 0 <= j < i :: !Conflicts(ls[j], wantShared)
    {
      if !ls[i].pending && (!wantShared || !ls[i].shared) {
        assert ls[i] in ls && Conflicts(ls[i], wantShared);
        return true;
      }
    }
    return false;
  }

  /** cldb_lock_add. */
  method LockAdd(ls: seq<Lock>, sid: nat, fh: nat, now: int, shared: bool, wait: bool)
    returns (rc: Outcome, r: seq<Lock>)
    ensures (rc, r) == Add(ls, sid, fh, now, shared, wait)
  {
    var haveConflict := LockFind(ls, shared);
    if !wait && haveConflict {
      return KeyExist, ls;
    }
    var l := Lock(sid, fh, now, shared, wait && haveConflict);
    if Present(ls, l) {
      return KeyExist, ls;
    }
    return if haveConflict then Pending else Acquired, Insert(ls, l);
  }

  // ---------- Removing ----------

  /** Records of the session, of that handle or, with handle 0, of any handle. */
  predicate Matches(l: Lock, sid: nat, fh: nat) {
    l.sid == sid && (fh == 0 || l.fh == fh)
  }

  function RemoveAll(ls: seq<Lock>, sid: nat, fh: nat): seq<Lock> {
    if ls == [] then []
    else
      var last := ls[|ls| - 1];
      RemoveAll(ls[..|ls| - 1], sid, fh) + if Matches(last, sid, fh) then [] else [last]
  }

  lemma {:induction false} RemoveAllMembers(ls: seq<Lock>, sid: nat, fh: nat)
    ensures forall x :: x in RemoveAll(ls, sid, fh) <==> x in ls && !Matches(x, sid, fh)
  {
    if ls != [] {
      RemoveAllMembers(ls[..|ls| - 1], sid, fh);
      assert ls == ls[..|ls| - 1] + [ls[|ls| - 1]];
    }
  }

  lemma {:induction false} RemoveAllOk(ls: seq<Lock>, sid: nat, fh: nat)
    requires Ok(ls)
    ensures Ok(RemoveAll(ls, sid, fh))
  {
    if ls != [] {
      var init, last := ls[..|ls| - 1], ls[|ls| - 1];
      RemoveAllOk(init, sid, fh);
      RemoveAllMembers(init, sid, fh);
      var kept := RemoveAll(init, sid, fh);
      forall j | 0 <= j < |kept|
        ensures Before(kept[j], last) && (!kept[j].pending && !last.pending ==> kept[j].shared && last.shared)
      {
        assert kept[j] in init;
        var i :| 0 <= i < |init| && init[i] == kept[j];
        assert ls[i] == kept[j];
      }
      assert Ok(kept + [last]);
    }
  }

  /** Removing what is not there leaves the list as it is. */
  lemma {:induction false} RemoveAllNone(ls: seq<Lock>, sid: nat, fh: nat)
    requires forall x | x in ls :: !Matches(x, sid, fh)
    ensures RemoveAll(ls, sid, fh) == ls
  {
    if ls != [] {
      RemoveAllNone(ls[..|ls| - 1], sid, fh);
      assert ls == ls[..|ls| - 1] + [ls[|ls| - 1]];
    }
  }

  /** session_remove_locks: deletes matching records at the cursor and reports whether someone else waits. */
  method RemoveLocks(ls: seq<Lock>, sid: nat, fh: nat) returns (r: seq<Lock>, waiter: bool)
    ensures r == RemoveAll(ls, sid, fh)
    ensures waiter <==> exists x | x in r :: x.pending
  {
    r, waiter := ls, false;
    var i, k := 0, 0;
    while i < |r|
      invariant 0 <= i <= |r| && 0 <= k <= |ls| && r[i..] == ls[k..]
      invariant r[..i] == RemoveAll(ls[..k], sid, fh)
      invariant waiter <==> exists j | 0 <= j < i :: r[j].pending
      decreases |ls| - k
    {
      assert r[i] == r[i..][0] == ls[k];
      assert ls[..k + 1][..k] == ls[..k];
      assert r[i..][1..] == ls[k..][1..];
      if !Matches(r[i], sid, fh) {
        waiter := waiter || r[i].pending;
        assert r[..i + 1] == r[..i] + [r[i]];
        i := i + 1;
      } else {
        r := r[..i] + r[i + 1..];
      }
      k := k + 1;
    }
    assert ls[..k] == ls && r[..i] == r;
  }

  /** Index of the first record of that handle, or the length. */
  function FirstOf(ls: seq<Lock>, sid: nat, fh: nat, i: nat): (k: nat)
    requires i <= |ls|
    ensures i <= k <= |ls| && (k < |ls| ==> ls[k].sid == sid && ls[k].fh == fh)
    ensures forall j | i <= j < k :: ls[j].sid != sid || ls[j].fh != fh
    decreases |ls| - i
  {
    if i < |ls| && (ls[i].sid != sid || ls[i].fh != fh) then FirstOf(ls, sid, fh, i + 1) else i
  }

  function RemoveFirst(ls: seq<Lock>, sid: nat, fh: nat): (Outcome, seq<Lock>) {
    var k := FirstOf(ls, sid, fh, 0);
    if k == |ls| then (NotFound, ls) else (Removed, ls[..k] + ls[k + 1..])
  }

  /** An unlock takes away the oldest record of the handle, fails exactly when there is none, and
      touches no record of another handle. */
  lemma RemoveFirstOk(ls: seq<Lock>, sid: nat, fh: nat)
    requires Ok(ls)
    ensures var (rc, r) := RemoveFirst(ls, sid, fh);
      && Ok(r)
      && (rc == NotFound <==> forall x | x in ls :: x.sid != sid || x.fh != fh)
      && (rc == NotFound ==> r == ls) && (rc != NotFound ==> |r| == |ls| - 1)
      && (forall x | x in r :: x in ls)
      && (forall x | x in ls && x !in r ::
            x.sid == sid && x.fh == fh && forall y | y in r && y.sid == sid && y.fh == fh :: Before(x, y))
      && (forall x | x in ls && (x.sid != sid || x.fh != fh) :: x in r)
  {
    var k := FirstOf(ls, sid, fh, 0);
    if k < |ls| {
      var r := ls[..k] + ls[k + 1..];
      assert forall j | 0 <= j < |r| :: r[j] == ls[if j < k then j else j + 1];
      forall x | x in ls && x != ls[k]
        ensures x in r
      {
        var j :| 0 <= j < |ls| && ls[j] == x;
        assert r[if j < k then j else j - 1] == x;
      }
    }
  }

  /** Exactly one record goes: the oldest of the handle. */
  lemma RemoveFirstMembers(ls: seq<Lock>, sid: nat, fh: nat, k: nat)
    requires Sorted(ls) && k == FirstOf(ls, sid, fh, 0) < |ls|
    ensures forall y :: y in RemoveFirst(ls, sid, fh).1 <==> y in ls && y != ls[k]
    ensures forall y | y in ls && y.sid == sid && y.fh == fh :: y == ls[k] || Before(ls[k], y)
  {
    var r := ls[..k] + ls[k + 1..];
    assert forall j | 0 <= j < |r| :: r[j] == ls[if j < k then j else j + 1];
    forall y | y in ls && y != ls[k]
      ensures y in r
    {
      var j :| 0 <= j < |ls| && ls[j] == y;
      assert r[if j < k then j else j - 1] == y;
    }
  }

  /** cldb_lock_del: deletes the first matching record at the cursor. */
  method LockDel(ls: seq<Lock>, sid: nat, fh: nat) returns (rc: Outcome, r: seq<Lock>)
    ensures (rc, r) == RemoveFirst(ls, sid, fh)
  {
    for i := 0 to |ls|
      invariant FirstOf(ls, sid, fh, 0) == FirstOf(ls, sid, fh, i)
    {
      if ls[i].sid == sid && ls[i].fh == fh {
        return Removed, ls[..i] + ls[i + 1..];
      }
    }
    return NotFound, ls;
  }

  // ---------- Rescanning ----------

  /** The waiters told from record `i` on: a run of pending records, of which only the first of the
      list may be exclusive, cut short by a session that is gone. */
  function Told(ls: seq<Lock>, connected: map<nat, bool>, i: nat): seq<Lock>
    requires i <= |ls|
    decreases |ls| - i
  {
    if i == |ls| || !ls[i].pending || (i > 0 && !ls[i].shared) || ls[i].sid !in connected then []
    else (if connected[ls[i].sid] then [ls[i]] else []) + Told(ls, connected, i + 1)
  }

  lemma {:induction false} ToldPending(ls: seq<Lock>, connected: map<nat, bool>, i: nat)
    requires i <= |ls|
    ensures forall l | l in Told(ls, connected, i) :: l in ls && l.pending && l.sid in connected && connected[l.sid]
    ensures forall l | l in Told(ls, connected, i) :: l.shared || (i == 0 && l == Told(ls, connected, i)[0])
    decreases |ls| - i
  {
    if i < |ls| {
      ToldPending(ls, connected, i + 1);
    }
  }

  /** Every record up to j waits, for a known session, and all but the first of the list are shared. */
  ghost predicate Leading(ls: seq<Lock>, connected: map<nat, bool>, j: nat) {
    j < |ls| && forall i | 0 <= i <= j :: ls[i].pending && ls[i].sid in connected && (i > 0 ==> ls[i].shared)
  }

  lemma {:induction false} ToldFrom(ls: seq<Lock>, connected: map<nat, bool>, i: nat, l: Lock)
    requires i <= |ls| && (i > 0 ==> Leading(ls, connected, i - 1))
    ensures l in Told(ls, connected, i) <==>
      exists j | i <= j < |ls| :: ls[j] == l && Leading(ls, connected, j) && connected[ls[j].sid]
    decreases |ls| - i
  {
    if i < |ls| {
      if Leading(ls, connected, i) {
        ToldFrom(ls, connected, i + 1, l);
      } else {
        assert forall j | i <= j < |ls| :: !Leading(ls, connected, j);
      }
    }
  }

  /** Exactly who is told: the connected ones among the leading waiters. */
  lemma ToldIff(ls: seq<Lock>, connected: map<nat, bool>, l: Lock)
    ensures l in Told(ls, connected, 0) <==>
      exists j | 0 <= j < |ls| :: ls[j] == l && Leading(ls, connected, j) && connected[ls[j].sid]
  {
    ToldFrom(ls, connected, 0, l);
  }

  /** inode_lock_rescan: tells the leading waiters that they hold the lock.  The record is written
      back as it was read, so it still says pending: a waiter told that it was granted the lock is
      not a holder for any later request. */
  method Rescan(ls: seq<Lock>, connected: map<nat, bool>) returns (r: seq<Lock>, told: seq<Lock>)
    ensures r == ls && told == Told(ls, connected, 0)
    ensures forall l | l in told :: l in r && l.pending && l.sid in connected && connected[l.sid]
    ensures forall l, shared | l in told :: !Conflicts(l, shared)
  {
    ToldPending(ls, connected, 0);
    r, told := ls, [];
    var acq := 0;
    for i := 0 to |ls|
      invariant r == ls && acq == i
      invariant told + Told(ls, connected, i) == Told(ls, connected, 0)
    {
      ToldOne(ls, connected, i, told);
      hide Told;
      var lock := r[i];
      if !lock.pending || (acq > 0 && !lock.shared) {
        return;
      }
      r := r[i := lock];
      acq := acq + 1;
      if lock.sid !in connected {
        return;
      }
      if connected[lock.sid] {
        told := told + [lock];
      }
    }
  }

  lemma ToldOne(ls: seq<Lock>, connected: map<nat, bool>, i: nat, told: seq<Lock>)
    requires i < |ls|
    ensures told + Told(ls, connected, i) ==
      if !ls[i].pending || (i > 0 && !ls[i].shared) || ls[i].sid !in connected then told
      else (if connected[ls[i].sid] then told + [ls[i]] else told) + Told(ls, connected, i + 1)
  {
  }
}
