/** The CLD message handlers as the server runs them: each works on a transaction's copy of the
    tables and commits it, or returns an error and leaves the tables alone. */
module CldDaemon {
  import opened Bytes
  import opened Pathname
  import opened Namespace
  import opened Cld
  import CldRuns
  import Directory
  import Locks

  /** cldb_inode_new: draws random numbers until one is free, giving up after 100000. */
  method InodeNew(inodes: map<Inum, Inode>, rands: seq<nat>) returns (i: Inum)
    ensures i == PickInum(inodes, rands, 0)
    ensures i != 0 ==> i > INO_RESERVED_LAST && i !in inodes
  {
    var limit := Min(|rands|, INODE_TRIES);
    for k := 0 to limit
      invariant PickInum(inodes, rands, 0) == PickInum(inodes, rands, k)
    {
      var n := rands[k];
      if n <= INO_RESERVED_LAST {
        continue;
      }
      if n !in inodes {
        return n;
      }
    }
    return 0;
  }

  method ToArray(data: bytes) returns (buf: array<byte>)
    ensures fresh(buf) && buf[..] == data
  {
    buf := new byte[|data|](i requires 0 <= i < |data| => data[i]);
  }

  /** Stores the parent's edited data and touches the parent. */
  method WriteParent(ns: Ns, p: Inum, buf: array<byte>, len: nat, now: int) returns (r: Ns)
    requires p in ns.inodes && len <= buf.Length
    ensures r == StoreData(ns, p, buf[..len], now)
  {
    r := ns.(data := ns.data[p := buf[..len]]);
    var parent := ns.inodes[p].(size := len % TWO_32);
    r := InodePut(r, p, Touch(parent, now));
  }

  /** One of these handles could lock inode `i`. */
  ghost predicate Noted(handles: map<(Sid, Fh), Handle>, ks: set<(Sid, Fh)>, i: Inum) {
    exists k | k in ks && k in handles :: handles[k].inum == i && handles[k].mode.lock
  }

  lemma NotedMore(handles: map<(Sid, Fh), Handle>, ks: set<(Sid, Fh)>, k: (Sid, Fh), i: Inum)
    requires k in handles
    ensures Noted(handles, ks + {k}, i) <==> Noted(handles, ks, i) || (handles[k].inum == i && handles[k].mode.lock)
  {
  }

  function OfSession(handles: map<(Sid, Fh), Handle>, sid: Sid): set<(Sid, Fh)> {
    set k | k in handles && k.0 == sid
  }

  lemma AllDropped(handles: map<(Sid, Fh), Handle>, sid: Sid, i: Inum)
    ensures handles - OfSession(handles, sid) == map k | k in handles && k.0 != sid :: handles[k]
    ensures Noted(handles, OfSession(handles, sid), i) <==> HasLockHandle(handles, sid, i)
  {
  }

  /** The cursor loop over a session's handles: deletes them and notes the inodes it could lock. */
  method DropHandles(handles: map<(Sid, Fh), Handle>, sid: Sid) returns (r: map<(Sid, Fh), Handle>, inums: seq<Inum>)
    ensures r == map k | k in handles && k.0 != sid :: handles[k]
    ensures forall i :: i in inums <==> HasLockHandle(handles, sid, i)
  {
    r, inums := handles, [];
    ghost var done: set<(Sid, Fh)> := {};
    var rest := OfSession(handles, sid);
    assert rest <= handles.Keys && forall i :: !Noted(handles, {}, i);
    ghost var all := rest;
    hide OfSession, Noted, HasLockHandle;
    while rest != {}
      invariant rest == all - done && done <= all <= handles.Keys
      invariant r == handles - done
      invariant forall i :: i in inums <==> Noted(handles, done, i)
      decreases |rest|
    {
      var k :| k in rest;
      var h := r[k];
      if h.mode.lock {
        inums := inums + [h.inum];
      }
      forall i
        ensures i in inums <==> Noted(handles, done + {k}, i)
      {
        NotedMore(handles, done, k, i);
      }
      r := r - {k};
      rest, done := rest - {k}, done + {k};
    }
    assert done == all;
    forall i
      ensures i in inums <==> HasLockHandle(handles, sid, i)
    {
      AllDropped(handles, sid, i);
    }
    AllDropped(handles, sid, 0);
  }

  /** The locks of inode `j` once the session's are gone from the inodes noted. */
  ghost function Without(locks: map<Inum, seq<Lock>>, sid: Sid, inums: seq<Inum>, j: Inum): seq<Lock> {
    if j in inums then Locks.RemoveAll(LocksOf(locks, j), sid, 0) else LocksOf(locks, j)
  }

  ghost predicate Waits(locks: map<Inum, seq<Lock>>, i: Inum) {
    exists x | x in LocksOf(locks, i) :: x.pending
  }

  /** Some rescan of these inodes tells `l`. */
  ghost predicate ToldAt(locks: map<Inum, seq<Lock>>, inums: seq<Inum>, connected: map<nat, bool>, l: Lock) {
    exists k | 0 <= k < |inums| :: l in Locks.Told(LocksOf(locks, inums[k]), connected, 0)
  }

  /** Rescans each of the inodes. */
  method TellAll(locks: map<Inum, seq<Lock>>, inums: seq<Inum>, connected: map<nat, bool>) returns (told: seq<Lock>)
    ensures forall l :: l in told <==> ToldAt(locks, inums, connected, l)
  {
    told := [];
    for n := 0 to |inums|
      invariant forall l :: l in told <==> ToldAt(locks, inums[..n], connected, l)
    {
      var _, t := Locks.Rescan(LocksOf(locks, inums[n]), connected);
      forall l
        ensures ToldAt(locks, inums[..n + 1], connected, l) <==> ToldAt(locks, inums[..n], connected, l) || l in t
      {
        ToldMore(locks, inums, n, connected, l);
      }
      told := told + t;
    }
    assert inums[..|inums|] == inums;
  }

  lemma ToldMore(locks: map<Inum, seq<Lock>>, inums: seq<Inum>, n: nat, connected: map<nat, bool>, l: Lock)
    requires n < |inums|
    ensures ToldAt(locks, inums[..n + 1], connected, l) <==>
      ToldAt(locks, inums[..n], connected, l) || l in Locks.Told(LocksOf(locks, inums[n]), connected, 0)
  {
    var a, b := inums[..n], inums[..n + 1];
    assert b[n] == inums[n] && forall k | 0 <= k < n :: a[k] == b[k];
  }

  /** Rescanning only the inodes where someone waits tells the same locks. */
  lemma SameTold(locks: map<Inum, seq<Lock>>, inums: seq<Inum>, waiters: seq<Inum>, connected: map<nat, bool>, l: Lock)
    requires forall i | i in waiters :: i in inums
    requires forall i | i in inums && Waits(locks, i) :: i in waiters
    ensures ToldAt(locks, waiters, connected, l) <==> ToldAt(locks, inums, connected, l)
  {
    if ToldAt(locks, waiters, connected, l) {
      var k :| 0 <= k < |waiters| && l in Locks.Told(LocksOf(locks, waiters[k]), connected, 0);
      assert waiters[k] in waiters && waiters[k] in inums;
      var j :| 0 <= j < |inums| && inums[j] == waiters[k];
    }
    if ToldAt(locks, inums, connected, l) {
      var k :| 0 <= k < |inums| && l in Locks.Told(LocksOf(locks, inums[k]), connected, 0);
      Locks.ToldPending(LocksOf(locks, inums[k]), connected, 0);
      assert Waits(locks, inums[k]);
      var j :| 0 <= j < |waiters| && waiters[j] == inums[k];
    }
  }

  /** The first loop: removes the session's locks on each inode noted, and notes where someone waits. */
  method RemoveNoted(locks: map<Inum, seq<Lock>>, sid: Sid, inums: seq<Inum>)
    returns (r: map<Inum, seq<Lock>>, waiters: seq<Inum>)
    requires CldRuns.LocksOk(locks)
    ensures CldRuns.LocksOk(r)
    ensures forall j :: LocksOf(r, j) == Without(locks, sid, inums, j)
    ensures forall i | i in waiters :: i in inums
    ensures forall i | i in inums && Waits(r, i) :: i in waiters
  {
    r, waiters := locks, [];
    hide Waits, CldRuns.LocksOk, WithLocks;
    for n := 0 to |inums|
      invariant CldRuns.LocksOk(r)
      invariant forall j :: LocksOf(r, j) == Without(locks, sid, inums[..n], j)
      invariant forall i | i in waiters :: i in inums
      invariant forall i | i in inums[..n] && Waits(r, i) :: i in waiters
    {
      var i := inums[n];
      ghost var before := r;
      var waiter;
      r, waiter := RemoveAt(r, sid, i);
      if waiter {
        waiters := waiters + [i];
      }
      assert inums[..n + 1] == inums[..n] + [i];
      RemovedOnce(locks, sid, inums[..n], i, before, r);
    }
    assert inums[..|inums|] == inums;
  }

  method RemoveAt(locks: map<Inum, seq<Lock>>, sid: Sid, i: Inum) returns (r: map<Inum, seq<Lock>>, waiter: bool)
    requires CldRuns.LocksOk(locks)
    ensures CldRuns.LocksOk(r)
    ensures forall j ::
      LocksOf(r, j) == if j == i then Locks.RemoveAll(LocksOf(locks, i), sid, 0) else LocksOf(locks, j)
    ensures waiter <==> Waits(r, i)
    ensures forall j | j != i :: Waits(r, j) <==> Waits(locks, j)
  {
    CldRuns.ListOk(locks, i);
    Locks.RemoveAllOk(LocksOf(locks, i), sid, 0);
    var ls;
    ls, waiter := Locks.RemoveLocks(LocksOf(locks, i), sid, 0);
    CldRuns.WithLocksOk(locks, i, ls);
    r := WithLocks(locks, i, ls);
  }

  /** Removing the session's locks at an inode once more changes nothing. */
  lemma RemovedOnce(locks: map<Inum, seq<Lock>>, sid: Sid, inums: seq<Inum>, i: Inum,
                    before: map<Inum, seq<Lock>>, after: map<Inum, seq<Lock>>)
    requires forall j :: LocksOf(before, j) == Without(locks, sid, inums, j)
    requires forall j ::
      LocksOf(after, j) == if j == i then Locks.RemoveAll(LocksOf(before, i), sid, 0) else LocksOf(before, j)
    ensures forall j :: LocksOf(after, j) == Without(locks, sid, inums + [i], j)
  {
    hide LocksOf;
    Locks.RemoveAllMembers(LocksOf(locks, i), sid, 0);
    if i in inums {
      Locks.RemoveAllNone(LocksOf(before, i), sid, 0);
    }
  }

  /** Removes the session's locks on each inode noted, and tells the waiters found there. */
  method DropLocks(locks: map<Inum, seq<Lock>>, sid: Sid, inums: seq<Inum>, connected: map<nat, bool>)
    returns (r: map<Inum, seq<Lock>>, told: seq<Lock>)
    requires CldRuns.LocksOk(locks)
    ensures CldRuns.LocksOk(r)
    ensures forall j :: LocksOf(r, j) == Without(locks, sid, inums, j)
    ensures forall l :: l in told <==> ToldAt(r, inums, connected, l)
  {
    var waiters;
    r, waiters := RemoveNoted(locks, sid, inums);
    told := TellAll(r, waiters, connected);
    forall l
      ensures ToldAt(r, waiters, connected, l) <==> ToldAt(r, inums, connected, l)
    {
      SameTold(r, inums, waiters, connected, l);
    }
  }

  /** Lock tables with the same lists are the same table. */
  lemma SameLocks(a: map<Inum, seq<Lock>>, b: map<Inum, seq<Lock>>)
    requires CldRuns.LocksOk(a) && CldRuns.LocksOk(b)
    requires forall i :: LocksOf(a, i) == LocksOf(b, i)
    ensures a == b
  {
    forall i
      ensures i in a <==> i in b
    {
      assert LocksOf(a, i) == LocksOf(b, i);
    }
    forall i | i in a
      ensures a[i] == b[i]
    {
      assert LocksOf(a, i) == LocksOf(b, i);
    }
  }

  /** Removing the session's locks inode by inode is removing them at once. */
  lemma LocksDropped(db: Db, sid: Sid, inums: seq<Inum>, locks: map<Inum, seq<Lock>>)
    requires CldRuns.LocksOk(db.locks) && CldRuns.LocksOk(locks)
    requires forall i :: i in inums <==> HasLockHandle(db.handles, sid, i)
    requires forall j :: LocksOf(locks, j) == Without(db.locks, sid, inums, j)
    ensures locks == SessionRemove(db, sid).locks
  {
    CldRuns.SessionGone(db, sid);
    hide HasLockHandle, Locks.RemoveAll, CldRuns.LocksOk;
    forall i
      ensures LocksOf(locks, i) == LocksOf(SessionRemove(db, sid).locks, i)
    {
      assert LocksAfter(db, sid, i) == LocksOf(locks, i);
      assert i !in db.locks ==> LocksAfter(db, sid, i) == [] by {
        CldRuns.ListOk(db.locks, i);
        CldRuns.LocksAfterOk(db, sid, i);
      }
    }
    SameLocks(locks, SessionRemove(db, sid).locks);
  }

  /** A rescan tells `l` on an inode the session could lock, once the session's locks are gone. */
  ghost predicate ToldAtEnd(db: Db, sid: Sid, connected: map<nat, bool>, l: Lock) {
    exists i | HasLockHandle(db.handles, sid, i) ::
      l in Locks.Told(LocksOf(SessionRemove(db, sid).locks, i), connected, 0)
  }

  lemma ToldOnce(db: Db, sid: Sid, inums: seq<Inum>, connected: map<nat, bool>, l: Lock)
    requires forall i :: i in inums <==> HasLockHandle(db.handles, sid, i)
    ensures ToldAt(SessionRemove(db, sid).locks, inums, connected, l) <==> ToldAtEnd(db, sid, connected, l)
  {
    hide HasLockHandle, SessionRemove, Locks.Told;
    var locks := SessionRemove(db, sid).locks;
    if ToldAt(locks, inums, connected, l) {
      var k :| 0 <= k < |inums| && l in Locks.Told(LocksOf(locks, inums[k]), connected, 0);
      assert inums[k] in inums;
    }
    if ToldAtEnd(db, sid, connected, l) {
      var i :| HasLockHandle(db.handles, sid, i) && l in Locks.Told(LocksOf(locks, i), connected, 0);
      var k :| 0 <= k < |inums| && inums[k] == i;
    }
  }

  class Daemon {
    var db: Db
    var live: map<Sid, Fh>

    ghost function State(): Server
      reads this
    {
      Server(db, live)
    }

    ghost predicate Valid()
      reads this
    {
      CldRuns.Inv(State())
    }

    constructor (now: int)
      ensures Valid() && State() == Cld.Initial(now)
    {
      var root := Inode(ROOT, true, 0, 1, now, now);
      db := Db(InodePut(Ns(map[], map[], map[]), INO_ROOT, root), map[], map[], map[]);
      live := map[];
      new;
      CldRuns.InitialInv(now);
    }

    method MsgOpen(sid: Sid, name: bytes, mode: Mode, events: int, rands: seq<nat>, env: Env) returns (r: Resp)
      requires sid in live
      modifies this
      ensures (State(), r) == OpenStep(old(State()), sid, name, mode, events, rands, env)
    {
      var ns, create, i := db.ns, mode.create, 0;
      if !ValidInodeName(name) || (create && |name| < 2) {
        return Resp(NameInval);
      }
      var info := PathnameParse(name);
      if !create && name !in ns.names {
        return Resp(NameInval);
      }
      if create && name in ns.names {
        if mode.excl {
          return Resp(InodeExists);
        }
        create := false;
      }
      if !create {
        i := ns.names[name];
        if i !in ns.inodes {
          return Resp(DbErr);
        }
        if mode.directory != ns.inodes[i].isDir {
          return Resp(ModeInval);
        }
      } else {
        i := InodeNew(ns.inodes, rands);
        if i == 0 {
          return Resp(Oom);
        }
        if !HasParent(ns, name) {
          return Resp(DbErr);
        }
        var p := ns.names[info.dir];
        var parentData := ToArray(Data(ns, p));
        var mem := Directory.DirdataAppend(parentData, parentData.Length, info.base);
        ns := WriteParent(ns, p, mem, mem.Length, env.now);
        assert mem[..mem.Length] == mem[..] && parentData[..parentData.Length] == Data(db.ns, p);
      }
      if env.fault.EarlyFault? {
        return Resp(DbErr);
      }
      var fh := live[sid];
      live := live[sid := fh + 1];
      var handles := db.handles[(sid, fh) := Handle(i, mode, events)];
      if create {
        ns := InodePut(ns, i, Touch(Inode(name, mode.directory, 0, 0, env.now, env.now), env.now));
      }
      var sessions := db.sessions[sid := live[sid]];
      if env.fault.LateFault? {
        return Resp(DbErr);
      }
      db := Db(ns, handles, db.locks, sessions);
      return Opened(fh);
    }

    method MsgGet(sid: Sid, fh: Fh, wantData: bool) returns (r: Resp)
      ensures (State(), r) == GetStep(State(), sid, fh, wantData)
    {
      if (sid, fh) !in db.handles {
        return Resp(FhInval);
      }
      var h, ns := db.handles[(sid, fh)], db.ns;
      if !h.mode.read {
        return Resp(ModeInval);
      }
      if h.inum !in ns.inodes {
        return Resp(InodeInval);
      }
      var inode := ns.inodes[h.inum];
      var data: bytes := [];
      if wantData {
        if h.inum in ns.data {
          if |ns.data[h.inum]| != inode.size {
            return Resp(DbErr);
          }
          data := ns.data[h.inum];
          if |data| > MAX_PAYLOAD {
            return NoReply;
          }
        }
      }
      return Got(h.inum, inode, data);
    }

    method MsgPut(sid: Sid, fh: Fh, data: bytes, env: Env) returns (r: Resp)
      modifies this
      ensures (State(), r) == PutStep(old(State()), sid, fh, data, env)
    {
      if (sid, fh) !in db.handles {
        return Resp(FhInval);
      }
      var h, ns := db.handles[(sid, fh)], db.ns;
      if !h.mode.write || h.mode.directory {
        return Resp(ModeInval);
      }
      if h.inum !in ns.inodes {
        return Resp(InodeInval);
      }
      var inode := ns.inodes[h.inum].(size := |data| % TWO_32);
      ns := ns.(data := ns.data[h.inum := data]);
      ns := InodePut(ns, h.inum, Touch(inode, env.now));
      if !env.fault.NoFault? {
        return Resp(DbErr);
      }
      db := db.(ns := ns);
      return Resp(Success);
    }

    method MsgDel(name: bytes, env: Env) returns (r: Resp)
      modifies this
      ensures (State(), r) == DelStep(old(State()), name, env)
    {
      if !ValidInodeName(name) || |name| < 2 {
        return Resp(NameInval);
      }
      var ns, info := db.ns, PathnameParse(name);
      if !HasParent(ns, name) {
        return Resp(DbErr);
      }
      var p := ns.names[info.dir];
      if p !in ns.data {
        return Resp(DbErr);
      }
      var parentData := ToArray(ns.data[p]);
      if name !in ns.names || ns.names[name] !in ns.inodes {
        return Resp(NameInval);
      }
      var i := ns.names[name];
      if ns.inodes[i].isDir && i in ns.data && |ns.data[i]| > 0 {
        return Resp(DirNotEmpty);
      }
      ns := Ns(ns.inodes - {i}, ns.names - {name}, ns.data - {i});
      var handles := map k | k in db.handles && db.handles[k].inum != i :: db.handles[k];
      assert parentData[..parentData.Length] == db.ns.data[p];
      var ok, parentLen := Directory.DirdataDelete(parentData, parentData.Length, info.base);
      if !ok || p !in ns.inodes {
        return Resp(DbErr);
      }
      ns := WriteParent(ns, p, parentData, parentLen, env.now);
      if !env.fault.NoFault? {
        return Resp(DbErr);
      }
      db := db.(ns := ns, handles := handles);
      return Resp(Success);
    }

    method MsgLock(sid: Sid, fh: Fh, shared: bool, wait: bool, env: Env) returns (r: Resp)
      modifies this
      ensures (State(), r) == LockStep(old(State()), sid, fh, shared, wait, env)
    {
      if (sid, fh) !in db.handles {
        return Resp(FhInval);
      }
      var h := db.handles[(sid, fh)];
      if !h.mode.lock {
        return Resp(ModeInval);
      }
      var rc, ls := Locks.LockAdd(LocksOf(db.locks, h.inum), sid, fh, env.now, shared, wait);
      if !env.fault.NoFault? {
        return Resp(DbErr);
      }
      if rc.KeyExist? {
        return Resp(LockConflict);
      }
      db := db.(locks := WithLocks(db.locks, h.inum, ls));
      return Resp(if rc.Acquired? then Success else LockPending);
    }

    method MsgUnlock(sid: Sid, fh: Fh, env: Env) returns (r: Resp)
      modifies this
      ensures (State(), r) == UnlockStep(old(State()), sid, fh, env)
    {
      if (sid, fh) !in db.handles {
        return Resp(FhInval);
      }
      var h := db.handles[(sid, fh)];
      if !h.mode.lock {
        return Resp(ModeInval);
      }
      var rc, ls := Locks.LockDel(LocksOf(db.locks, h.inum), sid, fh);
      if rc.NotFound? {
        return Resp(LockInval);
      }
      if !env.fault.NoFault? {
        return Resp(DbErr);
      }
      db := db.(locks := WithLocks(db.locks, h.inum, ls));
      return Resp(Success);
    }

    /** A close also rescans the inode it unlocked, before it is known whether it commits. */
    method MsgClose(sid: Sid, fh: Fh, env: Env, connected: map<nat, bool>) returns (r: Resp, told: seq<Lock>)
      modifies this
      ensures (State(), r) == CloseStep(old(State()), sid, fh, env)
      ensures (sid, fh) !in old(db).handles ==> told == []
      ensures (sid, fh) in old(db).handles ==>
        var h := old(db).handles[(sid, fh)];
        var i := if h.mode.lock then h.inum else 0;
        told == Locks.Told(Locks.RemoveAll(LocksOf(old(db).locks, i), sid, fh), connected, 0)
    {
      told := [];
      if (sid, fh) !in db.handles {
        return Resp(FhInval), [];
      }
      var h := db.handles[(sid, fh)];
      var lockInum := 0;
      if h.mode.lock {
        lockInum := h.inum;
      }
      var handles := db.handles - {(sid, fh)};
      var ls, waiter := Locks.RemoveLocks(LocksOf(db.locks, lockInum), sid, fh);
      if waiter {
        ls, told := Locks.Rescan(ls, connected);
      }
      if !env.fault.NoFault? {
        return Resp(DbErr), told;
      }
      db := db.(handles := handles, locks := WithLocks(db.locks, lockInum, ls));
      return Resp(Success), told;
    }

    /** The waiters told are those a rescan finds on the inodes the session could lock. */
    method SessionEnd(sid: Sid, env: Env, connected: map<nat, bool>) returns (r: Resp, told: seq<Lock>)
      requires Valid()
      modifies this
      ensures (State(), r) == EndSessStep(old(State()), sid, env)
      ensures forall l :: l in told <==> ToldAtEnd(old(db), sid, connected, l)
    {
      var handles, inums := DropHandles(db.handles, sid);
      var locks;
      locks, told := DropLocks(db.locks, sid, inums, connected);
      LocksDropped(db, sid, inums, locks);
      forall l
        ensures l in told <==> ToldAtEnd(db, sid, connected, l)
      {
        ToldOnce(db, sid, inums, connected, l);
      }
      live := live - {sid};
      if !env.fault.NoFault? || sid !in db.sessions {
        return Resp(DbErr), told;
      }
      db := db.(handles := handles, locks := locks, sessions := db.sessions - {sid});
      return Resp(Success), told;
    }

    method MsgNewSess(sid: Sid, env: Env) returns (r: Resp)
      modifies this
      ensures (State(), r) == NewSessStep(old(State()), sid, env)
    {
      if sid in live || sid in db.sessions {
        return Resp(SessExists);
      }
      if !env.fault.NoFault? {
        return Resp(DbErr);
      }
      db := db.(sessions := db.sessions[sid := FIRST_FH]);
      live := live[sid := FIRST_FH];
      return Resp(Success);
    }

    /** sess_load_db after a restart: memory is rebuilt from the session records. */
    method Load()
      modifies this
      ensures State() == old(State()).(live := old(db).sessions)
    {
      live := map[];
      var rest := db.sessions.Keys;
      while rest != {}
        invariant rest <= db.sessions.Keys && db == old(db)
        invariant live == db.sessions - rest
        decreases |rest|
      {
        var sid :| sid in rest;
        live := live[sid := db.sessions[sid]];
        rest := rest - {sid};
      }
      assert db.sessions - {} == db.sessions;
    }

    /** Every message takes one step of the state machine and keeps the invariant. */
    method Serve(req: Request, env: Env, connected: map<nat, bool>) returns (r: Resp, told: seq<Lock>)
      requires Valid()
      modifies this
      ensures (State(), r) == Step(old(State()), req, env)
      ensures Valid()
    {
      CldRuns.StepKeepsInv(State(), req, env);
      hide CldRuns.Inv, OpenStep, GetStep, PutStep, CloseStep, DelStep, LockStep, UnlockStep, EndSessStep, NewSessStep;
      told := [];
      if req.Restart? {
        Load();
        return Resp(Success), [];
      }
      if req.NewSess? {
        r := MsgNewSess(req.sid, env);
        return;
      }
      if req.sid !in live {
        return Resp(SessInval), [];
      }
      if !Decodable(req) {
        return Resp(BadPkt), [];
      }
      match req
      case Open(sid, name, mode, events, rands) => r := MsgOpen(sid, name, mode, events, rands, env);
      case Get(sid, fh, wantData) => r := MsgGet(sid, fh, wantData);
      case Put(sid, fh, data) => r := MsgPut(sid, fh, data, env);
      case Close(sid, fh) => r, told := MsgClose(sid, fh, env, connected);
      case Del(_, name) => r := MsgDel(name, env);
      case Lock(sid, fh, shared, wait) => r := MsgLock(sid, fh, shared, wait, env);
      case Unlock(sid, fh) => r := MsgUnlock(sid, fh, env);
      case EndSess(sid) => r, told := SessionEnd(sid, env, connected);
    }
  }
}
