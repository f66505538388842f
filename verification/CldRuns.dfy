/** What every run of the CLD server keeps, and what single messages do to it. */
module CldRuns {
  import opened Bytes
  import opened Pathname
  import opened Namespace
  import opened Cld
  import Directory
  import Locks

  /** Handles point at live inodes, and a handle says directory exactly when its inode is one. */
  ghost predicate Kinds(inodes: map<Inum, Inode>, handles: map<(Sid, Fh), Handle>) {
    forall k | k in handles :: handles[k].inum in inodes && handles[k].mode.directory == inodes[handles[k].inum].isDir
  }

  /** Handle numbers lie between 2 and the stored counter, which memory never falls behind. */
  ghost predicate Numbered(handles: map<(Sid, Fh), Handle>, sessions: map<Sid, Fh>, live: map<Sid, Fh>) {
    && (forall sid | sid in live :: sid in sessions && sessions[sid] <= live[sid])
    && (forall sid | sid in sessions :: FIRST_FH <= sessions[sid])
    && (forall k | k in handles :: k.0 in sessions && FIRST_FH <= k.1 < sessions[k.0])
  }

  ghost predicate LocksOk(locks: map<Inum, seq<Lock>>) {
    0 !in locks && forall i | i in locks :: locks[i] != [] && Locks.Ok(locks[i])
  }

  ghost predicate Inv(s: Server) {
    && Namespace.Inv(s.db.ns)
    && Kinds(s.db.ns.inodes, s.db.handles)
    && Numbered(s.db.handles, s.db.sessions, s.live)
    && LocksOk(s.db.locks)
  }

  lemma InitialInv(now: int)
    ensures Inv(Cld.Initial(now)) && Tree(Cld.Initial(now).db.ns)
  {
    Namespace.InitialInv(now);
  }

  // ---------- OPEN ----------

  lemma ResolveFresh(ns: Ns, name: bytes, mode: Mode, rands: seq<nat>)
    requires |name| <= INODE_NAME_MAX && Resolve(ns, name, mode, rands).Fresh?
    ensures Creatable(ns, name, Resolve(ns, name, mode, rands).inum)
  {
  }

  lemma ResolveExisting(ns: Ns, name: bytes, mode: Mode, rands: seq<nat>)
    requires Resolve(ns, name, mode, rands).Existing?
    ensures var i := Resolve(ns, name, mode, rands).inum;
      name in ns.names && ns.names[name] == i && i in ns.inodes && ns.inodes[i].isDir == mode.directory
  {
  }

  lemma OpenKeepsNs(ns: Ns, name: bytes, mode: Mode, rands: seq<nat>, now: int)
    requires Namespace.Inv(ns) && |name| <= INODE_NAME_MAX && Resolve(ns, name, mode, rands).Fresh?
    ensures Creatable(ns, name, Resolve(ns, name, mode, rands).inum)
    ensures var ns' := Create(ns, name, mode.directory, Resolve(ns, name, mode, rands).inum, now);
      && Namespace.Inv(ns')
      && (forall q | q in ns.inodes :: q in ns'.inodes && ns'.inodes[q].isDir == ns.inodes[q].isDir)
      && Resolve(ns, name, mode, rands).inum in ns'.inodes
      && ns'.inodes[Resolve(ns, name, mode, rands).inum].isDir == mode.directory
  {
    var i := Resolve(ns, name, mode, rands).inum;
    ResolveFresh(ns, name, mode, rands);
    CreateKeepsInv(ns, name, mode.directory, i, now);
    CreateGrows(ns, name, mode.directory, i, now);
  }

  lemma KindsGrow(inodes: map<Inum, Inode>, inodes': map<Inum, Inode>, handles: map<(Sid, Fh), Handle>,
                  k: (Sid, Fh), h: Handle)
    requires Kinds(inodes, handles)
    requires forall q | q in inodes :: q in inodes' && inodes'[q].isDir == inodes[q].isDir
    requires h.inum in inodes' && h.mode.directory == inodes'[h.inum].isDir
    ensures Kinds(inodes', handles[k := h])
  {
  }

  /** Taking a handle number, whether the open then commits or aborts. */
  lemma NumberTaken(handles: map<(Sid, Fh), Handle>, sessions: map<Sid, Fh>, live: map<Sid, Fh>, sid: Sid, h: Handle)
    requires Numbered(handles, sessions, live) && sid in live
    ensures Numbered(handles[(sid, live[sid]) := h], sessions[sid := live[sid] + 1], live[sid := live[sid] + 1])
    ensures Numbered(handles, sessions, live[sid := live[sid] + 1])
    ensures (sid, live[sid]) !in handles && live[sid] >= FIRST_FH
  {
  }

  lemma OpenKeepsInv(s: Server, sid: Sid, name: bytes, mode: Mode, events: int, rands: seq<nat>, env: Env)
    requires Inv(s) && sid in s.live && |name| <= INODE_NAME_MAX
    ensures Inv(OpenStep(s, sid, name, mode, events, rands, env).0)
  {
    hide Namespace.Inv, Kinds, Numbered, LocksOk, OpenDb, Resolve;
    var t := Resolve(s.db.ns, name, mode, rands);
    if !t.Refuse? {
      NumberTaken(s.db.handles, s.db.sessions, s.live, sid, Handle(t.inum, mode, events));
      if env.fault.NoFault? {
        OpenDbKeepsInv(s, sid, name, mode, events, rands, env.now);
      }
    }
  }

  lemma OpenDbKeepsInv(s: Server, sid: Sid, name: bytes, mode: Mode, events: int, rands: seq<nat>, now: int)
    requires Inv(s) && sid in s.live && |name| <= INODE_NAME_MAX
    requires !Resolve(s.db.ns, name, mode, rands).Refuse?
    ensures Inv(Server(OpenDb(s.db, sid, s.live[sid], Resolve(s.db.ns, name, mode, rands), name, mode, events, now),
                       s.live[sid := s.live[sid] + 1]))
  {
    hide Namespace.Inv, Kinds, Numbered, LocksOk, Create;
    var h := Handle(Resolve(s.db.ns, name, mode, rands).inum, mode, events);
    NumberTaken(s.db.handles, s.db.sessions, s.live, sid, h);
    OpenTarget(s.db.ns, s.db.handles, name, mode, rands, now, (sid, s.live[sid]), h);
  }

  lemma OpenTarget(ns: Ns, handles: map<(Sid, Fh), Handle>, name: bytes, mode: Mode, rands: seq<nat>, now: int,
                   k: (Sid, Fh), h: Handle)
    requires Namespace.Inv(ns) && Kinds(ns.inodes, handles)
    requires |name| <= INODE_NAME_MAX && !Resolve(ns, name, mode, rands).Refuse?
    requires h.inum == Resolve(ns, name, mode, rands).inum && h.mode == mode
    ensures Resolve(ns, name, mode, rands).Fresh? ==>
      && HasParent(ns, name)
      && Namespace.Inv(Create(ns, name, mode.directory, h.inum, now))
      && Kinds(Create(ns, name, mode.directory, h.inum, now).inodes, handles[k := h])
    ensures Resolve(ns, name, mode, rands).Existing? ==> Kinds(ns.inodes, handles[k := h])
  {
    if Resolve(ns, name, mode, rands).Fresh? {
      OpenKeepsNs(ns, name, mode, rands, now);
      KindsGrow(ns.inodes, Create(ns, name, mode.directory, h.inum, now).inodes, handles, k, h);
    } else {
      ResolveExisting(ns, name, mode, rands);
      KindsGrow(ns.inodes, ns.inodes, handles, k, h);
    }
  }

  /** A successful open takes a number no live handle has, so it replaces nothing; every other
      handle stays as it was, and the handle 0 that stands for "any" is never given out. */
  lemma OpenIsFresh(s: Server, sid: Sid, name: bytes, mode: Mode, events: int, rands: seq<nat>, env: Env)
    requires Inv(s) && sid in s.live && OpenStep(s, sid, name, mode, events, rands, env).1.Opened?
    ensures var (s', r) := OpenStep(s, sid, name, mode, events, rands, env);
      && (sid, r.fh) !in s.db.handles && r.fh != 0
      && (exists h: Handle :: s'.db.handles == s.db.handles[(sid, r.fh) := h]
            && h.mode == mode && name in s'.db.ns.names && h.inum == s'.db.ns.names[name])
  {
    hide Namespace.Inv, Kinds, LocksOk;
    var t := Resolve(s.db.ns, name, mode, rands);
    var h := Handle(t.inum, mode, events);
    NumberTaken(s.db.handles, s.db.sessions, s.live, sid, h);
    var s' := OpenStep(s, sid, name, mode, events, rands, env).0;
    assert s'.db.handles == s.db.handles[(sid, s.live[sid]) := h];
  }

  // ---------- PUT, GET ----------

  lemma PutKeepsInv(s: Server, sid: Sid, fh: Fh, data: bytes, env: Env)
    requires Inv(s)
    ensures Inv(PutStep(s, sid, fh, data, env).0)
  {
    hide Numbered, LocksOk, InodeOk, Indexed;
    if PutStep(s, sid, fh, data, env).1.code == Success {
      StoreKeepsInv(s.db.ns, s.db.handles[(sid, fh)].inum, data, env.now);
    }
  }

  /** A put replaces the bytes of one regular file and of nothing else: no directory's bytes change
      and no other inode, name, handle or lock moves. */
  lemma PutFrame(s: Server, sid: Sid, fh: Fh, data: bytes, env: Env, i: Inum)
    requires Inv(s) && PutStep(s, sid, fh, data, env).1.code == Success && i in s.db.ns.inodes
    ensures var s' := PutStep(s, sid, fh, data, env).0;
      && s'.db.ns.names == s.db.ns.names && s'.db.handles == s.db.handles && s'.db.locks == s.db.locks
      && (s.db.ns.inodes[i].isDir || i != s.db.handles[(sid, fh)].inum ==>
            s'.db.ns.inodes[i] == s.db.ns.inodes[i] && Data(s'.db.ns, i) == Data(s.db.ns, i))
  {
    hide InodeOk, Numbered, LocksOk;
    StoreEffect(s.db.ns, s.db.handles[(sid, fh)].inum, data, env.now);
  }

  /** The next read of the file, through any handle on it, returns what was put. */
  lemma PutThenGet(s: Server, sid: Sid, fh: Fh, data: bytes, env: Env, sid': Sid, fh': Fh)
    requires |data| <= MAX_PAYLOAD && PutStep(s, sid, fh, data, env).1.code == Success
    requires (sid', fh') in s.db.handles && s.db.handles[(sid', fh')].mode.read
    requires s.db.handles[(sid', fh')].inum == s.db.handles[(sid, fh)].inum
    ensures var r := GetStep(PutStep(s, sid, fh, data, env).0, sid', fh', true).1;
      r.Got? && r.data == data && r.inode.size == |data|
  {
    var ns := s.db.ns;
    var i := s.db.handles[(sid, fh)].inum;
    assert StoreData(ns, i, data, env.now).data[i] == data;
  }

  /** A read through a valid handle meets the size-mismatch error exactly when the data is too long
      for its 32-bit length field. */
  lemma GetMismatch(s: Server, sid: Sid, fh: Fh, wantData: bool)
    requires Inv(s)
    ensures GetStep(s, sid, fh, wantData).1 == Resp(DbErr) <==>
      && (sid, fh) in s.db.handles && s.db.handles[(sid, fh)].mode.read && wantData
      && |Data(s.db.ns, s.db.handles[(sid, fh)].inum)| >= TWO_32
    ensures GetStep(s, sid, fh, wantData).1 != Resp(InodeInval)
  {
    hide Indexed, ListingOk, ValidInodeName, Numbered, LocksOk;
    if (sid, fh) in s.db.handles {
      var i := s.db.handles[(sid, fh)].inum;
      assert InodeOk(i, s.db.ns.inodes[i], Data(s.db.ns, i), s.db.ns.names.Keys);
    }
  }

  /** A get through a handle that may read is answered with the inode and all its data exactly when no data
      is wanted or the data fits the payload; a directory can grow past that. */
  lemma GetAnswered(s: Server, sid: Sid, fh: Fh, wantData: bool)
    requires Inv(s) && (sid, fh) in s.db.handles && s.db.handles[(sid, fh)].mode.read
    ensures var r, i := GetStep(s, sid, fh, wantData).1, s.db.handles[(sid, fh)].inum;
      && i in s.db.ns.inodes
      && (r.Got? <==> !wantData || |Data(s.db.ns, i)| <= MAX_PAYLOAD)
      && (r.Got? ==> r == Got(i, s.db.ns.inodes[i], if wantData then Data(s.db.ns, i) else []))
      && (r.NoReply? <==> wantData && MAX_PAYLOAD < |Data(s.db.ns, i)| < TWO_32)
  {
    hide Indexed, ListingOk, ValidInodeName, Numbered, LocksOk;
    var i := s.db.handles[(sid, fh)].inum;
    assert InodeOk(i, s.db.ns.inodes[i], Data(s.db.ns, i), s.db.ns.names.Keys);
  }

  // ---------- DEL ----------

  lemma DelCheckOk(ns: Ns, name: bytes)
    requires ValidInodeName(name) && |name| >= 2 && DelCheck(ns, name) == Success
    ensures Deletable(ns, name) && ns.names[name] != ns.names[PathnameParse(name).dir]
    ensures ns.inodes[ns.names[name]].isDir ==> Data(ns, ns.names[name]) == []
  {
  }

  lemma DelKeepsInv(s: Server, name: bytes, env: Env)
    requires Inv(s)
    ensures Inv(DelStep(s, name, env).0)
  {
    if DelStep(s, name, env).1.code == Success {
      DelCheckOk(s.db.ns, name);
      DeleteKeepsInv(s.db.ns, name, env.now);
      DeletePrunes(s.db.ns, name, env.now);
    }
  }

  // ---------- Locks ----------

  lemma WithLocksOk(locks: map<Inum, seq<Lock>>, i: Inum, ls: seq<Lock>)
    requires LocksOk(locks) && Locks.Ok(ls) && (i == 0 ==> ls == [])
    ensures LocksOk(WithLocks(locks, i, ls))
    ensures forall j :: LocksOf(WithLocks(locks, i, ls), j) == if j == i then ls else LocksOf(locks, j)
  {
  }

  lemma ListOk(locks: map<Inum, seq<Lock>>, i: Inum)
    requires LocksOk(locks)
    ensures Locks.Ok(LocksOf(locks, i)) && (i == 0 ==> LocksOf(locks, i) == [])
  {
  }

  lemma HandleNotZero(s: Server, k: (Sid, Fh))
    requires Inv(s) && k in s.db.handles
    ensures s.db.handles[k].inum != 0 && k.1 != 0
  {
    var i := s.db.handles[k].inum;
    assert InodeOk(i, s.db.ns.inodes[i], Data(s.db.ns, i), s.db.ns.names.Keys);
  }

  /** A lock request is granted exactly when no granted record conflicts, leaves a waiting record
      only for LOCK and only against a conflict, and never disturbs another record. */
  lemma LockEffect(s: Server, sid: Sid, fh: Fh, shared: bool, wait: bool, env: Env)
    requires Inv(s)
    ensures var (s', r) := LockStep(s, sid, fh, shared, wait, env);
      && Inv(s')
      && (r.code == Success || r.code == LockPending || s' == s)
      && (r.code == Success || r.code == LockPending ==>
            var i := s.db.handles[(sid, fh)].inum;
            var l := Locks.Lock(sid, fh, env.now, shared, r.code == LockPending);
            && (r.code == LockPending <==> Locks.HasConflict(LocksOf(s.db.locks, i), shared))
            && (r.code == LockPending ==> wait)
            && (forall j, x :: x in LocksOf(s'.db.locks, j) <==> x in LocksOf(s.db.locks, j) || (j == i && x == l))
            && s'.db == s.db.(locks := s'.db.locks) && s'.live == s.live)
  {
    hide Namespace.Inv, Kinds, Numbered, Locks.Insert, Locks.Ok, WithLocks;
    if LockHandle(s, sid, fh) == Success {
      var i := s.db.handles[(sid, fh)].inum;
      var ls := LocksOf(s.db.locks, i);
      HandleNotZero(s, (sid, fh));
      ListOk(s.db.locks, i);
      Locks.AddOk(ls, sid, fh, env.now, shared, wait);
      WithLocksOk(s.db.locks, i, Locks.Add(ls, sid, fh, env.now, shared, wait).1);
      Locks.InsertMembers(ls, Locks.Lock(sid, fh, env.now, shared, Locks.HasConflict(ls, shared)));
    }
  }

  /** `x` is the oldest of the handle's records in the list. */
  ghost predicate Oldest(ls: seq<Lock>, sid: Sid, fh: Fh, x: Lock) {
    && x in ls && x.sid == sid && x.fh == fh
    && forall y | y in ls && y.sid == sid && y.fh == fh :: y == x || Locks.Before(x, y)
  }

  /** An unlock through a lock handle removes exactly the oldest record of that handle on its inode,
      and fails exactly when there is none. */
  lemma UnlockEffect(s: Server, sid: Sid, fh: Fh, env: Env)
    requires Inv(s)
    ensures var (s', r) := UnlockStep(s, sid, fh, env);
      && Inv(s')
      && (r.code != Success ==> s' == s)
      && (LockHandle(s, sid, fh) == Success ==>
            var i := s.db.handles[(sid, fh)].inum;
            && (r.code == LockInval <==> forall y | y in LocksOf(s.db.locks, i) :: y.sid != sid || y.fh != fh)
            && (r.code == Success ==> exists x | Oldest(LocksOf(s.db.locks, i), sid, fh, x) ::
                  Dropped(s.db.locks, s'.db.locks, i, x)))
      && s'.db == s.db.(locks := s'.db.locks) && s'.live == s.live
  {
    hide Namespace.Inv, Kinds, Numbered, Locks.Ok, WithLocks, Locks.Before;
    if LockHandle(s, sid, fh) == Success {
      var i := s.db.handles[(sid, fh)].inum;
      var ls := LocksOf(s.db.locks, i);
      HandleNotZero(s, (sid, fh));
      ListOk(s.db.locks, i);
      UnlockList(ls, sid, fh);
      WithLocksOk(s.db.locks, i, Locks.RemoveFirst(ls, sid, fh).1);
      var k := Locks.FirstOf(ls, sid, fh, 0);
      if k < |ls| {
        assert Oldest(ls, sid, fh, ls[k]);
        assert Dropped(s.db.locks, WithLocks(s.db.locks, i, Locks.RemoveFirst(ls, sid, fh).1), i, ls[k]);
      }
    }
  }

  lemma UnlockList(ls: seq<Lock>, sid: Sid, fh: Fh)
    requires Locks.Ok(ls)
    ensures Locks.Ok(Locks.RemoveFirst(ls, sid, fh).1)
    ensures Locks.FirstOf(ls, sid, fh, 0) == |ls| <==> forall y | y in ls :: y.sid != sid || y.fh != fh
    ensures var k := Locks.FirstOf(ls, sid, fh, 0);
      k < |ls| ==>
        && Oldest(ls, sid, fh, ls[k])
        && forall y :: y in Locks.RemoveFirst(ls, sid, fh).1 <==> y in ls && y != ls[k]
  {
    Locks.RemoveFirstOk(ls, sid, fh);
    var k := Locks.FirstOf(ls, sid, fh, 0);
    if k < |ls| {
      Locks.RemoveFirstMembers(ls, sid, fh, k);
      assert ls[k] in ls;
    }
  }

  /** The tables differ in one record: `x` of inode `i` is gone. */
  ghost predicate Dropped(locks: map<Inum, seq<Lock>>, locks': map<Inum, seq<Lock>>, i: Inum, x: Lock) {
    forall j, y :: y in LocksOf(locks', j) <==> y in LocksOf(locks, j) && !(j == i && y == x)
  }

  /** A close removes its handle and exactly that handle's records on the handle's inode. */
  lemma CloseEffect(s: Server, sid: Sid, fh: Fh, env: Env)
    requires Inv(s)
    ensures var (s', r) := CloseStep(s, sid, fh, env);
      && Inv(s')
      && (r.code != Success ==> s' == s)
      && (r.code == Success ==>
            && s'.db.handles == s.db.handles - {(sid, fh)}
            && (forall j, x :: x in LocksOf(s'.db.locks, j) <==>
                  (x in LocksOf(s.db.locks, j) && !(x.sid == sid && x.fh == fh
                    && s.db.handles[(sid, fh)].mode.lock && j == s.db.handles[(sid, fh)].inum))))
  {
    if (sid, fh) in s.db.handles {
      var h := s.db.handles[(sid, fh)];
      var i := if h.mode.lock then h.inum else 0;
      HandleNotZero(s, (sid, fh));
      ListOk(s.db.locks, i);
      var ls := LocksOf(s.db.locks, i);
      Locks.RemoveAllOk(ls, sid, fh);
      Locks.RemoveAllMembers(ls, sid, fh);
      WithLocksOk(s.db.locks, i, Locks.RemoveAll(ls, sid, fh));
    }
  }

  // ---------- Session end ----------

  lemma LocksAfterOk(db: Db, sid: Sid, i: Inum)
    requires LocksOk(db.locks)
    ensures Locks.Ok(LocksAfter(db, sid, i))
    ensures forall x :: x in LocksAfter(db, sid, i) <==>
      x in LocksOf(db.locks, i) && !(x.sid == sid && HasLockHandle(db.handles, sid, i))
  {
    ListOk(db.locks, i);
    Locks.RemoveAllOk(LocksOf(db.locks, i), sid, 0);
    Locks.RemoveAllMembers(LocksOf(db.locks, i), sid, 0);
  }

  /** A lock record whose session has no lock handle open on that inode. */
  ghost predicate Orphan(db: Db, i: Inum, l: Lock) {
    l in LocksOf(db.locks, i) && !HasLockHandle(db.handles, l.sid, i)
  }

  /** Ending a session removes its handles, keeps everyone else's handles and locks, and leaves of
      its own locks exactly the orphans; so all of them go if and only if it had no orphan. */
  lemma SessionGone(db: Db, sid: Sid)
    requires LocksOk(db.locks)
    ensures var db' := SessionRemove(db, sid);
      && LocksOk(db'.locks) && db'.ns == db.ns && db'.sessions == db.sessions - {sid}
      && (forall k :: k in db'.handles <==> k in db.handles && k.0 != sid)
      && (forall k | k in db'.handles :: db'.handles[k] == db.handles[k])
      && (forall i, l: Lock | l.sid != sid :: l in LocksOf(db'.locks, i) <==> l in LocksOf(db.locks, i))
      && (forall i, l: Lock | l.sid == sid :: l in LocksOf(db'.locks, i) <==> Orphan(db, i, l))
      && ((forall i, l | l in LocksOf(db'.locks, i) :: l.sid != sid) <==>
            (forall i, l | Orphan(db, i, l) :: l.sid != sid))
  {
    var db' := SessionRemove(db, sid);
    forall i
      ensures LocksOf(db'.locks, i) == LocksAfter(db, sid, i) && (i in db'.locks ==> Locks.Ok(db'.locks[i]))
    {
      LocksAfterOk(db, sid, i);
      assert i !in db.locks ==> LocksAfter(db, sid, i) == [];
    }
    forall i, l
      ensures l in LocksOf(db'.locks, i) <==>
        l in LocksOf(db.locks, i) && !(l.sid == sid && HasLockHandle(db.handles, sid, i))
    {
      LocksAfterOk(db, sid, i);
    }
  }

  lemma EndSessKeepsInv(s: Server, sid: Sid, env: Env)
    requires Inv(s)
    ensures Inv(EndSessStep(s, sid, env).0)
  {
    hide Namespace.Inv, LocksOk, LocksAfter;
    SessionGone(s.db, sid);
  }

  // ---------- Every run ----------

  lemma StepKeepsInv(s: Server, req: Request, env: Env)
    requires Inv(s)
    ensures Inv(Step(s, req, env).0)
  {
    hide Namespace.Inv, Kinds, LocksOk, Create, Delete, StoreData, Resolve, Locks.Add, Locks.RemoveAll, SessionRemove;
    if req.Restart? || req.NewSess? || req.sid !in s.live || !Decodable(req) {
    } else {
      match req
      case Open(sid, name, mode, events, rands) => OpenKeepsInv(s, sid, name, mode, events, rands, env);
      case Get(_, _, _) =>
      case Put(sid, fh, data) => PutKeepsInv(s, sid, fh, data, env);
      case Close(sid, fh) => CloseEffect(s, sid, fh, env);
      case Del(_, name) => DelKeepsInv(s, name, env);
      case Lock(sid, fh, shared, wait) => LockEffect(s, sid, fh, shared, wait, env);
      case Unlock(sid, fh) => UnlockEffect(s, sid, fh, env);
      case EndSess(sid) => EndSessKeepsInv(s, sid, env);
    }
  }

  /** Every run from an empty database, with any faults and restarts, keeps the whole invariant. */
  lemma {:induction false} RunKeepsInv(now: int, run: seq<(Request, Env)>)
    ensures Inv(Run(Cld.Initial(now), run))
  {
    hide Inv, Step;
    if run == [] {
      InitialInv(now);
    } else {
      var last := run[|run| - 1];
      RunKeepsInv(now, run[..|run| - 1]);
      StepKeepsInv(Run(Cld.Initial(now), run[..|run| - 1]), last.0, last.1);
    }
  }

  // ---------- Every read ----------

  /** The longest record a directory can take: a name of 256 bytes, its length and padding. */
  const RECORD_MAX: nat := 264

  ghost predicate Bounded(ns: Ns, n: nat) {
    forall i | i in ns.data :: |ns.data[i]| <= n
  }

  lemma CreateBounded(ns: Ns, name: bytes, isDir: bool, i: Inum, now: int, n: nat)
    requires Bounded(ns, n) && HasParent(ns, name) && |name| <= INODE_NAME_MAX
    ensures Bounded(Create(ns, name, isDir, i, now), n + RECORD_MAX)
  {
    assert |Directory.Record(PathnameParse(name).base)| <= RECORD_MAX;
  }

  lemma DeleteBounded(ns: Ns, name: bytes, now: int, n: nat)
    requires Bounded(ns, n) && Listed(ns, name) && ns.names[name] != ns.names[PathnameParse(name).dir]
    ensures Bounded(Delete(ns, name, now), n)
  {
    var data, base := Data(ns, ns.names[PathnameParse(name).dir]), PathnameParse(name).base;
    CutShorter(data, base);
  }

  lemma CutShorter(data: bytes, base: bytes)
    requires base in Directory.Parse(data).names
    ensures |Directory.Cut(data, base)| <= |data|
  {
    Directory.OffsetStep(data, 0, Directory.IndexOf(Directory.Parse(data).names, base));
  }

  lemma StepBounded(s: Server, req: Request, env: Env, n: nat)
    requires Bounded(s.db.ns, n) && n >= MAX_PAYLOAD
    ensures Bounded(Step(s, req, env).0.db.ns, n + RECORD_MAX)
  {
    hide Create, Delete, Resolve, DelCheck, StoreData, Locks.Add, Locks.RemoveAll, Locks.RemoveFirst;
    if !req.Restart? && !req.NewSess? && req.sid in s.live && Decodable(req) {
      match req
      case Open(_, name, mode, _, rands) => OpenBounded(s.db.ns, name, mode, rands, env.now, n);
      case Put(sid, fh, data) => PutBounded(s, sid, fh, data, env, n);
      case Del(_, name) => DelBounded(s, name, env, n);
      case _ =>
    }
  }

  lemma PutBounded(s: Server, sid: Sid, fh: Fh, data: bytes, env: Env, n: nat)
    requires Bounded(s.db.ns, n) && |data| <= MAX_PAYLOAD <= n
    ensures Bounded(PutStep(s, sid, fh, data, env).0.db.ns, n)
  {
  }

  lemma DelBounded(s: Server, name: bytes, env: Env, n: nat)
    requires Bounded(s.db.ns, n)
    ensures Bounded(DelStep(s, name, env).0.db.ns, n)
  {
    hide Delete, Bounded;
    if DelStep(s, name, env).1.code == Success {
      DelCheckOk(s.db.ns, name);
      DeleteBounded(s.db.ns, name, env.now, n);
    }
  }

  lemma OpenBounded(ns: Ns, name: bytes, mode: Mode, rands: seq<nat>, now: int, n: nat)
    requires Bounded(ns, n) && |name| <= INODE_NAME_MAX
    ensures Resolve(ns, name, mode, rands).Fresh? ==>
      && HasParent(ns, name)
      && Bounded(Create(ns, name, mode.directory, Resolve(ns, name, mode, rands).inum, now), n + RECORD_MAX)
  {
    var t := Resolve(ns, name, mode, rands);
    if t.Fresh? {
      CreateBounded(ns, name, mode.directory, t.inum, now, n);
    }
  }

  lemma {:induction false} RunBounded(now: int, run: seq<(Request, Env)>)
    ensures Bounded(Run(Cld.Initial(now), run).db.ns, MAX_PAYLOAD + RECORD_MAX * |run|)
  {
    hide Step;
    if run != [] {
      var last := run[|run| - 1];
      RunBounded(now, run[..|run| - 1]);
      StepBounded(Run(Cld.Initial(now), run[..|run| - 1]), last.0, last.1, MAX_PAYLOAD + RECORD_MAX * (|run| - 1));
    }
  }

  /** In every run of fewer than some sixteen million messages no read, of a file or of a directory,
      meets the size-mismatch error. */
  lemma RunReads(now: int, run: seq<(Request, Env)>, sid: Sid, fh: Fh, wantData: bool)
    requires MAX_PAYLOAD + RECORD_MAX * |run| < TWO_32
    ensures GetStep(Run(Cld.Initial(now), run), sid, fh, wantData).1 != Resp(DbErr)
  {
    hide Inv, Step, Run;
    RunKeepsInv(now, run);
    RunBounded(now, run);
    var s := Run(Cld.Initial(now), run);
    GetMismatch(s, sid, fh, wantData);
  }
}
