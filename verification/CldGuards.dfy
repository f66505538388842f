/** Two properties the CLD server keeps only while its clients stay within a guard the server does
    not check: the tree shape of the namespace, and the ownership of lock records.  For each, the
    one message that breaks it, the exact condition, and what guarded runs guarantee. */
module CldGuards {
  import opened Bytes
  import opened Pathname
  import opened Namespace
  import opened Cld
  import opened CldRuns
  import Locks

  predicate Handled(s: Server, req: Request, env: Env) {
    !req.Restart? && !req.NewSess? && req.sid in s.live && Decodable(req) && env.fault.NoFault?
  }

  // ---------- The tree ----------

  /** A create that commits under a parent that is not a directory; msg_open does not look. */
  predicate CreatesUnderFile(s: Server, req: Request, env: Env) {
    && Handled(s, req, env) && req.Open?
    && Resolve(s.db.ns, req.name, req.mode, req.rands).Fresh?
    && !s.db.ns.inodes[s.db.ns.names[PathnameParse(req.name).dir]].isDir
  }

  lemma StoreKeepsTree(ns: Ns, i: Inum, data: bytes, now: int)
    requires Indexed(ns) && Tree(ns) && i in ns.inodes && !ns.inodes[i].isDir
    ensures Tree(StoreData(ns, i, data, now))
  {
    StoreEffect(ns, i, data, now);
    var ns' := StoreData(ns, i, data, now);
    forall n | n in ns'.names && n != ROOT
      ensures Rooted(ns', n)
    {
      assert Rooted(ns, n);
      SameParent(ns, ns', n);
    }
  }

  lemma OpenTree(s: Server, req: Request, env: Env)
    requires CldRuns.Inv(s) && Tree(s.db.ns) && req.Open? && req.sid in s.live && Decodable(req)
    ensures Tree(OpenStep(s, req.sid, req.name, req.mode, req.events, req.rands, env).0.db.ns)
      <==> !CreatesUnderFile(s, req, env)
  {
    hide Tree, Namespace.Inv, Kinds, Numbered, LocksOk, Create;
    var t := Resolve(s.db.ns, req.name, req.mode, req.rands);
    if t.Fresh? {
      ResolveFresh(s.db.ns, req.name, req.mode, req.rands);
      CreateKeepsTree(s.db.ns, req.name, req.mode.directory, t.inum, env.now);
    }
  }

  lemma DelTree(s: Server, name: bytes, env: Env)
    requires CldRuns.Inv(s) && Tree(s.db.ns)
    ensures Tree(DelStep(s, name, env).0.db.ns)
  {
    hide CldRuns.Kinds, Tree, Delete, Numbered, LocksOk;
    if DelStep(s, name, env).1.code == Success {
      DelCheckOk(s.db.ns, name);
      DeleteKeepsTree(s.db.ns, name, env.now);
    }
  }

  lemma PutTree(s: Server, sid: Sid, fh: Fh, data: bytes, env: Env)
    requires CldRuns.Inv(s) && Tree(s.db.ns)
    ensures Tree(PutStep(s, sid, fh, data, env).0.db.ns)
  {
    hide InodeOk, Tree, StoreData, Numbered, LocksOk;
    if PutStep(s, sid, fh, data, env).1.code == Success {
      StoreKeepsTree(s.db.ns, s.db.handles[(sid, fh)].inum, data, env.now);
    }
  }

  /** A message keeps the tree exactly when it is not a create under a non-directory. */
  lemma StepTree(s: Server, req: Request, env: Env)
    requires CldRuns.Inv(s) && Tree(s.db.ns)
    ensures Tree(Step(s, req, env).0.db.ns) <==> !CreatesUnderFile(s, req, env)
  {
    hide Tree, CldRuns.Inv, Create, Delete, StoreData, Resolve, Locks.Add, Locks.RemoveAll;
    if !req.Restart? && !req.NewSess? && req.sid in s.live && Decodable(req) {
      match req
      case Open(_, _, _, _, _) => OpenTree(s, req, env);
      case Put(sid, fh, data) => PutTree(s, sid, fh, data, env);
      case Del(_, name) => DelTree(s, name, env);
      case _ =>
    }
  }

  /** No create of the run is under a non-directory. */
  ghost predicate GuardedTree(now: int, run: seq<(Request, Env)>) {
    forall k | 0 <= k < |run| :: !CreatesUnderFile(Run(Cld.Initial(now), run[..k]), run[k].0, run[k].1)
  }

  lemma GuardedTreeInit(now: int, run: seq<(Request, Env)>, n: nat)
    requires GuardedTree(now, run) && n + 1 == |run|
    ensures GuardedTree(now, run[..n]) && !CreatesUnderFile(Run(Cld.Initial(now), run[..n]), run[n].0, run[n].1)
  {
    hide CreatesUnderFile, Run;
    assert forall k | 0 <= k < n :: run[..n][..k] == run[..k] && run[..n][k] == run[k];
  }

  /** In runs whose creates all name a directory as parent, the namespace is a tree: every inode but
      the root is listed by its live parent directory. */
  lemma {:induction false} RunKeepsTree(now: int, run: seq<(Request, Env)>)
    requires GuardedTree(now, run)
    ensures Tree(Run(Cld.Initial(now), run).db.ns)
  {
    hide Tree, CldRuns.Inv, Step, GuardedTree, CreatesUnderFile;
    if run == [] {
      CldRuns.InitialInv(now);
    } else {
      var n := |run| - 1;
      GuardedTreeInit(now, run, n);
      RunKeepsTree(now, run[..n]);
      RunKeepsInv(now, run[..n]);
      StepTree(Run(Cld.Initial(now), run[..n]), run[n].0, run[n].1);
    }
  }

  /** And there a directory lists exactly its children. */
  lemma RunListsChildren(now: int, run: seq<(Request, Env)>, i: Inum, b: bytes)
    requires GuardedTree(now, run)
    requires i in Run(Cld.Initial(now), run).db.ns.inodes && Run(Cld.Initial(now), run).db.ns.inodes[i].isDir
    ensures var ns := Run(Cld.Initial(now), run).db.ns;
      b in Children(ns, i) <==> ValidBase(b) && Join(ns.inodes[i].name, b) in ns.names
  {
    hide Tree, Step, GuardedTree;
    RunKeepsTree(now, run);
    RunKeepsInv(now, run);
    TreeListsChildren(Run(Cld.Initial(now), run).db.ns, i, b);
  }

  // ---------- Lock ownership ----------

  /** Every lock record belongs to a live handle that may lock that inode. */
  ghost predicate Owned(handles: map<(Sid, Fh), Handle>, locks: map<Inum, seq<Lock>>) {
    forall i, l | l in LocksOf(locks, i) ::
      (l.sid, l.fh) in handles && handles[(l.sid, l.fh)].inum == i && handles[(l.sid, l.fh)].mode.lock
  }

  /** A delete that commits while its inode has lock records; msg_del removes the handles only. */
  predicate DeletesLocked(s: Server, req: Request, env: Env) {
    && Handled(s, req, env) && req.Del?
    && ValidInodeName(req.name) && |req.name| >= 2 && DelCheck(s.db.ns, req.name) == Success
    && LocksOf(s.db.locks, s.db.ns.names[req.name]) != []
  }

  lemma OpenOwned(s: Server, req: Request, env: Env)
    requires CldRuns.Inv(s) && Owned(s.db.handles, s.db.locks) && req.Open? && req.sid in s.live
    ensures Owned(OpenStep(s, req.sid, req.name, req.mode, req.events, req.rands, env).0.db.handles, s.db.locks)
  {
    var t := Resolve(s.db.ns, req.name, req.mode, req.rands);
    if !t.Refuse? {
      NumberTaken(s.db.handles, s.db.sessions, s.live, req.sid, Handle(t.inum, req.mode, req.events));
    }
  }

  lemma DelOwned(s: Server, req: Request, env: Env)
    requires CldRuns.Inv(s) && Owned(s.db.handles, s.db.locks) && req.Del? && req.sid in s.live && Decodable(req)
    ensures Owned(DelStep(s, req.name, env).0.db.handles, s.db.locks) <==> !DeletesLocked(s, req, env)
  {
    hide Namespace.Inv, Numbered, LocksOk, Delete;
    if DelStep(s, req.name, env).1.code == Success {
      var i := s.db.ns.names[req.name];
      var ls := LocksOf(s.db.locks, i);
      var handles' := DelStep(s, req.name, env).0.db.handles;
      if ls != [] {
        assert ls[0] in LocksOf(s.db.locks, i) && (ls[0].sid, ls[0].fh) !in handles';
      } else {
        assert forall j, l | l in LocksOf(s.db.locks, j) :: j != i;
      }
    }
  }

  lemma EndSessOwned(s: Server, sid: Sid, env: Env)
    requires CldRuns.Inv(s) && Owned(s.db.handles, s.db.locks)
    ensures Owned(EndSessStep(s, sid, env).0.db.handles, EndSessStep(s, sid, env).0.db.locks)
  {
    SessionGone(s.db, sid);
    NoOrphans(s.db);
  }

  lemma NoOrphans(db: Db)
    requires Owned(db.handles, db.locks)
    ensures forall i, l :: !Orphan(db, i, l)
  {
    forall i, l | l in LocksOf(db.locks, i)
      ensures HasLockHandle(db.handles, l.sid, i)
    {
      assert (l.sid, l.fh) in db.handles;
    }
  }

  /** A message keeps lock ownership exactly when it does not delete an inode with lock records. */
  lemma StepOwned(s: Server, req: Request, env: Env)
    requires CldRuns.Inv(s) && Owned(s.db.handles, s.db.locks)
    ensures Owned(Step(s, req, env).0.db.handles, Step(s, req, env).0.db.locks) <==> !DeletesLocked(s, req, env)
  {
    hide CldRuns.Inv, Create, Delete, StoreData, Resolve, Locks.Add, Locks.RemoveAll, SessionRemove;
    if !req.Restart? && !req.NewSess? && req.sid in s.live && Decodable(req) {
      match req
      case Open(_, _, _, _, _) => OpenOwned(s, req, env);
      case Del(_, _) => DelOwned(s, req, env);
      case Close(sid, fh) => CloseEffect(s, sid, fh, env);
      case Lock(sid, fh, shared, wait) => LockEffect(s, sid, fh, shared, wait, env);
      case Unlock(sid, fh) => UnlockEffect(s, sid, fh, env);
      case EndSess(sid) => EndSessOwned(s, sid, env);
      case _ =>
    }
  }

  /** No delete of the run is of an inode with lock records. */
  ghost predicate GuardedLocks(now: int, run: seq<(Request, Env)>) {
    forall k | 0 <= k < |run| :: !DeletesLocked(Run(Cld.Initial(now), run[..k]), run[k].0, run[k].1)
  }

  lemma GuardedLocksInit(now: int, run: seq<(Request, Env)>, n: nat)
    requires GuardedLocks(now, run) && n + 1 == |run|
    ensures GuardedLocks(now, run[..n]) && !DeletesLocked(Run(Cld.Initial(now), run[..n]), run[n].0, run[n].1)
  {
    hide DeletesLocked, Run;
    assert forall k | 0 <= k < n :: run[..n][..k] == run[..k] && run[..n][k] == run[k];
  }

  /** Then every lock record belongs to a live handle, however the run goes. */
  lemma {:induction false} RunKeepsOwned(now: int, run: seq<(Request, Env)>)
    requires GuardedLocks(now, run)
    ensures Owned(Run(Cld.Initial(now), run).db.handles, Run(Cld.Initial(now), run).db.locks)
  {
    hide CldRuns.Inv, Step, GuardedLocks, DeletesLocked;
    if run != [] {
      var n := |run| - 1;
      GuardedLocksInit(now, run, n);
      RunKeepsOwned(now, run[..n]);
      RunKeepsInv(now, run[..n]);
      StepOwned(Run(Cld.Initial(now), run[..n]), run[n].0, run[n].1);
    }
  }

  /** `db'` holds exactly the handles and locks of the other sessions. */
  ghost predicate Clean(db: Db, db': Db, sid: Sid) {
    && (forall k :: k in db'.handles <==> k in db.handles && k.0 != sid)
    && (forall k | k in db'.handles :: db'.handles[k] == db.handles[k])
    && (forall i: Inum :: OthersLocks(LocksOf(db.locks, i), LocksOf(db'.locks, i), sid))
  }

  ghost predicate OthersLocks(ls: seq<Lock>, ls': seq<Lock>, sid: Sid) {
    forall l: Lock :: l in ls' <==> l in ls && l.sid != sid
  }

  lemma SessionClean(db: Db, sid: Sid)
    requires LocksOk(db.locks) && Owned(db.handles, db.locks)
    ensures Clean(db, SessionRemove(db, sid), sid)
  {
    SessionGone(db, sid);
    NoOrphans(db);
    hide SessionRemove, Owned, LocksOk, Orphan;
    var db' := SessionRemove(db, sid);
    forall i: Inum
      ensures OthersLocks(LocksOf(db.locks, i), LocksOf(db'.locks, i), sid)
    {
      forall l: Lock
        ensures l in LocksOf(db'.locks, i) <==> l in LocksOf(db.locks, i) && l.sid != sid
      {
        assert !Orphan(db, i, l);
      }
    }
    hide OthersLocks;
  }

  /** After such a run, ending a session leaves nothing of it behind and nothing else changed. */
  lemma SessionLeavesNothing(now: int, run: seq<(Request, Env)>, sid: Sid)
    requires GuardedLocks(now, run)
    ensures Clean(Run(Cld.Initial(now), run).db, SessionRemove(Run(Cld.Initial(now), run).db, sid), sid)
  {
    hide Step, GuardedLocks, Owned, SessionRemove, Clean, Namespace.Inv, Kinds, Numbered, LocksOk;
    RunKeepsInv(now, run);
    RunKeepsOwned(now, run);
    SessionClean(Run(Cld.Initial(now), run).db, sid);
  }
}
