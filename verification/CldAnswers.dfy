/** Exactly when each CLD message is answered how, and what it leaves, stated by what the client can know: names,
    kinds, handles and locks (cld/msg.c, cld/session.c, cld/cldb.c). */
module CldAnswers {
  import opened Bytes
  import opened Pathname
  import opened Namespace
  import opened Cld
  import opened CldRuns
  import Directory
  import Locks

  // ---------- OPEN ----------

  /** A random number that can become an inode number. */
  predicate UsableInum(inodes: map<Inum, Inode>, x: nat) {
    x > 50 && x !in inodes
  }

  ghost predicate FirstUsable(inodes: map<Inum, Inode>, rands: seq<nat>, k: nat, i: Inum) {
    && k < |rands| && k < 100000 && rands[k] == i && UsableInum(inodes, i)
    && forall j | 0 <= j < k :: !UsableInum(inodes, rands[j])
  }

  ghost predicate SomeUsable(inodes: map<Inum, Inode>, rands: seq<nat>) {
    exists k | 0 <= k < |rands| && k < 100000 :: UsableInum(inodes, rands[k])
  }

  lemma {:induction false} PickExact(inodes: map<Inum, Inode>, rands: seq<nat>, k: nat)
    requires k <= |rands| && k <= 100000 && forall j | 0 <= j < k :: !UsableInum(inodes, rands[j])
    ensures var i := PickInum(inodes, rands, k);
      if SomeUsable(inodes, rands) then exists m :: FirstUsable(inodes, rands, m, i) else i == 0
    decreases |rands| - k
  {
    if k < |rands| && k < 100000 {
      if UsableInum(inodes, rands[k]) {
        assert FirstUsable(inodes, rands, k, PickInum(inodes, rands, k));
      } else {
        PickExact(inodes, rands, k + 1);
      }
    }
  }

  /** A name that may be opened, or created. */
  predicate GoodName(name: bytes, create: bool) {
    ValidInodeName(name) && (create ==> |name| >= 2)
  }

  /** The open can go through: of an existing name, unless it is to be created exclusively, in the mode of its
      kind; of an absent one, if it is to be created, its parent is there and an inode number is found. */
  ghost predicate CanOpen(ns: Ns, name: bytes, mode: Mode, rands: seq<nat>) {
    && GoodName(name, mode.create)
    && if name in ns.names then
         !(mode.create && mode.excl) && ns.names[name] in ns.inodes
         && ns.inodes[ns.names[name]].isDir == mode.directory
       else
         mode.create && PathnameParse(name).dir in ns.names && SomeUsable(ns.inodes, rands)
  }

  lemma ResolveExact(ns: Ns, name: bytes, mode: Mode, rands: seq<nat>)
    requires Indexed(ns)
    ensures var t := Resolve(ns, name, mode, rands);
      && (!t.Refuse? <==> CanOpen(ns, name, mode, rands))
      && (t == Refuse(InodeExists) <==>
            GoodName(name, mode.create) && name in ns.names && mode.create && mode.excl)
      && (t == Refuse(NameInval) <==> !GoodName(name, mode.create) || (name !in ns.names && !mode.create))
      && (t == Refuse(ModeInval) <==>
            && GoodName(name, mode.create) && name in ns.names && !(mode.create && mode.excl)
            && ns.inodes[ns.names[name]].isDir != mode.directory)
      && (t.Existing? ==> name in ns.names && t.inum == ns.names[name])
      && (t.Fresh? ==> name !in ns.names && exists m :: FirstUsable(ns.inodes, rands, m, t.inum))
      && (t.Refuse? ==> t.code != Success)
  {
    PickExact(ns.inodes, rands, 0);
    hide PickInum, FirstUsable, SomeUsable, ValidInodeName;
  }

  /** Without a fault, exactly which opens are granted, and why the others are refused. */
  lemma OpenAnswered(s: Server, sid: Sid, name: bytes, mode: Mode, events: int, rands: seq<nat>, now: int)
    requires CldRuns.Inv(s) && sid in s.live
    ensures var r := OpenStep(s, sid, name, mode, events, rands, Env(now, NoFault)).1;
      && (r.Opened? <==> CanOpen(s.db.ns, name, mode, rands))
      && (r == Resp(InodeExists) <==>
            GoodName(name, mode.create) && name in s.db.ns.names && mode.create && mode.excl)
      && (r == Resp(NameInval) <==> !GoodName(name, mode.create) || (name !in s.db.ns.names && !mode.create))
      && (r == Resp(ModeInval) <==>
            && GoodName(name, mode.create) && name in s.db.ns.names && !(mode.create && mode.excl)
            && s.db.ns.inodes[s.db.ns.names[name]].isDir != mode.directory)
  {
    ResolveExact(s.db.ns, name, mode, rands);
    hide Resolve, CanOpen, GoodName;
  }

  /** The parts of the state that an open granted with number fh leaves, but for the namespace. */
  ghost predicate OpenedAs(s: Server, s': Server, sid: Sid, fh: Fh, h: Handle)
    requires sid in s.live
  {
    && fh == s.live[sid] && s'.live == s.live[sid := fh + 1]
    && s'.db.sessions == s.db.sessions[sid := fh + 1] && s'.db.locks == s.db.locks
    && s'.db.handles == s.db.handles[(sid, fh) := h]
  }

  /** `name` is added, with the first usable inode number. */
  ghost predicate NameAdded(ns: Ns, ns': Ns, name: bytes, rands: seq<nat>) {
    exists m, i :: FirstUsable(ns.inodes, rands, m, i) && ns'.names == ns.names[name := i]
  }

  lemma OpenNs(ns: Ns, name: bytes, mode: Mode, rands: seq<nat>, now: int)
    requires Namespace.Inv(ns) && |name| <= INODE_NAME_MAX && !Resolve(ns, name, mode, rands).Refuse?
    ensures var t := Resolve(ns, name, mode, rands);
      && (t.Existing? ==> name in ns.names && t.inum == ns.names[name])
      && (t.Fresh? ==>
            && name !in ns.names && HasParent(ns, name)
            && NameAdded(ns, Create(ns, name, mode.directory, t.inum, now), name, rands)
            && Create(ns, name, mode.directory, t.inum, now).names == ns.names[name := t.inum])
  {
    ResolveExact(ns, name, mode, rands);
    var t := Resolve(ns, name, mode, rands);
    if t.Fresh? {
      ResolveFresh(ns, name, mode, rands);
      hide Create, FirstUsable, Resolve;
      CreateEffect(ns, name, mode.directory, t.inum, now);
      var m :| FirstUsable(ns.inodes, rands, m, t.inum);
    }
  }

  /** What an open leaves.  A refused one changes nothing.  One of an existing name leaves the namespace as it is;
      one of an absent name adds exactly that name, with the first usable inode number.  Either way one handle is
      added, with the session's next number and the mode asked for, and no lock changes. */
  lemma OpenLeaves(s: Server, sid: Sid, name: bytes, mode: Mode, events: int, rands: seq<nat>, now: int)
    requires CldRuns.Inv(s) && sid in s.live && |name| <= INODE_NAME_MAX
    ensures var (s', r) := OpenStep(s, sid, name, mode, events, rands, Env(now, NoFault));
      && (!r.Opened? ==> s' == s)
      && (r.Opened? ==>
            && name in s'.db.ns.names
            && OpenedAs(s, s', sid, r.fh, Handle(s'.db.ns.names[name], mode, events))
            && if name in s.db.ns.names then s'.db.ns == s.db.ns else NameAdded(s.db.ns, s'.db.ns, name, rands))
  {
    assert Namespace.Inv(s.db.ns);
    hide Namespace.Inv, CldRuns.Inv, Resolve, Create, NameAdded;
    if !Resolve(s.db.ns, name, mode, rands).Refuse? {
      OpenNs(s.db.ns, name, mode, rands, now);
    }
  }

  /** An inode was written: its version advanced by one in 32 bits and its time is now. */
  predicate Touched(ino: Inode, ino': Inode, now: int) {
    && ino'.version == (ino.version + 1) % 0x1_0000_0000 && ino'.modified == now
    && ino'.created == (if ino.created == 0 then now else ino.created)
    && ino'.name == ino.name && ino'.isDir == ino.isDir
  }

  /** Storing data writes one inode, and replaces its data. */
  lemma StoreTouches(ns: Ns, p: Inum, data: bytes, now: int)
    requires p in ns.inodes
    ensures var ns' := StoreData(ns, p, data, now);
      && ns'.inodes.Keys == ns.inodes.Keys && Touched(ns.inodes[p], ns'.inodes[p], now)
      && Data(ns', p) == data
      && (forall q | q in ns.inodes && q != p :: ns'.inodes[q] == ns.inodes[q])
      && (forall q | q != p :: Data(ns', q) == Data(ns, q))
  {
  }

  /** The inode of a new file, and what the create does to its parent: version and time advance. */
  lemma CreateTouches(ns: Ns, name: bytes, isDir: bool, i: Inum, now: int)
    requires Namespace.Inv(ns) && Creatable(ns, name, i)
    ensures var ns' := Create(ns, name, isDir, i, now);
      var p := ns.names[PathnameParse(name).dir];
      && i in ns'.inodes && ns'.inodes[i] == Inode(name, isDir, 0, 1, now, now) && Data(ns', i) == []
      && p in ns'.inodes && Touched(ns.inodes[p], ns'.inodes[p], now)
      && (forall q | q in ns.inodes && q != p :: q in ns'.inodes && ns'.inodes[q] == ns.inodes[q])
      && ns'.inodes.Keys == ns.inodes.Keys + {i}
  {
    assert i !in ns.data && i !in ns.inodes;
    hide Namespace.Inv, Creatable, Touched, StoreData, InodePut, Create;
    var p := ns.names[PathnameParse(name).dir];
    var data := Data(ns, p) + Directory.Record(PathnameParse(name).base);
    CreateIs(ns, name, isDir, i, now);
    hide PathnameParse, Directory.Record;
    StoreTouches(ns, p, data, now);
    InodeAdded(StoreData(ns, p, data, now), i, Inode(name, isDir, 0, 1, now, now));
  }

  lemma CreateIs(ns: Ns, name: bytes, isDir: bool, i: Inum, now: int)
    requires Creatable(ns, name, i)
    ensures var p := ns.names[PathnameParse(name).dir];
      p in ns.inodes && Create(ns, name, isDir, i, now) ==
        InodePut(StoreData(ns, p, Data(ns, p) + Directory.Record(PathnameParse(name).base), now), i,
                 Inode(name, isDir, 0, 1, now, now))
  {
  }

  lemma InodeAdded(ns: Ns, i: Inum, ino: Inode)
    ensures InodePut(ns, i, ino).inodes == ns.inodes[i := ino]
    ensures forall q :: Data(InodePut(ns, i, ino), q) == Data(ns, q)
  {
  }

  // ---------- GET, PUT ----------

  /** Which gets are refused: those without a handle, and those through a handle that may not read. */
  lemma GetRefused(s: Server, sid: Sid, fh: Fh, wantData: bool)
    requires CldRuns.Inv(s)
    ensures var r := GetStep(s, sid, fh, wantData).1;
      && (r == Resp(FhInval) <==> (sid, fh) !in s.db.handles)
      && (r == Resp(ModeInval) <==> (sid, fh) in s.db.handles && !s.db.handles[(sid, fh)].mode.read)
      && r != Resp(InodeInval)
      && GetStep(s, sid, fh, wantData).0 == s
  {
    hide Namespace.Inv, Numbered, LocksOk;
  }

  /** Which puts go through: exactly those through a handle that may write and is on a regular file. */
  lemma PutAnswered(s: Server, sid: Sid, fh: Fh, data: bytes, env: Env)
    requires CldRuns.Inv(s)
    ensures var (s', r) := PutStep(s, sid, fh, data, env);
      && (r == Resp(FhInval) <==> (sid, fh) !in s.db.handles)
      && ((sid, fh) in s.db.handles ==>
            var h := s.db.handles[(sid, fh)];
            && h.inum in s.db.ns.inodes
            && (r == Resp(ModeInval) <==> !h.mode.write || s.db.ns.inodes[h.inum].isDir)
            && (r == Resp(Success) <==> h.mode.write && !s.db.ns.inodes[h.inum].isDir && env.fault.NoFault?)
            && (r == Resp(Success) ==>
                  && Data(s'.db.ns, h.inum) == data && h.inum in s'.db.ns.inodes
                  && Touched(s.db.ns.inodes[h.inum], s'.db.ns.inodes[h.inum], env.now)))
      && (r != Resp(Success) ==> s' == s)
  {
    hide Namespace.Inv, Numbered, LocksOk;
  }

  // ---------- DEL ----------

  /** The parent of a name is there and lists it. */
  ghost predicate ListedByParent(ns: Ns, name: bytes) {
    var info := PathnameParse(name);
    info.dir in ns.names && info.base in Directory.Parse(Data(ns, ns.names[info.dir])).names
  }

  lemma DelCheckExact(ns: Ns, name: bytes)
    requires Namespace.Inv(ns) && ValidInodeName(name) && |name| >= 2
    ensures DelCheck(ns, name) == Success <==>
      && name in ns.names && ListedByParent(ns, name)
      && (ns.inodes[ns.names[name]].isDir ==> Data(ns, ns.names[name]) == [])
  {
    ParseThenJoin(name);
    hide InodeOk, ValidInodeName;
    var info := PathnameParse(name);
    if name in ns.names && ListedByParent(ns, name) {
      var p := ns.names[info.dir];
      NoNames();
      assert p in ns.data;
      assert ns.inodes[p].name == info.dir && ns.inodes[ns.names[name]].name == name;
    }
  }

  lemma NoNames()
    ensures Directory.Parse([]).names == []
  {
  }

  /** Which deletes go through: exactly those of an existing name that its parent lists, if it is not a directory
      with entries.  The name is then gone, with its inode, data and handles, and nothing else but that the parent
      is written. */
  lemma DelAnswered(s: Server, name: bytes, env: Env)
    requires CldRuns.Inv(s)
    ensures var (s', r) := DelStep(s, name, env);
      && (r == Resp(Success) <==>
            && ValidInodeName(name) && |name| >= 2 && env.fault.NoFault?
            && name in s.db.ns.names && ListedByParent(s.db.ns, name)
            && (s.db.ns.inodes[s.db.ns.names[name]].isDir ==> Data(s.db.ns, s.db.ns.names[name]) == []))
      && (r != Resp(Success) ==> s' == s)
      && (r == Resp(Success) ==>
            var i := s.db.ns.names[name];
            && s'.db.ns.names == s.db.ns.names - {name} && s'.db.ns.inodes.Keys == s.db.ns.inodes.Keys - {i}
            && (forall k :: k in s'.db.handles <==> k in s.db.handles && s.db.handles[k].inum != i)
            && (forall k | k in s'.db.handles :: s'.db.handles[k] == s.db.handles[k])
            && s'.db.locks == s.db.locks && s'.db.sessions == s.db.sessions && s'.live == s.live)
  {
    if ValidInodeName(name) && |name| >= 2 {
      DelCheckExact(s.db.ns, name);
      if DelCheck(s.db.ns, name) == Success {
        DelCheckOk(s.db.ns, name);
        DeleteEffect(s.db.ns, name, env.now);
        DeleteKeys(s.db.ns, name, env.now);
      }
    }
    hide CldRuns.Inv, DelCheck, Delete, ListedByParent, ValidInodeName;
  }

  lemma DeleteKeys(ns: Ns, name: bytes, now: int)
    requires Namespace.Inv(ns) && Deletable(ns, name) && ns.names[name] != ns.names[PathnameParse(name).dir]
    ensures var ns' := Delete(ns, name, now);
      var p := ns.names[PathnameParse(name).dir];
      && ns'.inodes.Keys == ns.inodes.Keys - {ns.names[name]}
      && p in ns'.inodes && Touched(ns.inodes[p], ns'.inodes[p], now)
      && (forall q | q in ns'.inodes && q != p :: ns'.inodes[q] == ns.inodes[q] && Data(ns', q) == Data(ns, q))
  {
    hide Namespace.Inv, Directory.Cut, PathnameParse, ValidInodeName, Touched;
    var info := PathnameParse(name);
    var p, i := ns.names[info.dir], ns.names[name];
    StoreTouches(Ns(ns.inodes - {i}, ns.names - {name}, ns.data - {i}), p, Directory.Cut(Data(ns, p), info.base), now);
    hide StoreData;
  }

  /** In a tree every existing name but the root is listed, so that exactly the root and directories with entries
      cannot be deleted. */
  lemma DelInTree(s: Server, name: bytes, now: int)
    requires CldRuns.Inv(s) && Tree(s.db.ns)
    ensures DelStep(s, name, Env(now, NoFault)).1 == Resp(Success) <==>
      && name in s.db.ns.names && name != ROOT
      && (s.db.ns.inodes[s.db.ns.names[name]].isDir ==> Data(s.db.ns, s.db.ns.names[name]) == [])
  {
    DelAnswered(s, name, Env(now, NoFault));
    if name in s.db.ns.names && name != ROOT {
      NameIsValid(s.db.ns, name);
      assert Rooted(s.db.ns, name);
    }
    hide DelStep, Namespace.Inv, Directory.Parse;
  }

  lemma NameIsValid(ns: Ns, name: bytes)
    requires Namespace.Inv(ns) && name in ns.names
    ensures ValidInodeName(name) && (name != ROOT ==> |name| >= 2)
  {
    var i := ns.names[name];
    assert InodeOk(i, ns.inodes[i], Data(ns, i), ns.names.Keys);
    assert |name| == 1 ==> name == ROOT;
  }

  // ---------- LOCK, UNLOCK, CLOSE ----------

  /** Which lock requests are granted, wait or are refused. */
  lemma LockAnswered(s: Server, sid: Sid, fh: Fh, shared: bool, wait: bool, env: Env)
    ensures var r := LockStep(s, sid, fh, shared, wait, env).1;
      && (r == Resp(FhInval) <==> (sid, fh) !in s.db.handles)
      && (r == Resp(ModeInval) <==> (sid, fh) in s.db.handles && !s.db.handles[(sid, fh)].mode.lock)
      && ((sid, fh) in s.db.handles && s.db.handles[(sid, fh)].mode.lock && env.fault.NoFault? ==>
            var ls := LocksOf(s.db.locks, s.db.handles[(sid, fh)].inum);
            var again := exists x | x in ls :: x.sid == sid && x.fh == fh && x.ctime == env.now;
            && (r == Resp(Success) <==> !Locks.HasConflict(ls, shared) && !again)
            && (r == Resp(LockPending) <==> Locks.HasConflict(ls, shared) && wait && !again)
            && (r == Resp(LockConflict) <==> again || (Locks.HasConflict(ls, shared) && !wait)))
  {
    if (sid, fh) in s.db.handles && s.db.handles[(sid, fh)].mode.lock {
      var ls := LocksOf(s.db.locks, s.db.handles[(sid, fh)].inum);
      Locks.AddOutcome(ls, sid, fh, env.now, shared, wait);
      hide Locks.Add, Locks.HasConflict;
    }
  }

  lemma UnlockRefused(s: Server, sid: Sid, fh: Fh, env: Env)
    ensures var r := UnlockStep(s, sid, fh, env).1;
      && (r == Resp(FhInval) <==> (sid, fh) !in s.db.handles)
      && (r == Resp(ModeInval) <==> (sid, fh) in s.db.handles && !s.db.handles[(sid, fh)].mode.lock)
      && (r == Resp(DbErr) ==> !env.fault.NoFault?)
  {
    hide Locks.RemoveFirst;
  }

  lemma CloseAnswered(s: Server, sid: Sid, fh: Fh, env: Env)
    ensures var r := CloseStep(s, sid, fh, env).1;
      && (r == Resp(FhInval) <==> (sid, fh) !in s.db.handles)
      && (r == Resp(Success) <==> (sid, fh) in s.db.handles && env.fault.NoFault?)
  {
    hide Locks.RemoveAll;
  }

  // ---------- Sessions ----------

  /** A new session is refused exactly if it is known; else it starts, in memory and in the database, at handle 2,
      and nothing else changes. */
  lemma NewSessAnswered(s: Server, sid: Sid, env: Env)
    requires CldRuns.Inv(s)
    ensures var (s', r) := NewSessStep(s, sid, env);
      && (r == Resp(SessExists) <==> sid in s.db.sessions)
      && (r == Resp(Success) <==> sid !in s.db.sessions && env.fault.NoFault?)
      && (r != Resp(Success) ==> s' == s)
      && (r == Resp(Success) ==>
            s' == Server(s.db.(sessions := s.db.sessions[sid := 2]), s.live[sid := 2]))
  {
    hide Namespace.Inv, Kinds, LocksOk;
  }

  /** The end of a live session succeeds unless the database fails; either way it leaves memory. */
  lemma EndSessAnswered(s: Server, sid: Sid, env: Env)
    requires CldRuns.Inv(s) && sid in s.live
    ensures var (s', r) := EndSessStep(s, sid, env);
      && (r == Resp(Success) <==> env.fault.NoFault?) && s'.live == s.live - {sid}
      && (r != Resp(Success) ==> s'.db == s.db)
      && (r == Resp(Success) ==> s'.db == SessionRemove(s.db, sid))
  {
    hide Namespace.Inv, Kinds, LocksOk, SessionRemove;
  }

  /** A message of an unknown session, or one that cannot be decoded, is refused and changes nothing. */
  lemma StepRefused(s: Server, req: Request, env: Env)
    requires !req.Restart? && !req.NewSess?
    ensures Step(s, req, env) == (s, Resp(SessInval)) <==> req.sid !in s.live
    ensures req.sid in s.live && !Decodable(req) ==> Step(s, req, env) == (s, Resp(BadPkt))
    ensures Step(s, req, env).1 == Resp(BadPkt) ==> req.sid in s.live && !Decodable(req)
  {
    hide Resolve, DelCheck, Locks.Add, Locks.RemoveFirst, Locks.RemoveAll, Create, Delete, StoreData, SessionRemove;
    if req.sid in s.live && Decodable(req) {
      NotRefusedSo(s, req, env);
    }
  }

  lemma NotRefusedSo(s: Server, req: Request, env: Env)
    requires !req.Restart? && !req.NewSess? && req.sid in s.live && Decodable(req)
    ensures Step(s, req, env).1 != Resp(SessInval) && Step(s, req, env).1 != Resp(BadPkt)
  {
    hide Locks.Add, Locks.RemoveFirst, Locks.RemoveAll, Create, Delete, StoreData, SessionRemove;
  }

  /** After a restart exactly the stored sessions are live, each at its stored counter. */
  lemma RestartLeaves(s: Server, env: Env)
    ensures Step(s, Restart, env) == (Server(s.db, s.db.sessions), Resp(Success))
  {
  }
}
