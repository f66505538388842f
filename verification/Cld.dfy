/** The CLD server as a state machine: a database that each message commits to or leaves alone,
    and the sessions held in memory (cld/msg.c, cld/session.c, cld/cldb.c). */
module Cld {
  import opened Bytes
  import opened Pathname
  import opened Namespace
  import Locks

  type Sid = nat
  type Fh = nat
  type Lock = Locks.Lock

  datatype Mode = Mode(read: bool, write: bool, lock: bool, acl: bool, create: bool, excl: bool, directory: bool)

  datatype Handle = Handle(inum: Inum, mode: Mode, events: int)

  /** The stored tables; a session record is represented by its next handle number. */
  datatype Db = Db(ns: Ns, handles: map<(Sid, Fh), Handle>, locks: map<Inum, seq<Lock>>, sessions: map<Sid, Fh>)

  /** The database and, for each session in memory, its next handle number. */
  datatype Server = Server(db: Db, live: map<Sid, Fh>)

  datatype Code = Success | SessExists | SessInval | DbErr | BadPkt | InodeInval | NameInval | Oom | FhInval
                | LockInval | LockConflict | LockPending | ModeInval | InodeExists | DirNotEmpty

  datatype Resp = Resp(code: Code) | Opened(fh: Fh) | Got(inum: Inum, inode: Inode, data: bytes) | NoReply

  /** Whether a database call fails, and whether before or after a new handle number was taken. */
  datatype Fault = NoFault | EarlyFault | LateFault

  datatype Env = Env(now: int, fault: Fault)

  datatype Request =
    | NewSess(sid: Sid)
    | Open(sid: Sid, name: bytes, mode: Mode, events: int, rands: seq<nat>)
    | Get(sid: Sid, fh: Fh, wantData: bool)
    | Put(sid: Sid, fh: Fh, data: bytes)
    | Close(sid: Sid, fh: Fh)
    | Del(sid: Sid, name: bytes)
    | Lock(sid: Sid, fh: Fh, shared: bool, wait: bool)
    | Unlock(sid: Sid, fh: Fh)
    | EndSess(sid: Sid)
    | Restart

  const INODE_NAME_MAX: nat := 256
  const MAX_PAYLOAD: nat := 131072
  const FIRST_FH: Fh := 2
  const INODE_TRIES: nat := 100000

  // ---------- OPEN ----------

  /** The first usable random inode number. */
  function PickInum(inodes: map<Inum, Inode>, rands: seq<nat>, k: nat): (i: Inum)
    requires k <= |rands|
    ensures i != 0 ==> i > INO_RESERVED_LAST && i !in inodes
    decreases |rands| - k
  {
    if k == |rands| || k == INODE_TRIES then 0
    else if rands[k] > INO_RESERVED_LAST && rands[k] !in inodes then rands[k]
    else PickInum(inodes, rands, k + 1)
  }

  datatype Target = Refuse(code: Code) | Existing(inum: Inum) | Fresh(inum: Inum)

  function Resolve(ns: Ns, name: bytes, mode: Mode, rands: seq<nat>): Target {
    if !ValidInodeName(name) || (mode.create && |name| < 2) then Refuse(NameInval)
    else if name !in ns.names && !mode.create then Refuse(NameInval)
    else if name in ns.names && mode.create && mode.excl then Refuse(InodeExists)
    else if name in ns.names then
      if ns.names[name] !in ns.inodes then Refuse(DbErr)
      else if mode.directory != ns.inodes[ns.names[name]].isDir then Refuse(ModeInval)
      else Existing(ns.names[name])
    else
      var i := PickInum(ns.inodes, rands, 0);
      if i == 0 then Refuse(Oom) else if !HasParent(ns, name) then Refuse(DbErr) else Fresh(i)
  }

  function OpenDb(db: Db, sid: Sid, fh: Fh, t: Target, name: bytes, mode: Mode, events: int, now: int): Db
    requires !t.Refuse? && (t.Fresh? ==> HasParent(db.ns, name))
  {
    Db(if t.Fresh? then Create(db.ns, name, mode.directory, t.inum, now) else db.ns,
       db.handles[(sid, fh) := Handle(t.inum, mode, events)],
       db.locks,
       db.sessions[sid := fh + 1])
  }

  function OpenStep(s: Server, sid: Sid, name: bytes, mode: Mode, events: int, rands: seq<nat>, env: Env)
    : (Server, Resp)
    requires sid in s.live
  {
    var t := Resolve(s.db.ns, name, mode, rands);
    var fh := s.live[sid];
    if t.Refuse? then (s, Resp(t.code))
    else if env.fault.EarlyFault? then (s, Resp(DbErr))
    else if env.fault.LateFault? then (s.(live := s.live[sid := fh + 1]), Resp(DbErr))
    else (Server(OpenDb(s.db, sid, fh, t, name, mode, events, env.now), s.live[sid := fh + 1]), Opened(fh))
  }

  // ---------- GET, PUT ----------

  /** Data that does not fit a reply makes encoding it fail, and nothing is sent. */
  function GetStep(s: Server, sid: Sid, fh: Fh, wantData: bool): (Server, Resp) {
    if (sid, fh) !in s.db.handles then (s, Resp(FhInval))
    else
      var h, ns := s.db.handles[(sid, fh)], s.db.ns;
      if !h.mode.read then (s, Resp(ModeInval))
      else if h.inum !in ns.inodes then (s, Resp(InodeInval))
      else if !wantData || h.inum !in ns.data then (s, Got(h.inum, ns.inodes[h.inum], []))
      else if |ns.data[h.inum]| != ns.inodes[h.inum].size then (s, Resp(DbErr))
      else if |ns.data[h.inum]| > MAX_PAYLOAD then (s, NoReply)
      else (s, Got(h.inum, ns.inodes[h.inum], ns.data[h.inum]))
  }

  function PutStep(s: Server, sid: Sid, fh: Fh, data: bytes, env: Env): (Server, Resp) {
    if (sid, fh) !in s.db.handles then (s, Resp(FhInval))
    else
      var h := s.db.handles[(sid, fh)];
      if !h.mode.write || h.mode.directory then (s, Resp(ModeInval))
      else if h.inum !in s.db.ns.inodes then (s, Resp(InodeInval))
      else if !env.fault.NoFault? then (s, Resp(DbErr))
      else (s.(db := s.db.(ns := StoreData(s.db.ns, h.inum, data, env.now))), Resp(Success))
  }

  // ---------- DEL ----------

  /** Why a delete of a valid name is refused, if it is. */
  function DelCheck(ns: Ns, name: bytes): Code {
    var info := PathnameParse(name);
    if !HasParent(ns, name) || ns.names[info.dir] !in ns.data then DbErr
    else if name !in ns.names || ns.names[name] !in ns.inodes then NameInval
    else if ns.inodes[ns.names[name]].isDir && Data(ns, ns.names[name]) != [] then DirNotEmpty
    else if !Listed(ns, name) || ns.names[name] == ns.names[info.dir] then DbErr
    else Success
  }

  function DelStep(s: Server, name: bytes, env: Env): (Server, Resp) {
    var db := s.db;
    if !ValidInodeName(name) || |name| < 2 then (s, Resp(NameInval))
    else if DelCheck(db.ns, name) != Success then (s, Resp(DelCheck(db.ns, name)))
    else if !env.fault.NoFault? then (s, Resp(DbErr))
    else
      var i := db.ns.names[name];
      (s.(db := db.(ns := Delete(db.ns, name, env.now),
                    handles := map k | k in db.handles && db.handles[k].inum != i :: db.handles[k])),
       Resp(Success))
  }

  // ---------- LOCK, UNLOCK, CLOSE ----------

  function LocksOf(locks: map<Inum, seq<Lock>>, i: Inum): seq<Lock> {
    if i in locks then locks[i] else []
  }

  function WithLocks(locks: map<Inum, seq<Lock>>, i: Inum, ls: seq<Lock>): map<Inum, seq<Lock>> {
    if ls == [] then locks - {i} else locks[i := ls]
  }

  /** The handle of a lock or unlock request, or why it is refused. */
  function LockHandle(s: Server, sid: Sid, fh: Fh): Code {
    if (sid, fh) !in s.db.handles then FhInval
    else if !s.db.handles[(sid, fh)].mode.lock then ModeInval
    else Success
  }

  function LockStep(s: Server, sid: Sid, fh: Fh, shared: bool, wait: bool, env: Env): (Server, Resp) {
    if LockHandle(s, sid, fh) != Success then (s, Resp(LockHandle(s, sid, fh)))
    else
      var i := s.db.handles[(sid, fh)].inum;
      var (rc, ls) := Locks.Add(LocksOf(s.db.locks, i), sid, fh, env.now, shared, wait);
      if !env.fault.NoFault? then (s, Resp(DbErr))
      else if rc.KeyExist? then (s, Resp(LockConflict))
      else (s.(db := s.db.(locks := WithLocks(s.db.locks, i, ls))), Resp(if rc.Acquired? then Success else LockPending))
  }

  function UnlockStep(s: Server, sid: Sid, fh: Fh, env: Env): (Server, Resp) {
    if LockHandle(s, sid, fh) != Success then (s, Resp(LockHandle(s, sid, fh)))
    else
      var i := s.db.handles[(sid, fh)].inum;
      var (rc, ls) := Locks.RemoveFirst(LocksOf(s.db.locks, i), sid, fh);
      if rc.NotFound? || !env.fault.NoFault? then (s, Resp(if rc.NotFound? then LockInval else DbErr))
      else (s.(db := s.db.(locks := WithLocks(s.db.locks, i, ls))), Resp(Success))
  }

  /** A handle without lock permission closes against inode 0, which has no locks. */
  function CloseStep(s: Server, sid: Sid, fh: Fh, env: Env): (Server, Resp) {
    var db := s.db;
    if (sid, fh) !in db.handles then (s, Resp(FhInval))
    else if !env.fault.NoFault? then (s, Resp(DbErr))
    else
      var h := db.handles[(sid, fh)];
      var i := if h.mode.lock then h.inum else 0;
      (s.(db := db.(handles := db.handles - {(sid, fh)},
                    locks := WithLocks(db.locks, i, Locks.RemoveAll(LocksOf(db.locks, i), sid, fh)))),
       Resp(Success))
  }

  // ---------- Sessions ----------

  predicate HasLockHandle(handles: map<(Sid, Fh), Handle>, sid: Sid, i: Inum) {
    exists k | k in handles :: k.0 == sid && handles[k].inum == i && handles[k].mode.lock
  }

  /** Locks of inode `i` after the session's end: its own go where it has a lock handle open. */
  function LocksAfter(db: Db, sid: Sid, i: Inum): seq<Lock> {
    if HasLockHandle(db.handles, sid, i) then Locks.RemoveAll(LocksOf(db.locks, i), sid, 0) else LocksOf(db.locks, i)
  }

  /** session_remove. */
  function SessionRemove(db: Db, sid: Sid): Db {
    db.(handles := map k | k in db.handles && k.0 != sid :: db.handles[k],
        locks := map i | i in db.locks && LocksAfter(db, sid, i) != [] :: LocksAfter(db, sid, i),
        sessions := db.sessions - {sid})
  }

  /** The session leaves memory even when removing it from the database fails. */
  function EndSessStep(s: Server, sid: Sid, env: Env): (Server, Resp) {
    var gone := s.(live := s.live - {sid});
    if !env.fault.NoFault? || sid !in s.db.sessions then (gone, Resp(DbErr))
    else (gone.(db := SessionRemove(s.db, sid)), Resp(Success))
  }

  function NewSessStep(s: Server, sid: Sid, env: Env): (Server, Resp) {
    if sid in s.live || sid in s.db.sessions then (s, Resp(SessExists))
    else if !env.fault.NoFault? then (s, Resp(DbErr))
    else (Server(s.db.(sessions := s.db.sessions[sid := FIRST_FH]), s.live[sid := FIRST_FH]), Resp(Success))
  }

  // ---------- Runs ----------

  /** Messages the XDR layer can carry. */
  predicate Decodable(req: Request) {
    match req
    case Open(_, name, _, _, _) => |name| <= INODE_NAME_MAX
    case Del(_, name) => |name| <= INODE_NAME_MAX
    case Put(_, _, data) => |data| <= MAX_PAYLOAD
    case _ => true
  }

  function Step(s: Server, req: Request, env: Env): (Server, Resp) {
    if req.Restart? then (s.(live := s.db.sessions), Resp(Success))
    else if req.NewSess? then NewSessStep(s, req.sid, env)
    else if req.sid !in s.live then (s, Resp(SessInval))
    else if !Decodable(req) then (s, Resp(BadPkt))
    else
      match req
      case Open(sid, name, mode, events, rands) => OpenStep(s, sid, name, mode, events, rands, env)
      case Get(sid, fh, wantData) => GetStep(s, sid, fh, wantData)
      case Put(sid, fh, data) => PutStep(s, sid, fh, data, env)
      case Close(sid, fh) => CloseStep(s, sid, fh, env)
      case Del(_, name) => DelStep(s, name, env)
      case Lock(sid, fh, shared, wait) => LockStep(s, sid, fh, shared, wait, env)
      case Unlock(sid, fh) => UnlockStep(s, sid, fh, env)
      case EndSess(sid) => EndSessStep(s, sid, env)
  }

  function Initial(now: int): Server {
    Server(Db(Namespace.Initial(now), map[], map[], map[]), map[])
  }

  /** The state after a run of messages. */
  function Run(s: Server, run: seq<(Request, Env)>): Server {
    if run == [] then s
    else
      var last := run[|run| - 1];
      Step(Run(s, run[..|run| - 1]), last.0, last.1).0
  }
}
