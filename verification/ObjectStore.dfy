/** The chunkd object store as a whole: the volume's directory and files, the objects being written and
    those whose commit failed, against a map from key to owner and bytes (chunkd/be-fs.c). */
module ObjectStore {
  import opened Bytes
  import opened ObjectFile

  /** A table number and a key stand for the path derived from them. */
  type Path = (nat, bytes)

  // ---------- The volume ----------

  /** Names of files, and their contents.  A file that loses its name lives on for those who have it open. */
  datatype Disk = Disk(names: map<Path, nat>, content: map<nat, bytes>, next: nat)

  function Content(d: Disk, fid: nat): bytes {
    if fid in d.content then d.content[fid] else []
  }

  /** An exclusive create of a name that is free. */
  function DiskNew(d: Disk, path: Path): Disk {
    Disk(d.names[path := d.next], d.content[d.next := []], d.next + 1)
  }

  function DiskSet(d: Disk, fid: nat, f: bytes): Disk {
    d.(content := d.content[fid := f])
  }

  /** Unlinking goes by name. */
  function DiskUnlink(d: Disk, path: Path): Disk {
    d.(names := d.names - {path})
  }

  // ---------- Operations ----------

  /** Whether the commit of an object was tried, by whom, and how much of the front it wrote. */
  datatype Ending = Going | Failed(user: bytes, n: nat)

  /** An object being written: its path, announced size and the bytes taken so far. */
  datatype Writer = Writer(path: Path, size: nat, data: bytes, end: Ending)

  /** What the system does with the final header write. */
  datatype CommitIo = AllWritten | SeekFails | ShortWrite(n: nat) | SyncFails

  datatype Op =
    | New(w: nat, path: Path, size: nat)
    | Write(w: nat, chunk: bytes)
    | Commit(w: nat, user: bytes, io: CommitIo)
    | Free(w: nat)
    | Delete(user: bytes, path: Path)
    | Get(user: bytes, path: Path)

  datatype Reply = Ignored | Status(code: Code) | Found(data: bytes, hash: Digest)

  function DraftOfs(wr: Writer): (n: nat)
    ensures n >= HDR
  {
    ValueOfs(|wr.path.1|, BlkCount(wr.size))
  }

  /** The most an object can be given: one block beyond the checksum table, where the backend's write loop
      stops getting on. */
  predicate Room(wr: Writer, chunk: bytes) {
    |wr.data| + |chunk| <= (BlkCount(wr.size) + 1) * BLK
  }

  /** How much of a front of `len` bytes reaches the file. */
  function Landed(wr: Writer, io: CommitIo, len: nat): (n: nat)
    ensures n <= len
  {
    if |wr.data| != wr.size || io.SeekFails? then 0 else if io.ShortWrite? then Min(io.n, len) else len
  }

  // ---------- Files: each operation as the backend performs it on the volume ----------

  /** The volume, the objects in use, and the file each of them has open. */
  datatype Store = Store(disk: Disk, writers: map<nat, Writer>, fids: map<nat, nat>)

  function FileNew(s: Store, w: nat, path: Path, size: nat): (Store, Reply) {
    if w in s.writers then (s, Ignored)
    else if !KeyValid(path.1) then (s, Status(InvalidKey))
    else if path.0 == 0 then (s, Status(InternalError))
    else if path in s.disk.names then (s, Status(KeyExists))
    else (Store(DiskNew(s.disk, path), s.writers[w := Writer(path, size, [], Going)], s.fids[w := s.disk.next]),
          Status(Success))
  }

  /** The object can be written and committed: it is in use and its commit was not tried yet. */
  predicate Usable(s: Store, w: nat) {
    w in s.writers && w in s.fids && s.writers[w].end.Going?
  }

  function FileWrite(s: Store, w: nat, chunk: bytes): (Store, Reply) {
    if !Usable(s, w) || chunk == [] || !Room(s.writers[w], chunk) then (s, Ignored)
    else
      var wr, fid := s.writers[w], s.fids[w];
      (Store(DiskSet(s.disk, fid, WriteAt(Content(s.disk, fid), DraftOfs(wr) + |wr.data|, chunk)),
             s.writers[w := wr.(data := wr.data + chunk)], s.fids), Status(Success))
  }

  /** A commit that fails leaves the object in use, and the file as far as it got. */
  function FileCommit(sha: Hash, s: Store, w: nat, user: bytes, io: CommitIo): (Store, Reply)
    requires UserValid(user)
  {
    if !Usable(s, w) then (s, Ignored)
    else
      var wr, fid := s.writers[w], s.fids[w];
      var front := Front(sha, user, wr.path.1, wr.data, sha(wr.data));
      var n := Landed(wr, io, |front|);
      var disk := if n == 0 then s.disk else DiskSet(s.disk, fid, WriteAt(Content(s.disk, fid), 0, front[..n]));
      if |wr.data| == wr.size && io.AllWritten?
      then (Store(disk, s.writers - {w}, s.fids - {w}), Status(Success))
      else (Store(disk, s.writers[w := wr.(end := Failed(user, n))], s.fids), Status(InternalError))
  }

  /** Freeing an object not committed unlinks its name, whatever file has that name by now. */
  function FileFree(s: Store, w: nat): (Store, Reply) {
    if w !in s.writers then (s, Ignored)
    else (Store(DiskUnlink(s.disk, s.writers[w].path), s.writers - {w}, s.fids - {w}), Status(Success))
  }

  /** The file at `path`. */
  function FileAt(d: Disk, path: Path): bytes
    requires path in d.names
  {
    Content(d, d.names[path])
  }

  function DeleteCode(d: Disk, user: bytes, path: Path): Code {
    if !KeyValid(path.1) then InvalidKey
    else if path.0 == 0 then InternalError
    else if path !in d.names then NoSuchKey
    else if |FileAt(d, path)| < HDR || ReadFields(FileAt(d, path)).magic != MAGIC then InternalError
    else if ReadFields(FileAt(d, path)).owner != user then AccessDenied
    else Success
  }

  function FileDelete(s: Store, user: bytes, path: Path): (Store, Reply) {
    var code := DeleteCode(s.disk, user, path);
    (if code == Success then s.(disk := DiskUnlink(s.disk, path)) else s, Status(code))
  }

  function FileGet(d: Disk, user: bytes, path: Path): Reply {
    if !KeyValid(path.1) then Status(InvalidKey)
    else if path.0 == 0 then Status(InternalError)
    else if path !in d.names then Status(NoSuchKey)
    else
      match OpenFile(FileAt(d, path), user, path.1)
      case Refused(code) => Status(code)
      case Accepted(m) => Found(FileAt(d, path)[m.valueOfs..m.valueOfs + m.size], m.hash)
  }

  /** Users and sizes the server passes down. */
  predicate OpOk(op: Op) {
    match op
    case New(_, _, size) => Fits(size)
    case Commit(_, user, _) => UserValid(user)
    case Delete(user, _) => UserValid(user)
    case Get(user, _) => UserValid(user)
    case _ => true
  }

  function Step(sha: Hash, s: Store, op: Op): (Store, Reply)
    requires OpOk(op)
  {
    match op
    case New(w, path, size) => FileNew(s, w, path, size)
    case Write(w, chunk) => FileWrite(s, w, chunk)
    case Commit(w, user, io) => FileCommit(sha, s, w, user, io)
    case Free(w) => FileFree(s, w)
    case Delete(user, path) => FileDelete(s, user, path)
    case Get(user, path) => (s, FileGet(s.disk, user, path))
  }

  // ---------- The map: the same operations on keys, owners and bytes ----------

  datatype Obj = Obj(owner: bytes, data: bytes)

  /** What a path holds: a committed object, or the file of an object in use. */
  datatype Slot = Stored(o: Obj) | Held(w: nat)

  datatype Objects = Objects(slots: map<Path, Slot>, writers: map<nat, Writer>)

  function MapNew(a: Objects, w: nat, path: Path, size: nat): (Objects, Reply) {
    if w in a.writers then (a, Ignored)
    else if !KeyValid(path.1) then (a, Status(InvalidKey))
    else if path.0 == 0 then (a, Status(InternalError))
    else if path in a.slots then (a, Status(KeyExists))
    else (Objects(a.slots[path := Held(w)], a.writers[w := Writer(path, size, [], Going)]), Status(Success))
  }

  predicate MapUsable(a: Objects, w: nat) {
    w in a.writers && a.writers[w].end.Going?
  }

  function MapWrite(a: Objects, w: nat, chunk: bytes): (Objects, Reply) {
    if !MapUsable(a, w) || chunk == [] || !Room(a.writers[w], chunk) then (a, Ignored)
    else (a.(writers := a.writers[w := a.writers[w].(data := a.writers[w].data + chunk)]), Status(Success))
  }

  /** The object's file still has its name. */
  predicate Linked(a: Objects, w: nat) {
    w in a.writers && a.writers[w].path in a.slots && a.slots[a.writers[w].path] == Held(w)
  }

  function MapCommit(a: Objects, w: nat, user: bytes, io: CommitIo): (Objects, Reply) {
    if !MapUsable(a, w) then (a, Ignored)
    else
      var wr := a.writers[w];
      if |wr.data| == wr.size && io.AllWritten?
      then (Objects(if Linked(a, w) then a.slots[wr.path := Stored(Obj(user, wr.data))] else a.slots, a.writers - {w}),
            Status(Success))
      else
        var n := Landed(wr, io, ValueOfs(|wr.path.1|, BlkCount(|wr.data|)));
        (a.(writers := a.writers[w := wr.(end := Failed(user, n))]), Status(InternalError))
  }

  function MapFree(a: Objects, w: nat): (Objects, Reply) {
    if w !in a.writers then (a, Ignored)
    else (Objects(a.slots - {a.writers[w].path}, a.writers - {w}), Status(Success))
  }

  /** Why `user` may not delete what an object in use left at its path. */
  function HeldDelete(wr: Writer, user: bytes): Code {
    if wr.end.Going? || !HeaderSeen(wr.data, wr.end.n) then InternalError
    else if OwnerSeen(wr.end.user, wr.end.n) != user then AccessDenied
    else Success
  }

  /** Why `user` may not open it: besides the above, the key must be there. */
  function HeldOpen(wr: Writer, user: bytes): Code {
    if HeldDelete(wr, user) == Success && !KeySeen(wr.path.1, wr.data, wr.end.n) then InternalError
    else HeldDelete(wr, user)
  }

  /** The answer at a path: its own reason to refuse, or that of what it holds. */
  function Refusal(a: Objects, user: bytes, path: Path, open: bool): Code {
    if !KeyValid(path.1) then InvalidKey
    else if path.0 == 0 then InternalError
    else if path !in a.slots then NoSuchKey
    else
      match a.slots[path]
      case Stored(o) => if o.owner == user then Success else AccessDenied
      case Held(w) =>
        if w !in a.writers then InternalError
        else if open then HeldOpen(a.writers[w], user) else HeldDelete(a.writers[w], user)
  }

  /** The bytes a path holds. */
  function ValueAt(a: Objects, path: Path): bytes
    requires path in a.slots
  {
    match a.slots[path]
    case Stored(o) => o.data
    case Held(w) => if w in a.writers then a.writers[w].data else []
  }

  function MapDelete(a: Objects, user: bytes, path: Path): (Objects, Reply) {
    var code := Refusal(a, user, path, false);
    (if code == Success then a.(slots := a.slots - {path}) else a, Status(code))
  }

  function MapGet(sha: Hash, a: Objects, user: bytes, path: Path): Reply {
    var code := Refusal(a, user, path, true);
    if code != Success then Status(code) else Found(ValueAt(a, path), sha(ValueAt(a, path)))
  }

  function MapStep(sha: Hash, a: Objects, op: Op): (Objects, Reply) {
    match op
    case New(w, path, size) => MapNew(a, w, path, size)
    case Write(w, chunk) => MapWrite(a, w, chunk)
    case Commit(w, user, io) => MapCommit(a, w, user, io)
    case Free(w) => MapFree(a, w)
    case Delete(user, path) => MapDelete(a, user, path)
    case Get(user, path) => (a, MapGet(sha, a, user, path))
  }

  // ---------- Refinement ----------

  /** The file of an object in use. */
  function WriterFile(sha: Hash, wr: Writer): bytes
    requires WriterFits(wr)
  {
    if wr.end.Going? || wr.end.n == 0 then Draft(DraftOfs(wr), wr.data)
    else FailedFile(sha, wr.end.user, wr.path.1, wr.data, wr.end.n)
  }

  predicate WriterFits(wr: Writer) {
    && KeyValid(wr.path.1) && wr.path.0 != 0 && Fits(wr.size)
    && (wr.end.Failed? ==> UserValid(wr.end.user))
    && (wr.end.Failed? && wr.end.n > 0 ==>
          |wr.data| == wr.size && wr.end.n <= ValueOfs(|wr.path.1|, BlkCount(|wr.data|)))
  }

  /** What an object in use has on the volume. */
  ghost predicate WriterOk(sha: Hash, d: Disk, wr: Writer, fid: nat) {
    WriterFits(wr) && fid < d.next && fid in d.content && d.content[fid] == WriterFile(sha, wr)
  }

  ghost predicate ObjFits(path: Path, o: Obj) {
    KeyValid(path.1) && path.0 != 0 && UserValid(o.owner) && Fits(|o.data|)
  }

  ghost predicate SlotOk(sha: Hash, s: Store, p: Path, slot: Slot) {
    && p in s.disk.names && s.disk.names[p] < s.disk.next
    && match slot
       case Stored(o) =>
         && ObjFits(p, o) && FileAt(s.disk, p) == Image(sha, o.owner, p.1, o.data)
         && forall w | w in s.fids :: s.fids[w] != s.disk.names[p]
       case Held(w) => w in s.writers && w in s.fids && s.writers[w].path == p && s.disk.names[p] == s.fids[w]
  }

  /** No two objects in use have the same file. */
  ghost predicate OwnFiles(fids: map<nat, nat>) {
    forall w, v | w in fids && v in fids && w != v :: fids[w] != fids[v]
  }

  /** The volume stands for the map. */
  ghost predicate Represents(sha: Hash, s: Store, a: Objects) {
    && s.writers == a.writers && s.fids.Keys == s.writers.Keys && OwnFiles(s.fids)
    && s.disk.names.Keys == a.slots.Keys
    && (forall w | w in s.writers :: WriterOk(sha, s.disk, s.writers[w], s.fids[w]))
    && (forall p | p in a.slots :: SlotOk(sha, s, p, a.slots[p]))
  }

  lemma InUse(sha: Hash, s: Store, a: Objects, w: nat)
    requires Represents(sha, s, a)
    ensures s.writers == a.writers && (w in s.writers <==> w in s.fids)
    ensures w in s.writers ==> WriterOk(sha, s.disk, s.writers[w], s.fids[w])
  {
  }

  /** An object in use changes, and its file with it. */
  lemma WriterSet(sha: Hash, s: Store, a: Objects, w: nat, wr: Writer)
    requires Represents(sha, s, a) && w in s.writers
    requires wr.path == s.writers[w].path && WriterFits(wr)
    ensures Represents(sha, Store(DiskSet(s.disk, s.fids[w], WriterFile(sha, wr)), s.writers[w := wr], s.fids),
                       a.(writers := a.writers[w := wr]))
  {
    hide WriterFile, Image, WriterFits, ObjFits;
    var fid := s.fids[w];
    var s' := Store(DiskSet(s.disk, fid, WriterFile(sha, wr)), s.writers[w := wr], s.fids);
    assert WriterOk(sha, s.disk, s.writers[w], fid);
    forall v | v in s'.writers
      ensures WriterOk(sha, s'.disk, s'.writers[v], s'.fids[v])
    {
      assert v != w ==> WriterOk(sha, s.disk, s.writers[v], s.fids[v]) && s.fids[v] != fid;
    }
    forall p | p in a.slots
      ensures SlotOk(sha, s', p, a.slots[p])
    {
      assert SlotOk(sha, s, p, a.slots[p]);
    }
  }

  lemma NewRefines(sha: Hash, s: Store, a: Objects, w: nat, path: Path, size: nat)
    requires Represents(sha, s, a) && Fits(size)
    ensures FileNew(s, w, path, size).1 == MapNew(a, w, path, size).1
    ensures Represents(sha, FileNew(s, w, path, size).0, MapNew(a, w, path, size).0)
  {
    if FileNew(s, w, path, size).1 == Status(Success) {
      NewFile(sha, s, a, w, path, size);
    }
  }

  lemma NewFile(sha: Hash, s: Store, a: Objects, w: nat, path: Path, size: nat)
    requires Represents(sha, s, a) && Fits(size) && KeyValid(path.1) && path.0 != 0
    requires w !in s.writers && path !in s.disk.names
    ensures Represents(sha, Store(DiskNew(s.disk, path), s.writers[w := Writer(path, size, [], Going)],
                                  s.fids[w := s.disk.next]),
                       Objects(a.slots[path := Held(w)], a.writers[w := Writer(path, size, [], Going)]))
  {
    var wr := Writer(path, size, [], Going);
    NewDraft(sha, wr);
    hide WriterFile, WriterFits, WriterOk, SlotOk, OwnFiles, DiskNew;
    NewWriters(sha, s, a, w, wr);
    NewSlots(sha, s, a, w, wr);
    NewName(s.disk, path);
    var s' := Store(DiskNew(s.disk, path), s.writers[w := wr], s.fids[w := s.disk.next]);
    var slots := a.slots[path := Held(w)];
    assert s'.fids.Keys == s'.writers.Keys == s.writers.Keys + {w};
    assert s'.disk.names.Keys == slots.Keys == a.slots.Keys + {path};
    forall v | v in s'.writers
      ensures WriterOk(sha, s'.disk, s'.writers[v], s'.fids[v])
    {
      assert v != w ==> v in s.writers;
    }
    forall p | p in slots
      ensures SlotOk(sha, s', p, slots[p])
    {
      assert p != path ==> p in a.slots;
    }
  }

  lemma NewName(d: Disk, path: Path)
    ensures DiskNew(d, path).names == d.names[path := d.next]
  {
  }

  lemma NewDraft(sha: Hash, wr: Writer)
    requires wr.end.Going? && wr.data == [] && KeyValid(wr.path.1) && wr.path.0 != 0 && Fits(wr.size)
    ensures WriterFits(wr) && WriterFile(sha, wr) == []
  {
  }

  lemma NewWriters(sha: Hash, s: Store, a: Objects, w: nat, wr: Writer)
    requires Represents(sha, s, a) && w !in s.writers && WriterFits(wr) && WriterFile(sha, wr) == []
    ensures OwnFiles(s.fids[w := s.disk.next])
    ensures forall v | v in s.writers :: WriterOk(sha, DiskNew(s.disk, wr.path), s.writers[v], s.fids[v])
    ensures WriterOk(sha, DiskNew(s.disk, wr.path), wr, s.disk.next)
  {
    hide WriterFile, WriterOk, SlotOk, WriterFits;
    NewWriterOk(sha, s.disk, wr);
    forall v | v in s.writers
      ensures WriterOk(sha, DiskNew(s.disk, wr.path), s.writers[v], s.fids[v]) && s.fids[v] < s.disk.next
    {
      NewWriter(sha, s.disk, wr.path, s.writers[v], s.fids[v]);
    }
  }

  lemma NewSlots(sha: Hash, s: Store, a: Objects, w: nat, wr: Writer)
    requires Represents(sha, s, a) && w !in s.writers && wr.path !in a.slots
    ensures var s' := Store(DiskNew(s.disk, wr.path), s.writers[w := wr], s.fids[w := s.disk.next]);
      SlotOk(sha, s', wr.path, Held(w)) && forall p | p in a.slots :: SlotOk(sha, s', p, a.slots[p])
  {
    hide WriterOk, SlotOk;
    NewSlotOk(sha, s, w, wr);
    forall p | p in a.slots
      ensures SlotOk(sha, Store(DiskNew(s.disk, wr.path), s.writers[w := wr], s.fids[w := s.disk.next]), p, a.slots[p])
    {
      NewSlot(sha, s, a.slots, w, wr, p);
    }
  }

  lemma NewWriter(sha: Hash, d: Disk, path: Path, wr: Writer, fid: nat)
    requires WriterOk(sha, d, wr, fid)
    ensures WriterOk(sha, DiskNew(d, path), wr, fid) && fid < d.next
  {
  }

  lemma NewWriterOk(sha: Hash, d: Disk, wr: Writer)
    requires WriterFits(wr) && WriterFile(sha, wr) == []
    ensures WriterOk(sha, DiskNew(d, wr.path), wr, d.next)
  {
  }

  lemma NewSlot(sha: Hash, s: Store, slots: map<Path, Slot>, w: nat, wr: Writer, p: Path)
    requires w !in s.writers && wr.path !in s.disk.names && p in slots && SlotOk(sha, s, p, slots[p])
    ensures SlotOk(sha, Store(DiskNew(s.disk, wr.path), s.writers[w := wr], s.fids[w := s.disk.next]), p, slots[p])
  {
    hide Image, ObjFits;
  }

  lemma NewSlotOk(sha: Hash, s: Store, w: nat, wr: Writer)
    ensures SlotOk(sha, Store(DiskNew(s.disk, wr.path), s.writers[w := wr], s.fids[w := s.disk.next]), wr.path, Held(w))
  {
  }

  lemma WriteRefines(sha: Hash, s: Store, a: Objects, w: nat, chunk: bytes)
    requires Represents(sha, s, a)
    ensures FileWrite(s, w, chunk).1 == MapWrite(a, w, chunk).1
    ensures Represents(sha, FileWrite(s, w, chunk).0, MapWrite(a, w, chunk).0)
  {
    hide Represents;
    InUse(sha, s, a, w);
    if FileWrite(s, w, chunk).1 == Status(Success) {
      var wr := s.writers[w];
      WriteFile(sha, wr, chunk);
      hide WriteAt, DraftOfs, WriterFile, WriterFits;
      WriterSet(sha, s, a, w, wr.(data := wr.data + chunk));
    }
  }

  /** What a write does to the file. */
  lemma WriteFile(sha: Hash, wr: Writer, chunk: bytes)
    requires WriterFits(wr) && wr.end.Going? && chunk != []
    ensures var wr' := wr.(data := wr.data + chunk);
      WriterFits(wr') && WriteAt(WriterFile(sha, wr), DraftOfs(wr) + |wr.data|, chunk) == WriterFile(sha, wr')
  {
    hide Draft, WriteAt, Fits;
    DraftExtended(DraftOfs(wr), wr.data, chunk);
    SameOfs(wr, wr.(data := wr.data + chunk));
  }

  lemma SameOfs(wr: Writer, wr': Writer)
    requires wr.path == wr'.path && wr.size == wr'.size
    ensures DraftOfs(wr) == DraftOfs(wr')
  {
  }

  /** What commit writes to the file. */
  lemma CommitFile(sha: Hash, wr: Writer, user: bytes, io: CommitIo)
    requires WriterFits(wr) && wr.end.Going? && UserValid(user)
    ensures var front := Front(sha, user, wr.path.1, wr.data, sha(wr.data));
      var n := Landed(wr, io, |front|);
      var wr' := wr.(end := Failed(user, n));
      && WriterFits(wr')
      && (n > 0 ==> WriteAt(WriterFile(sha, wr), 0, front[..n]) == WriterFile(sha, wr'))
      && (n == 0 ==> WriterFile(sha, wr) == WriterFile(sha, wr'))
      && (|wr.data| == wr.size && io.AllWritten? ==>
            n > 0 && WriterFile(sha, wr') == Image(sha, user, wr.path.1, wr.data))
  {
    var front := Front(sha, user, wr.path.1, wr.data, sha(wr.data));
    DraftHeaded(front, wr.data, Landed(wr, io, |front|));
    SameOfs(wr, wr.(end := Failed(user, Landed(wr, io, |front|))));
    hide Draft, WriteAt, Front, Headed;
  }

  lemma CommitRefines(sha: Hash, s: Store, a: Objects, w: nat, user: bytes, io: CommitIo)
    requires Represents(sha, s, a) && UserValid(user)
    ensures FileCommit(sha, s, w, user, io).1 == MapCommit(a, w, user, io).1
    ensures Represents(sha, FileCommit(sha, s, w, user, io).0, MapCommit(a, w, user, io).0)
  {
    hide Represents;
    InUse(sha, s, a, w);
    if Usable(s, w) {
      var wr := s.writers[w];
      CommitFile(sha, wr, user, io);
      hide Front, WriteAt, WriterFile, Image, Landed;
      var n := Landed(wr, io, ValueOfs(|wr.path.1|, BlkCount(|wr.data|)));
      var wr' := wr.(end := Failed(user, n));
      WriterSet(sha, s, a, w, wr');
      if |wr.data| == wr.size && io.AllWritten? {
        var s1 := Store(DiskSet(s.disk, s.fids[w], WriterFile(sha, wr')), s.writers[w := wr'], s.fids);
        CommitDone(sha, s1, a.(writers := a.writers[w := wr']), w, Obj(user, wr.data));
        assert s.writers[w := wr'] - {w} == s.writers - {w};
      } else if n == 0 {
        SameContent(s.disk, s.fids[w]);
      }
    }
  }

  lemma SameContent(d: Disk, fid: nat)
    requires fid in d.content
    ensures DiskSet(d, fid, d.content[fid]) == d
  {
    assert d.content[fid := d.content[fid]] == d.content;
  }

  /** An object whose file is complete goes out of use. */
  lemma CommitDone(sha: Hash, s: Store, a: Objects, w: nat, o: Obj)
    requires Represents(sha, s, a) && w in s.writers
    requires ObjFits(s.writers[w].path, o) && WriterFits(s.writers[w])
    requires WriterFile(sha, s.writers[w]) == Image(sha, o.owner, s.writers[w].path.1, o.data)
    ensures Represents(sha, Store(s.disk, s.writers - {w}, s.fids - {w}),
      Objects(if Linked(a, w) then a.slots[a.writers[w].path := Stored(o)] else a.slots, a.writers - {w}))
  {
    hide WriterFile, Image, WriterFits, ObjFits;
    var path := s.writers[w].path;
    var s' := Store(s.disk, s.writers - {w}, s.fids - {w});
    var slots := if Linked(a, w) then a.slots[path := Stored(o)] else a.slots;
    assert WriterOk(sha, s.disk, s.writers[w], s.fids[w]);
    forall p | p in slots
      ensures SlotOk(sha, s', p, slots[p])
    {
      assert SlotOk(sha, s, p, a.slots[p]);
    }
  }

  lemma Unlinked(sha: Hash, s: Store, a: Objects, path: Path)
    requires Represents(sha, s, a)
    ensures Represents(sha, s.(disk := DiskUnlink(s.disk, path)), a.(slots := a.slots - {path}))
  {
    hide WriterFile, Image, WriterFits, ObjFits;
    var s', slots := s.(disk := DiskUnlink(s.disk, path)), a.slots - {path};
    forall v | v in s'.writers
      ensures WriterOk(sha, s'.disk, s'.writers[v], s'.fids[v])
    {
      assert WriterOk(sha, s.disk, s.writers[v], s.fids[v]);
    }
    forall p | p in slots
      ensures SlotOk(sha, s', p, slots[p])
    {
      assert SlotOk(sha, s, p, a.slots[p]);
    }
  }

  /** An object in use that has no name left goes out of use. */
  lemma WriterGone(sha: Hash, s: Store, a: Objects, w: nat)
    requires Represents(sha, s, a) && w in s.writers && s.writers[w].path !in a.slots
    ensures Represents(sha, Store(s.disk, s.writers - {w}, s.fids - {w}), a.(writers := a.writers - {w}))
  {
    hide WriterFile, Image, WriterFits, ObjFits, WriterOk;
    var s' := Store(s.disk, s.writers - {w}, s.fids - {w});
    forall p | p in a.slots
      ensures SlotOk(sha, s', p, a.slots[p])
    {
      assert SlotOk(sha, s, p, a.slots[p]);
    }
  }

  lemma FreeRefines(sha: Hash, s: Store, a: Objects, w: nat)
    requires Represents(sha, s, a)
    ensures FileFree(s, w).1 == MapFree(a, w).1
    ensures Represents(sha, FileFree(s, w).0, MapFree(a, w).0)
  {
    if w in s.writers {
      var path := s.writers[w].path;
      Unlinked(sha, s, a, path);
      WriterGone(sha, s.(disk := DiskUnlink(s.disk, path)), a.(slots := a.slots - {path}), w);
    }
  }

  // ---------- What open and delete find ----------

  lemma HeaderOfImage(sha: Hash, owner: bytes, key: bytes, data: bytes)
    requires UserValid(owner) && KeyValid(key) && Fits(|data|)
    ensures ReadFields(Image(sha, owner, key, data)).magic == MAGIC
    ensures ReadFields(Image(sha, owner, key, data)).owner == owner
  {
    var rest := key + Flat(Table(sha, data)) + data;
    assert Pow256(4) == 0x1_0000_0000;
    HeaderFields(owner, |key|, |data|, BlkCount(|data|), sha(data), rest);
    assert Image(sha, owner, key, data) == Header(owner, |key|, |data|, BlkCount(|data|), sha(data)) + rest;
  }

  /** Delete sees the file of an object in use exactly as `HeldDelete` says. */
  lemma DeleteHeld(sha: Hash, wr: Writer, user: bytes)
    requires WriterFits(wr)
    ensures var f := WriterFile(sha, wr);
      HeldDelete(wr, user) ==
        if |f| < HDR || ReadFields(f).magic != MAGIC then InternalError
        else if ReadFields(f).owner != user then AccessDenied else Success
  {
    if wr.end.Going? || wr.end.n == 0 {
      DraftUnopenable(DraftOfs(wr), wr.data, user, wr.path.1);
    } else {
      FailedHeader(sha, wr.end.user, wr.path.1, wr.data, wr.end.n);
      if HeaderSeen(wr.data, wr.end.n) {
        FailedOwner(sha, wr.end.user, wr.path.1, wr.data, wr.end.n);
      }
    }
    hide ReadFields, Draft, FailedFile, OwnerSeen;
  }

  /** An open file shows exactly these bytes, and their hash. */
  predicate Shows(f: bytes, m: Meta, sha: Hash, data: bytes) {
    m.hash == sha(data) && m.valueOfs + m.size <= |f| && f[m.valueOfs..m.valueOfs + m.size] == data
  }

  /** Open sees it exactly as `HeldOpen` says, and finds the bytes written. */
  lemma OpenHeld(sha: Hash, wr: Writer, user: bytes)
    requires WriterFits(wr) && UserValid(user)
    ensures var f := WriterFile(sha, wr);
      match OpenFile(f, user, wr.path.1)
      case Refused(code) => code == HeldOpen(wr, user) && code != Success
      case Accepted(m) => HeldOpen(wr, user) == Success && Shows(f, m, sha, wr.data)
  {
    if wr.end.Going? || wr.end.n == 0 {
      DraftUnopenable(DraftOfs(wr), wr.data, user, wr.path.1);
    } else {
      FailedOpen(sha, wr.end.user, wr.path.1, wr.data, wr.end.n, user);
    }
    hide OpenFile, Draft, FailedFile, OwnerSeen, KeySeen, TableSeen;
    var f := WriterFile(sha, wr);
    assert forall m | 0 <= m <= |f| :: f[m..] == f[m..|f|];
  }

  /** Open sees a committed object as it was committed. */
  lemma OpenStored(sha: Hash, o: Obj, path: Path, user: bytes)
    requires ObjFits(path, o)
    ensures var f := Image(sha, o.owner, path.1, o.data);
      match OpenFile(f, user, path.1)
      case Refused(code) => code == AccessDenied && o.owner != user
      case Accepted(m) => o.owner == user && Shows(f, m, sha, o.data)
  {
    OpenImage(sha, o.owner, path.1, o.data, user);
    hide OpenFile, Image;
    var f := Image(sha, o.owner, path.1, o.data);
    assert f[|f| - |o.data|..] == f[|f| - |o.data|..|f|];
  }

  predicate HeldFile(sha: Hash, d: Disk, path: Path, wr: Writer)
    requires path in d.names
  {
    wr.path == path && WriterFits(wr) && FileAt(d, path) == WriterFile(sha, wr)
  }

  /** The file at a path that holds something. */
  lemma Holding(sha: Hash, s: Store, a: Objects, path: Path)
    requires Represents(sha, s, a) && path in a.slots
    ensures path in s.disk.names
    ensures match a.slots[path]
      case Stored(o) => ObjFits(path, o) && FileAt(s.disk, path) == Image(sha, o.owner, path.1, o.data)
      case Held(w) => w in a.writers && HeldFile(sha, s.disk, path, a.writers[w])
  {
    hide WriterFile, Image, WriterFits, ObjFits;
    assert SlotOk(sha, s, path, a.slots[path]);
    if a.slots[path].Held? {
      assert WriterOk(sha, s.disk, s.writers[a.slots[path].w], s.fids[a.slots[path].w]);
    }
  }

  lemma DeleteRefines(sha: Hash, s: Store, a: Objects, user: bytes, path: Path)
    requires Represents(sha, s, a)
    ensures FileDelete(s, user, path).1 == MapDelete(a, user, path).1
    ensures Represents(sha, FileDelete(s, user, path).0, MapDelete(a, user, path).0)
  {
    Unlinked(sha, s, a, path);
    assert path in s.disk.names <==> path in a.slots;
    if path in a.slots {
      Holding(sha, s, a, path);
      match a.slots[path] {
        case Stored(o) => HeaderOfImage(sha, o.owner, path.1, o.data);
        case Held(w) => DeleteHeld(sha, a.writers[w], user);
      }
    }
    hide Represents, WriterFile, WriterFits, Image, ReadFields, HeldDelete, FileAt, ObjFits, DiskUnlink, KeyValid;
  }

  lemma GetStored(sha: Hash, d: Disk, path: Path, o: Obj, user: bytes)
    requires path in d.names && ObjFits(path, o) && FileAt(d, path) == Image(sha, o.owner, path.1, o.data)
    ensures FileGet(d, user, path) == if o.owner == user then Found(o.data, sha(o.data)) else Status(AccessDenied)
  {
    OpenStored(sha, o, path, user);
    hide Image, OpenFile, FileAt;
  }

  lemma GetHeld(sha: Hash, d: Disk, path: Path, wr: Writer, user: bytes)
    requires path in d.names && HeldFile(sha, d, path, wr) && UserValid(user)
    ensures FileGet(d, user, path) ==
      if HeldOpen(wr, user) == Success then Found(wr.data, sha(wr.data)) else Status(HeldOpen(wr, user))
  {
    OpenHeld(sha, wr, user);
    hide WriterFile, OpenFile, FileAt, HeldOpen;
  }

  lemma GetRefines(sha: Hash, s: Store, a: Objects, user: bytes, path: Path)
    requires Represents(sha, s, a) && UserValid(user)
    ensures FileGet(s.disk, user, path) == MapGet(sha, a, user, path)
  {
    assert path in s.disk.names <==> path in a.slots;
    hide Represents, WriterFile, WriterFits, Image, OpenFile, HeldOpen, FileAt;
    if path in a.slots {
      Holding(sha, s, a, path);
      match a.slots[path] {
        case Stored(o) => GetStored(sha, s.disk, path, o, user);
        case Held(w) => GetHeld(sha, s.disk, path, a.writers[w], user);
      }
      hide FileGet;
    }
  }

  // ---------- Every run ----------

  /** Each operation on the volume is the same operation on the map, with the same reply. */
  lemma StepRefines(sha: Hash, s: Store, a: Objects, op: Op)
    requires Represents(sha, s, a) && OpOk(op)
    ensures Step(sha, s, op).1 == MapStep(sha, a, op).1
    ensures Represents(sha, Step(sha, s, op).0, MapStep(sha, a, op).0)
  {
    hide Represents, FileNew, FileWrite, FileCommit, FileFree, FileDelete, FileGet;
    hide MapNew, MapWrite, MapCommit, MapFree, MapDelete, MapGet;
    match op
    case New(w, path, size) => NewRefines(sha, s, a, w, path, size);
    case Write(w, chunk) => WriteRefines(sha, s, a, w, chunk);
    case Commit(w, user, io) => CommitRefines(sha, s, a, w, user, io);
    case Free(w) => FreeRefines(sha, s, a, w);
    case Delete(user, path) => DeleteRefines(sha, s, a, user, path);
    case Get(user, path) => GetRefines(sha, s, a, user, path);
  }

  ghost predicate RunOk(ops: seq<Op>) {
    forall k | 0 <= k < |ops| :: OpOk(ops[k])
  }

  const EMPTY: Store := Store(Disk(map[], map[], 0), map[], map[])

  function Run(sha: Hash, ops: seq<Op>): (Store, seq<Reply>)
    requires RunOk(ops)
  {
    if ops == [] then (EMPTY, [])
    else
      var (s, rs) := Run(sha, ops[..|ops| - 1]);
      var (s', r) := Step(sha, s, ops[|ops| - 1]);
      (s', rs + [r])
  }

  function MapRun(sha: Hash, ops: seq<Op>): (Objects, seq<Reply>) {
    if ops == [] then (Objects(map[], map[]), [])
    else
      var (a, rs) := MapRun(sha, ops[..|ops| - 1]);
      var (a', r) := MapStep(sha, a, ops[|ops| - 1]);
      (a', rs + [r])
  }

  /** Over every run, the volume answers exactly as the map does. */
  lemma {:induction false} RunRefines(sha: Hash, ops: seq<Op>)
    requires RunOk(ops)
    ensures Run(sha, ops).1 == MapRun(sha, ops).1
    ensures Represents(sha, Run(sha, ops).0, MapRun(sha, ops).0)
  {
    hide Step, MapStep;
    if ops != [] {
      var n := |ops| - 1;
      RunRefines(sha, ops[..n]);
      StepRefines(sha, Run(sha, ops[..n]).0, MapRun(sha, ops[..n]).0, ops[n]);
    }
  }
}
