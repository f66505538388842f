/** Writing a chunkd object: the streaming block checksums of the backend and the PUT driver above
    it (chunkd/be-fs.c, chunkd/object.c).  What each system call does is given by a script. */
module ObjectWriter {
  import opened Bytes
  import opened ObjectFile
  import opened ObjectStore

  // ---------- The system ----------

  /** A negative entry is an error; another asks for that many bytes to be taken. */
  type Script = nat -> int

  /** None of the calls a, .., b - 1 fails. */
  predicate AllOk(script: Script, a: nat, b: nat) {
    forall i | a <= i < b :: script(i) >= 0
  }

  lemma TakenMore(before: bytes, ptr: bytes, p: nat, n: nat)
    requires p + n <= |ptr|
    ensures before + ptr[..p] + ptr[p..][..n] == before + ptr[..p + n]
  {
    assert ptr[..p] + ptr[p..][..n] == ptr[..p + n];
  }

  lemma AllOkNext(script: Script, a: nat, b: nat)
    requires a <= b
    ensures AllOk(script, a, b + 1) <==> AllOk(script, a, b) && script(b) >= 0
  {
  }

  lemma AllOkJoin(script: Script, a: nat, b: nat, c: nat)
    requires a <= b <= c
    ensures AllOk(script, a, c) <==> AllOk(script, a, b) && AllOk(script, b, c)
  {
  }

  /** write(2) of n bytes: an error, or at least one and at most all of them. */
  function WriteResult(v: int, n: nat): (wrc: int)
    requires n > 0
    ensures wrc == -1 || 1 <= wrc <= n
    ensures v < 0 <==> wrc == -1
  {
    if v < 0 then -1 else if v < 1 then 1 else if v <= n then v else n
  }

  /** read(2) of up to `len` bytes with `left` before the end. */
  function ReadResult(v: int, len: nat, left: nat): (rc: int)
    ensures -1 <= rc <= len && rc <= left
    ensures v < 0 <==> rc == -1
    ensures rc == 0 ==> len == 0 || left == 0
    ensures v >= len && left >= len ==> rc == len
  {
    if v < 0 then -1 else Min(Min(len, left), if v < 1 then 1 else v)
  }

  class System {
    const script: Script
    var calls: nat

    constructor (script: Script)
      ensures this.script == script && calls == 0
    {
      this.script, calls := script, 0;
    }

    method Write(n: nat) returns (wrc: int)
      requires n > 0
      modifies this
      ensures calls == old(calls) + 1 && wrc == WriteResult(script(old(calls)), n)
    {
      wrc := WriteResult(script(calls), n);
      calls := calls + 1;
    }

    method Read(len: nat, left: nat) returns (rc: int)
      modifies this
      ensures calls == old(calls) + 1 && rc == ReadResult(script(old(calls)), len, left)
    {
      rc := ReadResult(script(calls), len, left);
      calls := calls + 1;
    }

    method Seek() returns (ok: bool)
      modifies this
      ensures calls == old(calls) + 1 && ok == (script(old(calls)) >= 0)
    {
      ok := script(calls) >= 0;
      calls := calls + 1;
    }
  }

  class Volume {
    var disk: Disk

    /** New files get numbers of their own. */
    ghost predicate Valid()
      reads this
    {
      forall p | p in disk.names :: disk.names[p] < disk.next
    }

    constructor ()
      ensures Valid() && disk == Disk(map[], map[], 0)
    {
      disk := Disk(map[], map[], 0);
    }
  }

  /** The files of a volume by name. */
  function Files(d: Disk): map<Path, bytes> {
    map p | p in d.names :: FileAt(d, p)
  }

  lemma SetTwice(d: Disk, fid: nat, f: bytes, g: bytes)
    ensures DiskSet(DiskSet(d, fid, f), fid, g) == DiskSet(d, fid, g)
  {
    assert d.content[fid := f][fid := g] == d.content[fid := g];
  }

  /** A file made under a free name and then written appears under that name, and nothing else changes. */
  lemma NewThenSet(d: Disk, path: Path, f: bytes)
    requires path !in d.names && forall p | p in d.names :: d.names[p] < d.next
    ensures Files(DiskSet(DiskNew(d, path), d.next, f)) == Files(d)[path := f]
    ensures Files(DiskUnlink(DiskSet(DiskNew(d, path), d.next, f), path)) == Files(d)
  {
  }

  // ---------- Streaming checksums ----------

  /** Streaming checksums: the first `idx` table entries are those of the whole blocks of `data`,
      and the hash context has absorbed the rest. */
  ghost predicate Streamed(sha: Hash, table: seq<Digest>, idx: nat, ctx: bytes, data: bytes) {
    && idx <= |table| && idx * BLK <= |data| && ctx == data[idx * BLK..]
    && forall i | 0 <= i < idx :: table[i] == sha(data[i * BLK..(i + 1) * BLK])
  }

  lemma StreamMore(sha: Hash, table: seq<Digest>, idx: nat, ctx: bytes, data: bytes, chunk: bytes)
    requires Streamed(sha, table, idx, ctx, data)
    ensures Streamed(sha, table, idx, ctx + chunk, data + chunk)
  {
    assert data[idx * BLK..] + chunk == (data + chunk)[idx * BLK..];
    forall i | 0 <= i < idx
      ensures table[i] == sha((data + chunk)[i * BLK..(i + 1) * BLK])
    {
      assert (data + chunk)[i * BLK..(i + 1) * BLK] == data[i * BLK..(i + 1) * BLK];
    }
  }

  lemma StreamFlush(sha: Hash, table: seq<Digest>, idx: nat, ctx: bytes, data: bytes)
    requires Streamed(sha, table, idx, ctx, data) && idx < |table| && |ctx| == BLK
    ensures Streamed(sha, table[idx := sha(ctx)], idx + 1, [], data)
  {
    assert data[idx * BLK..] == data[idx * BLK..(idx + 1) * BLK];
  }

  /** When the data ends, closing the last block completes the table of the simple definition. */
  lemma StreamDone(sha: Hash, table: seq<Digest>, idx: nat, ctx: bytes, data: bytes)
    requires Streamed(sha, table, idx, ctx, data) && |ctx| < BLK && |table| == BlkCount(|data|)
    ensures ctx == [] ==> idx == |table| && table == Table(sha, data)
    ensures ctx != [] ==> idx + 1 == |table| && table[idx := sha(ctx)] == Table(sha, data)
  {
    BlkCountIs(|data|, idx + if ctx == [] then 0 else 1);
    var full := Table(sha, data);
    forall i | 0 <= i < idx
      ensures table[i] == full[i]
    {
      assert Block(data, i) == data[i * BLK..(i + 1) * BLK];
    }
    if ctx != [] {
      assert Block(data, idx) == ctx;
    }
  }

  /** A write of `chunk` as the class does it is the write of the store. */
  lemma WriteTie(s: Store, w: nat, d: Disk, me: Writer, fid: nat, chunk: bytes)
    requires me.end.Going? && Room(me, chunk)
    requires fid in d.content && d.content[fid] == Draft(DraftOfs(me), me.data)
    ensures FileWrite(Store(d, s.writers[w := me], s.fids[w := fid]), w, chunk).0 ==
      Store(DiskSet(d, fid, Draft(DraftOfs(me), me.data + chunk)),
            s.writers[w := me.(data := me.data + chunk)], s.fids[w := fid])
  {
    var ws, me' := s.writers[w := me], me.(data := me.data + chunk);
    assert ws[w := me'] == s.writers[w := me'];
    if chunk == [] {
      assert me.data + [] == me.data;
      SameContent(d, fid);
    } else {
      DraftExtended(DraftOfs(me), me.data, chunk);
    }
    hide Draft, WriteAt, DraftOfs;
  }

  /** The volume after a commit that landed n bytes of the front. */
  function CommitDisk(d: Disk, fid: nat, front: bytes, data: bytes, n: nat): Disk
    requires n <= |front|
  {
    if n == 0 then d else DiskSet(d, fid, Headed(front, data, n))
  }

  /** A commit as the class does it is the commit of the store. */
  lemma CommitTie(sha: Hash, s: Store, w: nat, d: Disk, me: Writer, fid: nat, user: bytes, io: CommitIo)
    requires me.end.Going? && UserValid(user)
    requires fid in d.content && d.content[fid] == Draft(DraftOfs(me), me.data)
    ensures var front := Front(sha, user, me.path.1, me.data, sha(me.data));
      var n := Landed(me, io, |front|);
      var d' := CommitDisk(d, fid, front, me.data, n);
      FileCommit(sha, Store(d, s.writers[w := me], s.fids[w := fid]), w, user, io).0 ==
        if |me.data| == me.size && io.AllWritten? then Store(d', s.writers - {w}, s.fids - {w})
        else Store(d', s.writers[w := me.(end := Failed(user, n))], s.fids[w := fid])
  {
    var front := Front(sha, user, me.path.1, me.data, sha(me.data));
    var n := Landed(me, io, |front|);
    DraftHeaded(front, me.data, n);
    hide Front, Draft, WriteAt, Headed;
    var me' := me.(end := Failed(user, n));
    assert s.writers[w := me][w := me'] == s.writers[w := me'];
    assert s.writers[w := me] - {w} == s.writers - {w} && s.fids[w := fid] - {w} == s.fids - {w};
  }

  /** struct fs_obj of an object being written. */
  class FsObj {
    const sha: Hash
    const vol: Volume
    const sys: System
    const path: Path
    const size: nat
    const nBlk: nat
    const valueOfs: nat
    const csumTbl: array<Digest>
    const fid: nat

    var outFn: bool
    var outPos: nat
    var written: nat
    var checked: nat
    var ctx: bytes
    var csumIdx: nat
    ghost var data: bytes
    ghost var end: Ending

    /** The object as a value. */
    ghost function Me(): Writer
      reads this
    {
      Writer(path, size, data, end)
    }

    /** A store in which this object is w, with any others beside it. */
    ghost function In(s: Store, w: nat): Store
      reads this, vol
    {
      Store(vol.disk, s.writers[w := Me()], s.fids[w := fid])
    }

    /** The counts agree: whole blocks are in the table, the rest is in the hash context.  Past the table's
        end one more block can be taken, which is never closed. */
    ghost predicate Counts()
      reads this, csumTbl
    {
      && nBlk == BlkCount(size) == csumTbl.Length && valueOfs == ValueOfs(|path.1|, nBlk)
      && |data| == written == csumIdx * BLK + checked && checked <= BLK && (checked == BLK ==> csumIdx == nBlk)
      && Streamed(sha, csumTbl[..], csumIdx, ctx, data) && outPos == valueOfs + written
    }

    /** The file, under whatever name it now has or none, is the draft of what was written. */
    ghost predicate Drafted()
      reads this, vol
    {
      fid in vol.disk.content && vol.disk.content[fid] == Draft(valueOfs, data)
    }

    ghost predicate Valid()
      reads this, vol, csumTbl
    {
      Counts() && Drafted() && end.Going? && outFn
    }

    /** fs_obj_new, from the exclusive create of the file on. */
    constructor (sha: Hash, vol: Volume, sys: System, path: Path, size: nat)
      requires path !in vol.disk.names
      modifies vol
      ensures Valid() && data == [] && fresh(csumTbl) && fid == old(vol.disk).next
      ensures this.sha == sha && this.vol == vol && this.sys == sys && this.path == path && this.size == size
      ensures vol.disk == DiskNew(old(vol.disk), path)
      ensures forall s: Store, w: nat | s.disk == old(vol.disk) && w !in s.writers && KeyValid(path.1) && path.0 != 0 ::
        FileNew(s, w, path, size) == (In(s, w), Status(Success))
    {
      this.sha, this.vol, this.sys, this.path, this.size := sha, vol, sys, path, size;
      nBlk := BlkCount(size);
      csumTbl := new Digest[BlkCount(size)](_ => Zeros(20));
      valueOfs := ValueOfs(|path.1|, BlkCount(size));
      outFn, outPos := true, ValueOfs(|path.1|, BlkCount(size));
      written, checked, ctx, csumIdx, data, end := 0, 0, [], 0, [], Going;
      fid := vol.disk.next;
      new;
      vol.disk := DiskNew(vol.disk, path);
    }

    /** obj_flush_csum: closes the current block, unless the table is already full. */
    method FlushCsum()
      requires csumTbl.Length == nBlk
      modifies `checked, `ctx, `csumIdx, csumTbl
      ensures old(csumIdx) < nBlk ==>
        && csumTbl[..] == old(csumTbl[..])[old(csumIdx) := sha(old(ctx))]
        && csumIdx == old(csumIdx) + 1 && checked == 0 && ctx == []
      ensures old(csumIdx) >= nBlk ==>
        csumTbl[..] == old(csumTbl[..]) && csumIdx == old(csumIdx) && checked == old(checked) && ctx == old(ctx)
    {
      if csumIdx >= nBlk {
        return;
      }
      csumTbl[csumIdx] := sha(ctx);
      csumIdx := csumIdx + 1;
      checked, ctx := 0, [];
    }

    /** One write(2) that took `chunk`, and its bookkeeping. */
    method Absorb(chunk: bytes)
      requires Valid() && 0 < |chunk| <= BLK - checked
      modifies this, csumTbl, vol
      ensures Valid() && data == old(data) + chunk
      ensures vol.disk == DiskSet(old(vol.disk), fid, Draft(valueOfs, data))
    {
      DraftExtended(valueOfs, data, chunk);
      hide Streamed, Draft, WriteAt;
      vol.disk := DiskSet(vol.disk, fid, WriteAt(Content(vol.disk, fid), outPos, chunk));
      Account(chunk);
    }

    method Account(chunk: bytes)
      requires Counts() && 0 < |chunk| <= BLK - checked
      modifies `outPos, `written, `checked, `ctx, `csumIdx, `data, csumTbl
      ensures Counts() && data == old(data) + chunk
    {
      StreamMore(sha, csumTbl[..], csumIdx, ctx, data, chunk);
      assert |ctx| == checked;
      hide Streamed;
      ctx := ctx + chunk;
      outPos, written, checked := outPos + |chunk|, written + |chunk|, checked + |chunk|;
      data := data + chunk;
      if checked == BLK {
        if csumIdx < nBlk {
          StreamFlush(sha, csumTbl[..], csumIdx, ctx, data);
        }
        FlushCsum();
      }
    }

    /** fs_obj_write: any split into calls and any short writes append exactly the bytes taken, which are all
        of them exactly when no call fails.  With more than one block beyond the table the loop would not
        end. */
    method Write(ptr: bytes) returns (rc: int, ghost took: nat)
      requires Valid() && written + |ptr| <= (nBlk + 1) * BLK
      modifies this, csumTbl, vol, sys
      ensures Valid() && took <= |ptr| && data == old(data) + ptr[..took]
      ensures rc >= 0 ==> rc == took == |ptr|
      ensures old(sys.calls) <= sys.calls && (rc >= 0 <==> AllOk(sys.script, old(sys.calls), sys.calls))
      ensures vol.disk == DiskSet(old(vol.disk), fid, Draft(valueOfs, data))
      ensures forall s: Store, w: nat :: In(s, w) == FileWrite(old(In(s, w)), w, ptr[..took]).0
    {
      ghost var disk, me := vol.disk, Me();
      SameContent(vol.disk, fid);
      rc, took := WriteLoop(ptr);
      forall s: Store, w: nat
        ensures In(s, w) == FileWrite(old(In(s, w)), w, ptr[..took]).0
      {
        WriteTie(s, w, disk, me, fid, ptr[..took]);
      }
    }

    /** One turn of its loop. */
    method WriteSome(rest: bytes) returns (wrc: int)
      requires Valid() && rest != [] && written + |rest| <= (nBlk + 1) * BLK
      modifies this, csumTbl, vol, sys
      ensures Valid() && sys.calls == old(sys.calls) + 1 && (wrc < 0 <==> sys.script(old(sys.calls)) < 0)
      ensures wrc < 0 ==> data == old(data) && vol.disk == old(vol.disk)
      ensures written == old(written) + if wrc < 0 then 0 else wrc
      ensures wrc >= 0 ==> 1 <= wrc <= |rest| && data == old(data) + rest[..wrc]
      ensures wrc >= 0 ==> vol.disk == DiskSet(old(vol.disk), fid, Draft(valueOfs, data))
    {
      hide Streamed, Draft, DiskSet;
      var unchecked := BLK - checked;
      assert unchecked > 0;
      wrc := sys.Write(Min(unchecked, |rest|));
      if wrc >= 0 {
        Absorb(rest[..wrc]);
      }
    }

    /** The first p bytes of `ptr` were written, and no call failed. */
    ghost predicate Reached(d: Disk, before: bytes, had: nat, start: nat, ptr: bytes, p: nat)
      reads this, vol, sys
    {
      && p <= |ptr| && data == before + ptr[..p] && written == had + p
      && vol.disk == DiskSet(d, fid, Draft(valueOfs, data))
      && start <= sys.calls && AllOk(sys.script, start, sys.calls)
    }

    method WriteTurn(ptr: bytes, p: nat, ghost d: Disk, ghost before: bytes, ghost had: nat, ghost start: nat)
      returns (wrc: int)
      requires Valid() && p < |ptr| && Reached(d, before, had, start, ptr, p) && had + |ptr| <= (nBlk + 1) * BLK
      modifies this, csumTbl, vol, sys
      ensures Valid() && start <= sys.calls && wrc <= |ptr| - p && wrc != 0
      ensures wrc < 0 ==> data == old(data) && vol.disk == old(vol.disk) && !AllOk(sys.script, start, sys.calls)
      ensures wrc > 0 ==> Reached(d, before, had, start, ptr, p + wrc)
    {
      hide Counts, Drafted, Draft, DiskSet, AllOk;
      ghost var was := data;
      AllOkNext(sys.script, start, sys.calls);
      wrc := WriteSome(ptr[p..]);
      if wrc > 0 {
        SetTwice(d, fid, Draft(valueOfs, was), Draft(valueOfs, data));
        TakenMore(before, ptr, p, wrc);
      }
    }

    method WriteLoop(ptr: bytes) returns (rc: int, ghost took: nat)
      requires Valid() && written + |ptr| <= (nBlk + 1) * BLK
      modifies this, csumTbl, vol, sys
      ensures Valid() && took <= |ptr| && data == old(data) + ptr[..took]
      ensures rc >= 0 ==> rc == took == |ptr|
      ensures old(sys.calls) <= sys.calls && (rc >= 0 <==> AllOk(sys.script, old(sys.calls), sys.calls))
      ensures vol.disk == DiskSet(old(vol.disk), fid, Draft(valueOfs, data))
    {
      SameContent(vol.disk, fid);
      ghost var d, before, had, start := vol.disk, data, written, sys.calls;
      assert Reached(d, before, had, start, ptr, 0);
      hide Valid, Reached;
      var p := 0;
      while p < |ptr|
        invariant 0 <= p <= |ptr| && Valid() && Reached(d, before, had, start, ptr, p)
      {
        var wrc := WriteTurn(ptr, p, d, before, had, start);
        if wrc < 0 {
          return -1, p;
        }
        p := p + wrc;
      }
      return p, p;
    }

    /** Closes the final, possibly short, block; the table is then complete. */
    method CloseLast()
      requires Counts() && size == written
      modifies `checked, `ctx, `csumIdx, csumTbl
      ensures csumIdx == nBlk && csumTbl[..] == Table(sha, data)
    {
      StreamDone(sha, csumTbl[..], csumIdx, ctx, data);
      if checked > 0 {
        FlushCsum();
      }
    }

    /** fs_obj_write_commit: succeeds exactly when all of the value was written and the system takes the
        front.  The file then holds front and value; after a failure, as much of the front as landed, and the
        object stays in use. */
    method Commit(user: bytes, md: Digest, io: CommitIo) returns (ok: bool)
      requires Valid() && UserValid(user)
      modifies this, csumTbl, vol
      ensures ok <==> size == |old(data)| && io.AllWritten?
      ensures data == old(data) && outFn == !ok
      ensures end == if ok then Going else Failed(user, Landed(old(Me()), io, FrontLen()))
      ensures vol.disk ==
        CommitDisk(old(vol.disk), fid, Front(sha, user, path.1, data, md), data, Landed(old(Me()), io, FrontLen()))
      ensures md == sha(data) ==> forall s: Store, w: nat ::
        FileCommit(sha, old(In(s, w)), w, user, io).0 ==
          if ok then Store(vol.disk, s.writers - {w}, s.fids - {w}) else In(s, w)
    {
      ghost var disk, me := vol.disk, Me();
      ok := CommitFront(user, md, io);
      if md == sha(data) {
        forall s: Store, w: nat
          ensures (if ok then Store(vol.disk, s.writers - {w}, s.fids - {w}) else In(s, w))
               == FileCommit(sha, Store(disk, s.writers[w := me], s.fids[w := fid]), w, user, io).0
        {
          CommitTie(sha, s, w, disk, me, fid, user, io);
        }
      }
    }

    ghost function FrontLen(): nat
      reads this
    {
      ValueOfs(|path.1|, BlkCount(|data|))
    }

    method CommitFront(user: bytes, md: Digest, io: CommitIo) returns (ok: bool)
      requires Valid() && UserValid(user)
      modifies this, csumTbl, vol
      ensures ok <==> size == |old(data)| && io.AllWritten?
      ensures data == old(data) && outFn == !ok
      ensures end == if ok then Going else Failed(user, Landed(old(Me()), io, FrontLen()))
      ensures vol.disk ==
        CommitDisk(old(vol.disk), fid, Front(sha, user, path.1, data, md), data, Landed(old(Me()), io, FrontLen()))
    {
      ghost var n0 := Landed(Me(), io, FrontLen());
      ok := false;
      if size != written {
        end := Failed(user, n0);
        return;
      }
      CloseLast();
      if csumIdx != nBlk {
        return;
      }
      csumIdx := 0;
      if io.SeekFails? {
        end := Failed(user, n0);
        return;
      }
      var front := Header(user, |path.1|, written, nBlk, md) + path.1 + Flat(csumTbl[..]);
      assert front == Front(sha, user, path.1, data, md);
      var n := if io.ShortWrite? then Min(io.n, |front|) else |front|;
      DraftHeaded(front, data, n);
      hide Front, Draft, WriteAt, Headed, Header, Streamed;
      if n > 0 {
        vol.disk := DiskSet(vol.disk, fid, WriteAt(Content(vol.disk, fid), 0, front[..n]));
      }
      if io.ShortWrite? || io.SyncFails? {
        end := Failed(user, n0);
        return;
      }
      outFn, written := false, 0;
      ok := true;
    }

    /** fs_obj_free: an object not committed unlinks its name, whoever has it by now. */
    method Free()
      modifies vol
      ensures vol.disk == if outFn then DiskUnlink(old(vol.disk), path) else old(vol.disk)
      ensures outFn ==> forall s: Store, w: nat ::
        Store(vol.disk, s.writers - {w}, s.fids - {w}) == FileFree(old(In(s, w)), w).0
    {
      if outFn {
        vol.disk := DiskUnlink(vol.disk, path);
        assert forall s: Store, w: nat ::
          s.writers[w := Me()] - {w} == s.writers - {w} && s.fids[w := fid] - {w} == s.fids - {w};
      }
    }
  }

  /** The part of struct client that a PUT uses. */
  class PutClient {
    const user: bytes
    const bo: FsObj
    var outLen: nat
    var outHash: bytes

    /** What remains to come and what was written make up the announced size, so the table can
        never overflow. */
    ghost predicate Valid()
      reads this, bo, bo.vol, bo.csumTbl
    {
      && UserValid(user)
      && bo.Valid() && outLen + bo.written == bo.size && outHash == bo.data
    }

    constructor (user: bytes, bo: FsObj)
      requires UserValid(user) && bo.Valid() && bo.data == []
      ensures Valid() && this.user == user && this.bo == bo && outLen == bo.size
    {
      this.user, this.bo := user, bo;
      outLen, outHash := bo.size, [];
    }

    /** cli_evt_data_in, given what the connection delivered: all of it is written, or a call failed and the
        object was freed.  Since a write that does not fail takes all, the loop around it turns once. */
    method DataIn(p: bytes) returns (ok: bool, ghost took: nat)
      requires Valid() && 0 < |p| <= outLen
      modifies this, bo, bo.vol, bo.csumTbl, bo.sys
      ensures took <= |p| && bo.data == old(bo.data) + p[..took]
      ensures ok ==> Valid() && took == |p| && outLen == old(outLen) - |p|
      ensures old(bo.sys.calls) <= bo.sys.calls && (ok <==> AllOk(bo.sys.script, old(bo.sys.calls), bo.sys.calls))
      ensures var d := DiskSet(old(bo.vol.disk), bo.fid, Draft(bo.valueOfs, bo.data));
        bo.vol.disk == if ok then d else DiskUnlink(d, bo.path)
      ensures ok ==> forall s: Store, w: nat :: bo.In(s, w) == FileWrite(old(bo.In(s, w)), w, p).0
      ensures !ok ==> forall s: Store, w: nat ::
        Store(bo.vol.disk, s.writers - {w}, s.fids - {w}) == FileFree(FileWrite(old(bo.In(s, w)), w, p[..took]).0, w).0
    {
      hide Draft, Streamed, FileWrite, FileFree, AllOk;
      var rc;
      rc, took := bo.Write(p);
      if rc < 0 {
        bo.Free();
        return false, took;
      }
      assert p[..took] == p;
      outHash := outHash + p;
      outLen := outLen - rc;
      return true, took;
    }

    /** object_put_end: commit, and free the object either way. */
    method PutEnd(io: CommitIo) returns (ok: bool)
      requires Valid() && outLen == 0
      modifies this, bo, bo.vol, bo.csumTbl
      ensures ok <==> io.AllWritten?
      ensures bo.data == old(bo.data)
      ensures ok ==> bo.vol.disk == DiskSet(old(bo.vol.disk), bo.fid, Image(bo.sha, user, bo.path.1, bo.data))
      ensures !ok ==> exists f :: bo.vol.disk == DiskUnlink(DiskSet(old(bo.vol.disk), bo.fid, f), bo.path)
      ensures ok ==> forall s: Store, w: nat ::
        Store(bo.vol.disk, s.writers - {w}, s.fids - {w}) == FileCommit(bo.sha, old(bo.In(s, w)), w, user, io).0
      ensures !ok ==> forall s: Store, w: nat ::
        Store(bo.vol.disk, s.writers - {w}, s.fids - {w}) ==
          FileFree(FileCommit(bo.sha, old(bo.In(s, w)), w, user, io).0, w).0
    {
      hide Draft, Streamed, FileCommit, FileFree, Front, Headed;
      ghost var disk := bo.vol.disk;
      SameContent(disk, bo.fid);
      ok := bo.Commit(user, bo.sha(outHash), io);
      DraftHeaded(Front(bo.sha, user, bo.path.1, bo.data, bo.sha(bo.data)), bo.data, bo.FrontLen());
      bo.Free();
    }
  }

  /** The events of a PUT: all of the announced bytes are written exactly when the connection delivers them
      and no call fails; otherwise the file has lost its name. */
  method ReceiveAll(cli: PutClient, net: bytes) returns (ok: bool)
    requires cli.Valid() && cli.bo.data == []
    modifies cli, cli.bo, cli.bo.vol, cli.bo.csumTbl, cli.bo.sys
    ensures ok ==> cli.Valid() && cli.outLen == 0 && cli.bo.size <= |net| && cli.bo.data == net[..cli.bo.size]
    ensures old(cli.bo.sys.calls) <= cli.bo.sys.calls
    ensures ok <==> cli.bo.size <= |net| && AllOk(cli.bo.sys.script, old(cli.bo.sys.calls), cli.bo.sys.calls)
    ensures var d := DiskSet(old(cli.bo.vol.disk), cli.bo.fid, Draft(cli.bo.valueOfs, cli.bo.data));
      cli.bo.vol.disk == if ok then d else DiskUnlink(d, cli.bo.path)
  {
    ghost var start, disk := cli.bo.sys.calls, cli.bo.vol.disk;
    var size, done := cli.bo.size, 0;
    assert cli.outLen == size;
    SameContent(disk, cli.bo.fid);
    assert AllOk(cli.bo.sys.script, start, start);
    hide Streamed, Draft, DiskSet, AllOk, FileWrite, FileFree;
    while cli.outLen > 0
      invariant cli.Valid() && 0 <= done <= |net| && done + cli.outLen == size && cli.bo.data == net[..done]
      invariant cli.bo.vol.disk == DiskSet(disk, cli.bo.fid, Draft(cli.bo.valueOfs, cli.bo.data))
      invariant start <= cli.bo.sys.calls && AllOk(cli.bo.sys.script, start, cli.bo.sys.calls)
      decreases cli.outLen
    {
      AllOkNext(cli.bo.sys.script, start, cli.bo.sys.calls);
      var avail := cli.bo.sys.Read(Min(cli.outLen, BLK), |net| - done);
      if avail <= 0 {
        cli.bo.Free();
        return false;
      }
      ghost var was, before := cli.bo.data, cli.bo.sys.calls;
      ghost var took;
      ok, took := cli.DataIn(net[done..done + avail]);
      SetTwice(disk, cli.bo.fid, Draft(cli.bo.valueOfs, was), Draft(cli.bo.valueOfs, cli.bo.data));
      AllOkJoin(cli.bo.sys.script, start, before, cli.bo.sys.calls);
      if !ok {
        return;
      }
      assert net[..done] + net[done..done + avail][..took] == net[..done + avail];
      done := done + avail;
    }
    return true;
  }

  /** object_put and the events that follow it: a PUT of `size` bytes from the connection.  Whatever
      the pieces, it stores the whole object exactly when the path is free, the connection delivers and no
      call fails, and otherwise leaves every file as it was. */
  method ObjectPut(sha: Hash, vol: Volume, sys: System, path: Path, user: bytes, size: nat, net: bytes, io: CommitIo)
    returns (code: Code)
    requires UserValid(user) && vol.Valid()
    modifies vol, sys
    ensures code == Success <==>
      && KeyValid(path.1) && path.0 != 0 && path !in Files(old(vol.disk)) && size <= |net|
      && AllOk(sys.script, old(sys.calls), sys.calls) && io.AllWritten?
    ensures Files(vol.disk) ==
      if code == Success then Files(old(vol.disk))[path := Image(sha, user, path.1, net[..size])]
      else Files(old(vol.disk))
    ensures code == InvalidKey <==> !KeyValid(path.1)
    ensures code == KeyExists <==> KeyValid(path.1) && path.0 != 0 && path in Files(old(vol.disk))
  {
    if !KeyValid(path.1) {
      return InvalidKey;
    }
    if path.0 == 0 {
      return InternalError;
    }
    if path in vol.disk.names {
      return KeyExists;
    }
    ghost var was := vol.disk;
    var bo := new FsObj(sha, vol, sys, path, size);
    hide Streamed, Front, Draft, FileNew, FileCommit, FileFree, Files, DiskSet, DiskNew, DiskUnlink, AllOk;
    var cli := new PutClient(user, bo);
    var ok := ReceiveAll(cli, net);
    ghost var mid := Draft(bo.valueOfs, bo.data);
    NewThenSet(was, path, mid);
    if !ok {
      return InternalError;
    }
    ghost var before := vol.disk;
    ok := cli.PutEnd(io);
    ghost var f := Image(sha, user, path.1, net[..size]);
    if !ok {
      ghost var g :| vol.disk == DiskUnlink(DiskSet(before, bo.fid, g), path);
      f := g;
    }
    SetTwice(DiskNew(was, path), was.next, mid, f);
    NewThenSet(was, path, f);
    return if ok then Success else InternalError;
  }
}
