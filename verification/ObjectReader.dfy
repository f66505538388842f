/** Reading a chunkd object back: checksum-verified reads, partial gets and the server-side copy
    (chunkd/be-fs.c, chunkd/object.c). */
module ObjectReader {
  import opened Bytes
  import opened ObjectFile
  import opened ObjectStore
  import opened ObjectWriter

  const MAX_GETPART: nat := 4 * BLK
  const EIO: int := -5

  /** can_csum_range for a read of `len` bytes at `inPos` of a value ending at `tailPos + tailLen`. */
  predicate CanCsumRange(inPos: nat, len: nat, tailPos: nat, tailLen: nat) {
    if len == 0 || inPos % BLK != 0 || inPos + len > tailPos + tailLen then false
    else (inPos + len) % BLK == 0 || inPos + len == tailPos + tailLen
  }

  /** Length the verification loop gives to block `idx` of a value of `size` bytes. */
  function BlkLen(size: nat, idx: nat): nat {
    if idx == BlkCount(size) - 1 && size % BLK > 0 then size % BLK else BLK
  }

  /** On an accepted read the loop's blocks are exactly the blocks of what was read: each index is in
      the table, each length is that of the block, and together they are the whole read. */
  lemma LoopCovers(size: nat, inPos: nat, rc: nat, k: nat)
    requires CanCsumRange(inPos, rc, size - size % BLK, size % BLK) && k < BlkCount(rc)
    ensures BlkCount(inPos) * BLK == inPos && BlkCount(inPos) + k < BlkCount(size)
    ensures BlkLen(size, BlkCount(inPos) + k) == Min(BLK, rc - k * BLK)
    ensures k < BlkCount(rc) - 1 ==> BlkLen(size, BlkCount(inPos) + k) == BLK
  {
  }

  lemma BlockEnds(size: nat, inPos: nat, rc: nat, k: nat)
    requires CanCsumRange(inPos, rc, size - size % BLK, size % BLK) && k < BlkCount(rc)
    ensures BlkCount(inPos) * BLK == inPos && inPos + rc <= size
    ensures inPos + Min((k + 1) * BLK, rc) == Min((BlkCount(inPos) + k + 1) * BLK, size)
  {
    var c := BlkCount(inPos);
    assert (c + k + 1) * BLK == inPos + (k + 1) * BLK;
    if (k + 1) * BLK > rc {
      assert rc % BLK != 0;
      assert (inPos + rc) % BLK != 0;
    }
  }

  /** A block of an accepted read is the corresponding block of the value. */
  lemma BlockOfRead(value: bytes, inPos: nat, rc: nat, k: nat)
    requires CanCsumRange(inPos, rc, |value| - |value| % BLK, |value| % BLK) && k < BlkCount(rc)
    ensures inPos + rc <= |value| && BlkCount(inPos) + k < BlkCount(|value|)
    ensures Block(value[inPos..inPos + rc], k) == Block(value, BlkCount(inPos) + k)
  {
    LoopCovers(|value|, inPos, rc, k);
    BlockEnds(|value|, inPos, rc, k);
    var ofs, end := k * BLK, Min((k + 1) * BLK, rc);
    assert ofs <= end && inPos + ofs == (BlkCount(inPos) + k) * BLK;
    SliceOfSlice(value, inPos, rc, ofs, end - ofs);
  }

  /** The k-th block of a read, as the verification loop cuts it out. */
  lemma BlockAt(buf: bytes, k: nat, tmp: nat, len: nat)
    requires k < BlkCount(|buf|) && tmp == Min(k * BLK, |buf|) && len == Min(BLK, |buf| - k * BLK)
    ensures tmp + len <= |buf| && buf[tmp..tmp + len] == Block(buf, k) && tmp + len == Min((k + 1) * BLK, |buf|)
  {
  }

  /** A stored table is that of the value. */
  ghost predicate SumsMatch(sha: Hash, value: bytes, csums: bytes)
    requires |csums| == BlkCount(|value|) * CSUM
  {
    forall i | 0 <= i < BlkCount(|value|) :: sha(Block(value, i)) == Entry(csums, i)
  }

  /** What open has checked. */
  ghost predicate SoundIn(file: bytes, m: Meta) {
    m.nBlk == BlkCount(m.size) && |m.csums| == m.nBlk * CSUM && m.valueOfs + m.size <= |file|
  }

  /** Every block of a read at `pos` has the checksum stored for it. */
  ghost predicate VerifiedBy(sha: Hash, m: Meta, buf: bytes, pos: nat)
    requires |m.csums| == m.nBlk * CSUM
  {
    forall k | 0 <= k < BlkCount(|buf|) :: GoodBlock(sha, m, buf, pos, k)
  }

  ghost predicate GoodBlock(sha: Hash, m: Meta, buf: bytes, pos: nat, k: nat)
    requires |m.csums| == m.nBlk * CSUM && k < BlkCount(|buf|)
  {
    BlkCount(pos) + k < m.nBlk && sha(Block(buf, k)) == Entry(m.csums, BlkCount(pos) + k)
  }

  lemma BlockIs(sha: Hash, m: Meta, buf: bytes, pos: nat, k: nat)
    requires |m.csums| == m.nBlk * CSUM && k < BlkCount(|buf|) && BlkCount(pos) + k < m.nBlk
    ensures GoodBlock(sha, m, buf, pos, k) <==> sha(Block(buf, k)) == Entry(m.csums, BlkCount(pos) + k)
  {
  }

  /** The n bytes at `pos` cannot be verified, or every block of them has its checksum. */
  ghost predicate PassesIn(sha: Hash, file: bytes, m: Meta, pos: nat, n: nat)
    requires |m.csums| == m.nBlk * CSUM
  {
    CanCsumRange(pos, n, m.size - m.size % BLK, m.size % BLK) && m.valueOfs + pos + n <= |file| ==>
      VerifiedBy(sha, m, file[m.valueOfs + pos..m.valueOfs + pos + n], pos)
  }

  /** struct fs_obj of an object opened for reading.  The file is the one open found: a committed
      file is never changed, only unlinked. */
  class Reader {
    const sha: Hash
    const sys: System
    const file: bytes
    const meta: Meta
    var filePos: nat
    var inPos: nat

    ghost predicate Sound() {
      SoundIn(file, meta)
    }

    ghost predicate Valid()
      reads this
    {
      Sound() && filePos == meta.valueOfs + inPos
    }

    ghost function Value(): bytes
      requires Sound()
    {
      file[meta.valueOfs..meta.valueOfs + meta.size]
    }

    /** Every stored checksum is that of its block. */
    ghost predicate Intact()
      requires Sound()
    {
      SumsMatch(sha, Value(), meta.csums)
    }

    /** fs_obj_open, once the header has been accepted. */
    constructor (sha: Hash, sys: System, file: bytes, user: bytes, key: bytes)
      requires OpenFile(file, user, key).Accepted?
      ensures Valid() && inPos == 0 && this.sha == sha && this.sys == sys && this.file == file
      ensures meta == OpenFile(file, user, key).meta
    {
      this.sha, this.sys, this.file := sha, sys, file;
      var m := OpenFile(file, user, key).meta;
      meta, filePos, inPos := m, m.valueOfs, 0;
    }

    method Seek(relOfs: nat) returns (rc: int)
      requires Sound()
      modifies this, sys
      ensures sys.calls == old(sys.calls) + 1 && (rc == 0 <==> sys.script(old(sys.calls)) >= 0)
      ensures rc == 0 ==> Valid() && inPos == relOfs
      ensures rc != 0 ==> filePos == old(filePos) && inPos == old(inPos)
    {
      var ok := sys.Seek();
      if !ok {
        return -1;
      }
      filePos := meta.valueOfs + relOfs;
      inPos := filePos - meta.valueOfs;
      return 0;
    }

    /** Bytes the value file holds at `pos`, `n` of them. */
    ghost predicate IsSlice(buf: bytes, pos: nat, n: nat) {
      meta.valueOfs + pos + n <= |file| && buf == file[meta.valueOfs + pos..meta.valueOfs + pos + n]
    }

    ghost predicate Verified(buf: bytes, pos: nat)
      requires Sound()
    {
      VerifiedBy(sha, meta, buf, pos)
    }

    /** The verification loop of fs_obj_read. */
    method Verify(buf: bytes, pos: nat) returns (ok: bool)
      requires Sound() && CanCsumRange(pos, |buf|, meta.size - meta.size % BLK, meta.size % BLK)
      ensures ok <==> Verified(buf, pos)
    {
      hide CanCsumRange, GoodBlock;
      var curBlk, tmp := BlkCount(pos), 0;
      for blk := curBlk to curBlk + BlkCount(|buf|)
        invariant tmp == Min((blk - curBlk) * BLK, |buf|)
        invariant forall k | 0 <= k < blk - curBlk :: GoodBlock(sha, meta, buf, pos, k)
      {
        ghost var k := blk - curBlk;
        LoopCovers(meta.size, pos, |buf|, k);
        var haveTail, lastBlk := meta.size % BLK > 0, meta.nBlk - 1;
        var blkLen := if blk == lastBlk && haveTail then meta.size % BLK else BLK;
        BlockAt(buf, k, tmp, blkLen);
        BlockIs(sha, meta, buf, pos, k);
        if sha(buf[tmp..tmp + blkLen]) != Entry(meta.csums, blk) {
          return false;
        }
        tmp := tmp + blkLen;
      }
      return true;
    }

    ghost predicate Passes(pos: nat, n: nat)
      requires Sound()
    {
      PassesIn(sha, file, meta, pos, n)
    }

    /** What is left of the file behind the position. */
    ghost function Left(): nat
      reads this
    {
      if filePos <= |file| then |file| - filePos else 0
    }

    /** fs_obj_read: returns the bytes at the position, as many as the system reads; a read that ends on block
        boundaries, or at the end, is verified block by block, and fails exactly if a stored checksum does not
        match. */
    method Read(len: nat) returns (rc: int, buf: bytes)
      requires Valid()
      modifies this, sys
      ensures sys.calls == old(sys.calls) + 1
      ensures var v := ReadResult(sys.script(old(sys.calls)), len, old(Left()));
        && (v <= 0 ==> rc == v && buf == [] && inPos == old(inPos) && Valid())
        && (v > 0 ==> (rc == v <==> Passes(old(inPos), v)) && (rc == EIO <==> !Passes(old(inPos), v)))
        && (rc > 0 ==> rc == v && |buf| == rc && Valid() && inPos == old(inPos) + rc && IsSlice(buf, old(inPos), rc))
      ensures Intact() ==> rc != EIO
    {
      hide CanCsumRange, VerifiedBy, SumsMatch;
      rc := sys.Read(len, if filePos <= |file| then |file| - filePos else 0);
      buf := [];
      if rc <= 0 {
        return;
      }
      buf := file[filePos..filePos + rc];
      filePos := filePos + rc;
      if CanCsumRange(inPos, rc, meta.size - meta.size % BLK, meta.size % BLK) {
        var ok := Verify(buf, inPos);
        if !ok {
          if Intact() {
            IntactPiece(sha, file, meta, inPos, rc);
          }
          return EIO, [];
        }
      }
      inPos := inPos + rc;
    }
  }

  // ---------- Round trip ----------

  /** The table of a committed file is that of its value. */
  lemma ImageIntact(sha: Hash, owner: bytes, key: bytes, data: bytes, i: nat)
    requires UserValid(owner) && KeyValid(key) && Fits(|data|) && i < BlkCount(|data|)
    ensures CSUM * (i + 1) <= |Flat(Table(sha, data))| && Entry(Flat(Table(sha, data)), i) == sha(Block(data, i))
  {
    FlatEntry(Table(sha, data), i);
  }

  /** What commit wrote, open accepts with the same size and hash, and every read of it verifies. */
  method OpenCommitted(sha: Hash, sys: System, owner: bytes, key: bytes, data: bytes) returns (r: Reader)
    requires UserValid(owner) && KeyValid(key) && Fits(|data|)
    ensures fresh(r) && r.Valid() && r.inPos == 0
    ensures r.file == Image(sha, owner, key, data) && r.sha == sha && r.sys == sys
    ensures r.meta.size == |data| && r.meta.hash == sha(data)
    ensures r.Value() == data && r.Intact() && r.meta.valueOfs + |data| == |r.file|
  {
    OpenImage(sha, owner, key, data, owner);
    r := new Reader(sha, sys, Image(sha, owner, key, data), owner, key);
    forall i | 0 <= i < r.meta.nBlk
      ensures sha(Block(data, i)) == Entry(r.meta.csums, i)
    {
      ImageIntact(sha, owner, key, data, i);
    }
    assert r.Value() == data;
  }

  datatype Op = SeekTo(pos: nat) | ReadUpTo(len: nat)

  datatype Answer = Moved | NotMoved | Got(pos: nat, buf: bytes) | NotRead

  /** What one operation at `pos` of an object holding `data` answers, and where it leaves the position. */
  function AnswerTo(data: bytes, op: Op, v: int, pos: nat): (Answer, nat) {
    match op
    case SeekTo(p) => if v < 0 then (NotMoved, pos) else (Moved, p)
    case ReadUpTo(len) =>
      var left := if pos <= |data| then |data| - pos else 0;
      var rc := ReadResult(v, len, left);
      if rc < 0 then (NotRead, pos)
      else if rc == 0 then (Got(pos, []), pos)
      else (Got(pos, data[pos..pos + rc]), pos + rc)
  }

  /** The answers to a sequence of operations, the first of them being system call k. */
  function Answers(data: bytes, ops: seq<Op>, script: Script, k: nat, pos: nat): seq<Answer>
    decreases |ops|
  {
    if ops == [] then []
    else
      var (answer, pos') := AnswerTo(data, ops[0], script(k), pos);
      [answer] + Answers(data, ops[1..], script, k + 1, pos')
  }

  /** A read answers with the exact bytes at its position, and with none only if it asked for none or the
      position is at the end; it fails only if the system call does. */
  lemma AnswerExact(data: bytes, op: Op, v: int, pos: nat)
    ensures var (answer, pos') := AnswerTo(data, op, v, pos);
      && (op.ReadUpTo? && v >= 0 ==> answer.Got? && answer.pos == pos && pos' == pos + |answer.buf|)
      && (answer.Got? && answer.buf != [] ==>
            pos + |answer.buf| <= |data| && answer.buf == data[pos..pos + |answer.buf|])
      && (answer.Got? && answer.buf == [] ==> op.len == 0 || pos >= |data|)
      && (answer.NotRead? || answer.NotMoved? <==> v < 0)
  {
  }

  /** Any sequence of seeks and reads of a committed object answers exactly as the bytes committed do, one
      answer for each operation, and never fails a checksum. */
  method Replay(sha: Hash, sys: System, owner: bytes, key: bytes, data: bytes, ops: seq<Op>) returns (outs: seq<Answer>)
    requires UserValid(owner) && KeyValid(key) && Fits(|data|)
    modifies sys
    ensures outs == Answers(data, ops, sys.script, old(sys.calls), 0)
  {
    var r := OpenCommitted(sha, sys, owner, key, data);
    outs := [];
    hide Reader.Intact, Reader.Sound, Reader.Value, Answers, AnswerTo;
    var i := 0;
    while i < |ops|
      invariant i <= |ops| && r.Valid() && sys.calls == old(sys.calls) + i
      invariant outs + Answers(data, ops[i..], sys.script, sys.calls, r.inPos)
        == Answers(data, ops, sys.script, old(sys.calls), 0)
    {
      AnswersNext(data, ops, i, sys.script, sys.calls, r.inPos, outs);
      var out := Perform(r, data, ops[i]);
      outs := outs + [out];
      i := i + 1;
    }
    assert ops[i..] == [];
    NoAnswers(data, sys.script, sys.calls, r.inPos, outs);
  }

  lemma NoAnswers(data: bytes, script: Script, k: nat, pos: nat, outs: seq<Answer>)
    ensures outs + Answers(data, [], script, k, pos) == outs
  {
  }

  lemma AnswersNext(data: bytes, ops: seq<Op>, i: nat, script: Script, k: nat, pos: nat, outs: seq<Answer>)
    requires i < |ops|
    ensures var (answer, pos') := AnswerTo(data, ops[i], script(k), pos);
      outs + Answers(data, ops[i..], script, k, pos) ==
        outs + [answer] + Answers(data, ops[i + 1..], script, k + 1, pos')
  {
    assert ops[i..][0] == ops[i] && ops[i..][1..] == ops[i + 1..];
    hide AnswerTo;
  }

  /** One operation on an open object. */
  method Perform(r: Reader, data: bytes, op: Op) returns (out: Answer)
    requires r.Valid() && r.Intact() && r.Value() == data
    requires r.meta.size == |data| && r.meta.valueOfs + |data| == |r.file|
    modifies r, r.sys
    ensures r.Valid() && r.sys.calls == old(r.sys.calls) + 1
    ensures (out, r.inPos) == AnswerTo(data, op, r.sys.script(old(r.sys.calls)), old(r.inPos))
  {
    var pos := r.inPos;
    match op {
      case SeekTo(p) =>
        var rc := r.Seek(p);
        out := if rc == 0 then Moved else NotMoved;
      case ReadUpTo(len) =>
        var rc, buf := r.Read(len);
        hide Reader.Intact, Reader.Verified, CanCsumRange;
        if rc > 0 {
          SliceOfSlice(r.file, r.meta.valueOfs, |data|, pos, rc);
        }
        out := if rc < 0 then NotRead else Got(pos, buf);
    }
  }

  // ---------- GET_PART ----------

  datatype Window = Window(length: nat, alignedOfs: nat, alignedLen: nat, last: bool)

  /** What a GET_PART of `reqLen` bytes at `offset` returns, and the aligned range it reads. */
  function PartWindow(size: nat, offset: nat, reqLen: nat): Window
    requires offset <= size
  {
    var alignedOfs := offset - offset % BLK;
    var remain := size - offset;
    var asked := if reqLen == 0 || reqLen > remain then remain else reqLen;
    var length := Min(asked, MAX_GETPART);
    var span := length + (offset - alignedOfs);
    var rounded := if span % BLK != 0 then span + (BLK - span % BLK) else span;
    Window(length, alignedOfs, Min(rounded, size - alignedOfs), length == remain)
  }

  /** The aligned range can always be verified, lies in the value and contains the part; the part is
      not empty, and is the last one exactly when it reaches the end. */
  lemma PartWindowOk(size: nat, offset: nat, reqLen: nat)
    requires offset < size
    ensures var w := PartWindow(size, offset, reqLen);
      && 0 < w.length <= MAX_GETPART && offset + w.length <= size
      && w.length == Min(Min(0x4_0000, size - offset), if reqLen > 0 then reqLen else size - offset)
      && w.alignedOfs <= offset && offset + w.length <= w.alignedOfs + w.alignedLen <= size
      && CanCsumRange(w.alignedOfs, w.alignedLen, size - size % BLK, size % BLK)
      && (w.last <==> offset + w.length == size)
  {
  }

  /** The range is the least one of whole blocks, but for the end of the value, that contains the part. */
  lemma WindowExact(size: nat, offset: nat, reqLen: nat)
    requires offset < size
    ensures var w := PartWindow(size, offset, reqLen);
      && w.alignedOfs == offset / BLK * BLK
      && w.alignedOfs + w.alignedLen == Min(BlkCount(offset + w.length) * BLK, size)
  {
    PartWindowOk(size, offset, reqLen);
    var w := PartWindow(size, offset, reqLen);
    var k := BlkCount(offset + w.length);
    assert k * BLK % BLK == 0 && offset + w.length <= k * BLK < offset + w.length + BLK;
    var span := w.length + offset % BLK;
    var rounded := if span % BLK != 0 then span + (BLK - span % BLK) else span;
    assert w.alignedOfs + rounded == k * BLK;
  }

  lemma SliceOfSlice(b: bytes, lo: nat, n: nat, skip: nat, m: nat)
    requires lo + n <= |b| && skip + m <= n
    ensures b[lo..lo + n][skip..skip + m] == b[lo + skip..lo + skip + m]
  {
    var x, y := b[lo..lo + n][skip..skip + m], b[lo + skip..lo + skip + m];
    assert forall i | 0 <= i < m :: x[i] == y[i];
  }

  /** The system reads all of n bytes at once. */
  predicate InFull(v: int, n: nat) {
    v >= 0 && (v >= n || n == 1)
  }

  /** The part is the window's, and is flagged last exactly when it reaches the end. */
  predicate PartOf(value: bytes, w: Window, offset: nat, part: bytes, last: bool) {
    offset + w.length <= |value| && part == value[offset..offset + w.length] && (last <==> offset + w.length == |value|)
  }

  /** The part asked for: as many bytes at the offset as asked, or all if 0 are asked, but no more than there are
      nor than 256 KiB; and it is the last exactly when it reaches the end. */
  predicate IsPart(value: bytes, offset: nat, reqLen: nat, part: bytes, last: bool)
    requires offset < |value|
  {
    var n := Min(Min(0x4_0000, |value| - offset), if reqLen > 0 then reqLen else |value| - offset);
    part == value[offset..offset + n] && (last <==> offset + n == |value|)
  }

  /** Every block of the window has its checksum. */
  ghost predicate WindowPasses(sha: Hash, m: Meta, value: bytes, w: Window)
    requires |m.csums| == m.nBlk * CSUM
  {
    && w.alignedOfs + w.alignedLen <= |value|
    && VerifiedBy(sha, m, value[w.alignedOfs..w.alignedOfs + w.alignedLen], w.alignedOfs)
  }

  /** The seek and the full read of a window succeed. */
  predicate Served(script: Script, k: nat, w: Window) {
    script(k) >= 0 && InFull(script(k + 1), w.alignedLen)
  }

  /** The seek to a window and the read of it. */
  method ReadWindow(r: Reader, w: Window) returns (code: Code, mem: bytes)
    requires r.Sound() && 0 < w.alignedLen && w.alignedOfs + w.alignedLen <= r.meta.size
    modifies r, r.sys
    ensures code == Success <==> Served(r.sys.script, old(r.sys.calls), w) && r.Passes(w.alignedOfs, w.alignedLen)
    ensures code == InvalidSeek <==> r.sys.script(old(r.sys.calls)) < 0
    ensures code == Success ==> r.sys.calls == old(r.sys.calls) + 2 && r.IsSlice(mem, w.alignedOfs, w.alignedLen)
  {
    hide PassesIn, SumsMatch, Reader.Intact;
    mem := [];
    var rc := r.Seek(w.alignedOfs);
    if rc != 0 {
      return InvalidSeek, [];
    }
    var rrc;
    rrc, mem := r.Read(w.alignedLen);
    code := if rrc == w.alignedLen then Success else InternalError;
  }

  /** object_get_part on an open object: succeeds exactly when the seek and a full read of the aligned window
      do and every block of the window has its checksum, and then returns exactly the bytes asked for. */
  method GetPart(r: Reader, offset: nat, reqLen: nat) returns (code: Code, part: bytes, last: bool)
    requires r.Sound() && offset != r.meta.size
    modifies r, r.sys
    ensures offset > r.meta.size ==> code == InvalidSeek && r.sys.calls == old(r.sys.calls)
    ensures code == Success ==> r.sys.calls == old(r.sys.calls) + 2
    ensures offset < r.meta.size ==>
      var w := PartWindow(r.meta.size, offset, reqLen);
      && (code == Success <==>
            Served(r.sys.script, old(r.sys.calls), w) && WindowPasses(r.sha, r.meta, r.Value(), w))
      && (code == InvalidSeek <==> r.sys.script(old(r.sys.calls)) < 0)
      && (code == Success ==> PartOf(r.Value(), w, offset, part, last))
      && (code == Success ==> IsPart(r.Value(), offset, reqLen, part, last))
      && (r.Intact() ==> WindowPasses(r.sha, r.meta, r.Value(), w))
  {
    code, part, last := InternalError, [], false;
    if offset > r.meta.size {
      return InvalidSeek, [], false;
    }
    var w := PartWindow(r.meta.size, offset, reqLen);
    WindowIn(r.meta.size, offset, reqLen);
    WindowVerdict(r.sha, r.file, r.meta, offset, reqLen, r.Value());
    hide PartWindow, WindowPasses, SumsMatch, PassesIn, Served, PartOf, IsPart, Reader.IsSlice;
    if r.Intact() {
      IntactPiece(r.sha, r.file, r.meta, w.alignedOfs, w.alignedLen);
    }
    var mem;
    code, mem := ReadWindow(r, w);
    if code == Success {
      part, last := CutPart(r, w, offset, mem), w.last;
      PartIs(r.Value(), w, offset, reqLen, part, last);
    }
  }

  lemma PartIs(value: bytes, w: Window, offset: nat, reqLen: nat, part: bytes, last: bool)
    requires offset < |value| && PartOf(value, w, offset, part, last)
    requires w.length == Min(Min(0x4_0000, |value| - offset), if reqLen > 0 then reqLen else |value| - offset)
    ensures IsPart(value, offset, reqLen, part, last)
  {
  }

  /** The part of a window that was read in full. */
  function CutPart(r: Reader, w: Window, offset: nat, mem: bytes): (part: bytes)
    requires r.Sound() && r.IsSlice(mem, w.alignedOfs, w.alignedLen)
    requires w.alignedOfs <= offset && offset + w.length <= w.alignedOfs + w.alignedLen <= r.meta.size
    ensures PartOf(r.Value(), w, offset, part, offset + w.length == r.meta.size)
  {
    SliceOfSlice(r.file, r.meta.valueOfs, r.meta.size, w.alignedOfs, w.alignedLen);
    var skip := offset - w.alignedOfs;
    SliceOfSlice(r.Value(), w.alignedOfs, w.alignedLen, skip, w.length);
    mem[skip..skip + w.length]
  }

  /** The window lies in the value and contains the part. */
  lemma WindowIn(size: nat, offset: nat, reqLen: nat)
    requires offset < size
    ensures var w := PartWindow(size, offset, reqLen);
      && w.alignedOfs <= offset && offset + w.length <= w.alignedOfs + w.alignedLen <= size && 0 < w.length
      && (w.last <==> offset + w.length == size)
      && w.length == Min(Min(0x4_0000, size - offset), if reqLen > 0 then reqLen else size - offset)
  {
    PartWindowOk(size, offset, reqLen);
    hide PartWindow, CanCsumRange;
  }

  /** A read of the window passes exactly when every block of it has its checksum. */
  lemma WindowVerdict(sha: Hash, file: bytes, m: Meta, offset: nat, reqLen: nat, value: bytes)
    requires SoundIn(file, m) && offset < m.size && value == file[m.valueOfs..m.valueOfs + m.size]
    ensures var w := PartWindow(m.size, offset, reqLen);
      PassesIn(sha, file, m, w.alignedOfs, w.alignedLen) <==> WindowPasses(sha, m, value, w)
  {
    var w := PartWindow(m.size, offset, reqLen);
    PartWindowOk(m.size, offset, reqLen);
    SliceOfSlice(file, m.valueOfs, m.size, w.alignedOfs, w.alignedLen);
    hide PartWindow, VerifiedBy, CanCsumRange;
  }

  /** The parts a client gets asking for `ask(offset)` bytes each time, until one is flagged last. */
  function Parts(data: bytes, offset: nat, ask: nat -> nat): seq<bytes>
    requires offset < |data|
    decreases |data| - offset
  {
    PartWindowOk(|data|, offset, ask(offset));
    var w := PartWindow(|data|, offset, ask(offset));
    [data[offset..offset + w.length]] + if w.last then [] else Parts(data, offset + w.length, ask)
  }

  function Joined(parts: seq<bytes>): bytes {
    if parts == [] then [] else parts[0] + Joined(parts[1..])
  }

  lemma JoinedCons(part: bytes, rest: seq<bytes>)
    ensures Joined([part] + rest) == part + Joined(rest)
    ensures Joined([part] + []) == part
  {
    assert ([part] + rest)[1..] == rest && ([part] + [])[1..] == [];
    assert part + [] == part;
  }

  /** `part` is the next of the parts, and the last one if flagged. */
  ghost predicate NextIs(data: bytes, offset: nat, ask: nat -> nat, part: bytes, last: bool)
    requires offset < |data|
  {
    && 0 < |part| && offset + |part| <= |data| && part == data[offset..offset + |part|]
    && (last <==> offset + |part| == |data|)
    && Parts(data, offset, ask) == [part] + if last then [] else Parts(data, offset + |part|, ask)
  }

  lemma NextPart(data: bytes, offset: nat, ask: nat -> nat, part: bytes, last: bool)
    requires offset < |data| && PartOf(data, PartWindow(|data|, offset, ask(offset)), offset, part, last)
    ensures NextIs(data, offset, ask, part, last)
  {
    PartWindowOk(|data|, offset, ask(offset));
    hide PartWindow, CanCsumRange;
  }

  /** Whatever lengths are asked for, the parts from an offset join to the rest of the object. */
  lemma {:induction false} PartsJoin(data: bytes, offset: nat, ask: nat -> nat)
    requires offset < |data|
    ensures Joined(Parts(data, offset, ask)) == data[offset..]
    decreases |data| - offset
  {
    hide Parts, Joined, CanCsumRange;
    var part, last := FirstPart(data, offset, ask);
    var next := offset + |part|;
    SplitRest(data, offset, next);
    if last {
      JoinedCons(part, []);
    } else {
      PartsJoin(data, next, ask);
      JoinedCons(part, Parts(data, next, ask));
    }
  }

  lemma SplitRest(data: bytes, offset: nat, next: nat)
    requires offset <= next <= |data|
    ensures data[offset..next] + data[next..] == data[offset..]
    ensures next == |data| ==> data[offset..next] == data[offset..]
  {
  }

  lemma FirstPart(data: bytes, offset: nat, ask: nat -> nat) returns (part: bytes, last: bool)
    requires offset < |data|
    ensures NextIs(data, offset, ask, part, last)
  {
    PartWindowOk(|data|, offset, ask(offset));
    hide Parts, CanCsumRange;
    var w := PartWindow(|data|, offset, ask(offset));
    part, last := data[offset..offset + w.length], w.last;
    NextPart(data, offset, ask, part, last);
  }

  /** The two calls behind each part from `offset` on, starting with call k, do what they should. */
  predicate PartsServed(size: nat, offset: nat, ask: nat -> nat, script: Script, k: nat)
    requires offset < size
    decreases size - offset
  {
    PartWindowOk(size, offset, ask(offset));
    var w := PartWindow(size, offset, ask(offset));
    Served(script, k, w) && (w.last || PartsServed(size, offset + w.length, ask, script, k + 2))
  }

  /** Whether the rest is served, after a part that was or was not. */
  lemma ServedNext(data: bytes, offset: nat, ask: nat -> nat, script: Script, k: nat, ok: bool, part: bytes, last: bool)
    requires offset < |data| && (ok <==> Served(script, k, PartWindow(|data|, offset, ask(offset))))
    requires ok ==> PartOf(data, PartWindow(|data|, offset, ask(offset)), offset, part, last)
    ensures ok ==> NextIs(data, offset, ask, part, last)
    ensures PartsServed(|data|, offset, ask, script, k) <==>
      ok && (last || PartsServed(|data|, offset + |part|, ask, script, k + 2))
  {
    PartWindowOk(|data|, offset, ask(offset));
    if ok {
      NextPart(data, offset, ask, part, last);
    }
    hide PartWindow, Served, CanCsumRange, Parts;
  }

  /** A client asking for part after part until one is flagged last: it gets the parts of the value, and of an
      intact object exactly when the calls behind them all do what they should. */
  method GetPartsFrom(r: Reader, offset: nat, ask: nat -> nat) returns (ok: bool, parts: seq<bytes>)
    requires r.Sound() && offset < r.meta.size
    modifies r, r.sys
    ensures ok ==> parts == Parts(r.Value(), offset, ask)
    ensures r.Intact() ==> (ok <==> PartsServed(r.meta.size, offset, ask, r.sys.script, old(r.sys.calls)))
    decreases r.meta.size - offset
  {
    hide Parts, PartsServed, PartOf, WindowPasses, SumsMatch, Served, PartWindow;
    ghost var k := r.sys.calls;
    var code, part, last := GetPart(r, offset, ask(offset));
    ok, parts := code == Success, [part];
    if ok {
      NextPart(r.Value(), offset, ask, part, last);
    }
    if r.Intact() {
      ServedNext(r.Value(), offset, ask, r.sys.script, k, ok, part, last);
    }
    if ok && !last {
      var rest;
      ok, rest := GetPartsFrom(r, offset + |part|, ask);
      parts := parts + rest;
    }
  }

  /** From the start, what it gets joins to the whole value. */
  method GetAllParts(r: Reader, ask: nat -> nat) returns (ok: bool, parts: seq<bytes>)
    requires r.Sound() && r.meta.size > 0
    modifies r, r.sys
    ensures ok ==> Joined(parts) == r.Value()
    ensures r.Intact() ==> (ok <==> PartsServed(r.meta.size, 0, ask, r.sys.script, old(r.sys.calls)))
  {
    PartsJoin(r.Value(), 0, ask);
    assert r.Value()[0..] == r.Value();
    hide Parts, PartsServed, Reader.Intact, Joined;
    ok, parts := GetPartsFrom(r, 0, ask);
  }

  /** Requests of 256 KiB needed for `n` bytes, rounding up. */
  function PartsNeeded(n: nat): nat {
    (n + MAX_GETPART - 1) / MAX_GETPART
  }

  lemma OneMorePart(n: nat)
    requires n > 0
    ensures PartsNeeded(n) == 1 + if n <= MAX_GETPART then 0 else PartsNeeded(n - MAX_GETPART)
  {
  }

  /** Asking for everything each time needs one request per 256 KiB begun. */
  lemma {:induction false} PartsCount(data: bytes, offset: nat)
    requires offset < |data|
    ensures |Parts(data, offset, (_: nat) => 0)| == PartsNeeded(|data| - offset)
    decreases |data| - offset
  {
    PartWindowOk(|data|, offset, 0);
    OneMorePart(|data| - offset);
    var w := PartWindow(|data|, offset, 0);
    hide PartWindow, PartsNeeded;
    if !w.last {
      PartsCount(data, offset + w.length);
    }
  }

  // ---------- CP ----------

  lemma SliceGrows(b: bytes, lo: nat, n: nat, pos: nat, rc: nat)
    requires lo + n <= |b| && pos + rc <= n
    ensures b[lo..lo + n][..pos] + b[lo + pos..lo + pos + rc] == b[lo..lo + n][..pos + rc]
  {
    SliceOfSlice(b, lo, n, pos, rc);
    var v := b[lo..lo + n];
    assert v[..pos] + v[pos..pos + rc] == v[..pos + rc];
  }

  /** The volume while the copy's object is written, or once it was freed. */
  ghost function Progress(ok: bool, d: Disk, bo: FsObj): Disk
    reads bo
  {
    var d' := DiskSet(d, bo.fid, Draft(bo.valueOfs, bo.data));
    if ok then d' else DiskUnlink(d', bo.path)
  }

  ghost predicate Copying(obj: Reader, cli: PutClient)
    reads obj, cli, cli.bo, cli.bo.vol, cli.bo.csumTbl
  {
    && obj.Valid() && cli.Valid() && obj.sys == cli.bo.sys
    && obj.inPos + cli.outLen == obj.meta.size && cli.bo.data == obj.Value()[..obj.inPos]
  }

  /** A piece the copy loop read: n bytes at `pos`, by system call number `call`. */
  datatype Piece = Piece(call: nat, pos: nat, n: nat)

  /** A piece is what the system reads of the rest of the value, at most a block. */
  ghost predicate IsPiece(script: Script, file: bytes, m: Meta, p: Piece) {
    && p.pos < m.size && m.valueOfs + m.size <= |file| && p.n > 0
    && p.n == ReadResult(script(p.call), Min(m.size - p.pos, BLK), |file| - m.valueOfs - p.pos)
  }

  /** Where the pieces end. */
  function EndOf(ps: seq<Piece>): nat {
    if ps == [] then 0 else ps[|ps| - 1].pos + ps[|ps| - 1].n
  }

  /** Pieces follow one another from the start of the value, by successive system calls from `start` on. */
  ghost predicate Pieces(script: Script, file: bytes, m: Meta, ps: seq<Piece>, start: nat, end: nat) {
    && (forall i | 0 <= i < |ps| :: IsPiece(script, file, m, ps[i]) && start <= ps[i].call < end)
    && (forall i | 0 <= i < |ps| :: ps[i].pos == EndOf(ps[..i]))
    && (forall i, j | 0 <= i < j < |ps| :: ps[i].call < ps[j].call)
  }

  lemma MorePieces(script: Script, file: bytes, m: Meta, ps: seq<Piece>, p: Piece, start: nat, mid: nat, end: nat)
    requires Pieces(script, file, m, ps, start, mid) && start <= mid <= end
    requires IsPiece(script, file, m, p) && p.pos == EndOf(ps) && mid <= p.call < end
    ensures Pieces(script, file, m, ps + [p], start, end) && EndOf(ps + [p]) == p.pos + p.n
  {
    var qs := ps + [p];
    assert forall i | 0 <= i < |ps| :: qs[..i] == ps[..i];
    assert qs[..|ps|] == ps;
  }

  /** Every piece can not be verified or has its checksums. */
  ghost predicate AllPass(sha: Hash, file: bytes, m: Meta, ps: seq<Piece>)
    requires |m.csums| == m.nBlk * CSUM
  {
    forall i | 0 <= i < |ps| :: PassesIn(sha, file, m, ps[i].pos, ps[i].n)
  }

  /** The read of the copy loop. */
  method ReadPiece(obj: Reader, n: nat) returns (rrc: int, buf: bytes, ghost got: seq<Piece>)
    requires obj.Valid() && obj.inPos < obj.meta.size && n == Min(obj.meta.size - obj.inPos, BLK)
    modifies obj, obj.sys
    ensures obj.sys.calls == old(obj.sys.calls) + 1
    ensures got == [] <==> obj.sys.script(old(obj.sys.calls)) < 0
    ensures got != [] ==>
      && |got| == 1 && got[0].call == old(obj.sys.calls) && got[0].pos == old(obj.inPos)
      && IsPiece(obj.sys.script, obj.file, obj.meta, got[0])
    ensures rrc > 0 <==> got != [] && AllPass(obj.sha, obj.file, obj.meta, got)
    ensures rrc > 0 ==> obj.Valid() && rrc == |buf| == got[0].n <= n && obj.inPos == old(obj.inPos) + rrc
    ensures rrc > 0 ==> obj.Value()[..old(obj.inPos)] + buf == obj.Value()[..obj.inPos]
  {
    ghost var pos, call := obj.inPos, obj.sys.calls;
    ghost var v := ReadResult(obj.sys.script(call), n, obj.Left());
    got := if v < 0 then [] else [Piece(call, pos, v)];
    hide Reader.Intact, CanCsumRange, PassesIn;
    rrc, buf := obj.Read(n);
    if rrc > 0 {
      SliceGrows(obj.file, obj.meta.valueOfs, obj.meta.size, pos, rrc);
    }
  }

  /** One turn of the copy loop: read a piece and write all of it.  It goes through exactly when no call fails
      and the piece passes. */
  method CopyPiece(obj: Reader, cli: PutClient) returns (ok: bool, ghost got: seq<Piece>)
    requires Copying(obj, cli) && cli.outLen > 0
    modifies obj, obj.sys, cli, cli.bo, cli.bo.vol, cli.bo.csumTbl
    ensures ok ==> Copying(obj, cli) && cli.outLen < old(cli.outLen) && got != []
    ensures old(obj.sys.calls) <= obj.sys.calls
    ensures got != [] ==>
      && |got| == 1 && got[0].call == old(obj.sys.calls) < obj.sys.calls
      && got[0].pos == old(obj.inPos) && IsPiece(obj.sys.script, obj.file, obj.meta, got[0])
    ensures ok ==> obj.inPos == got[0].pos + got[0].n
    ensures ok <==> AllOk(obj.sys.script, old(obj.sys.calls), obj.sys.calls)
                    && AllPass(obj.sha, obj.file, obj.meta, got)
    ensures cli.bo.vol.disk == Progress(ok, old(cli.bo.vol.disk), cli.bo)
  {
    ghost var start := obj.sys.calls;
    SameContent(cli.bo.vol.disk, cli.bo.fid);
    hide AllPass, IsPiece, Draft, Streamed, DiskSet, AllOk, FileWrite, FileFree;
    AllOkFirst(obj.sys.script, start);
    var rrc, buf;
    rrc, buf, got := ReadPiece(obj, Min(cli.outLen, BLK));
    if rrc <= 0 {
      cli.bo.Free();
      return false, got;
    }
    ghost var before := obj.sys.calls;
    ghost var took;
    ok, took := cli.DataIn(buf);
    AllOkJoin(obj.sys.script, start, before, obj.sys.calls);
  }

  lemma AllOkFirst(script: Script, a: nat)
    ensures AllOk(script, a, a + 1) <==> script(a) >= 0
    ensures AllOk(script, a, a)
  {
  }

  lemma AllPassMore(sha: Hash, file: bytes, m: Meta, ps: seq<Piece>, got: seq<Piece>)
    requires |m.csums| == m.nBlk * CSUM
    ensures AllPass(sha, file, m, ps + got) <==> AllPass(sha, file, m, ps) && AllPass(sha, file, m, got)
  {
    hide PassesIn;
    assert forall i | 0 <= i < |ps| :: (ps + got)[i] == ps[i];
    assert forall i | 0 <= i < |got| :: (ps + got)[|ps| + i] == got[i];
  }

  /** The copy loop: the whole value is written, or the new file has lost its name.  It is written exactly when
      no call fails and every piece read passes. */
  method CopyAll(obj: Reader, cli: PutClient) returns (ok: bool, ghost ps: seq<Piece>)
    requires Copying(obj, cli) && obj.inPos == 0
    modifies obj, obj.sys, cli, cli.bo, cli.bo.vol, cli.bo.csumTbl
    ensures ok ==> cli.Valid() && cli.outLen == 0 && cli.bo.data == obj.Value() && EndOf(ps) == obj.meta.size
    ensures old(obj.sys.calls) <= obj.sys.calls
    ensures Pieces(obj.sys.script, obj.file, obj.meta, ps, old(obj.sys.calls), obj.sys.calls)
    ensures ok <==> AllOk(obj.sys.script, old(obj.sys.calls), obj.sys.calls)
                    && AllPass(obj.sha, obj.file, obj.meta, ps)
    ensures cli.bo.vol.disk == Progress(ok, old(cli.bo.vol.disk), cli.bo)
  {
    ghost var start, disk := obj.sys.calls, cli.bo.vol.disk;
    SameContent(disk, cli.bo.fid);
    AllOkFirst(obj.sys.script, start);
    ps := [];
    hide FsObj.Valid, Draft, DiskSet, AllOk, AllPass, IsPiece, PassesIn;
    assert Pieces(obj.sys.script, obj.file, obj.meta, ps, start, start);
    assert AllPass(obj.sha, obj.file, obj.meta, ps) by {
      NonePass(obj.sha, obj.file, obj.meta);
    }
    hide Pieces;
    while cli.outLen > 0
      invariant Copying(obj, cli) && EndOf(ps) == obj.inPos
      invariant start <= obj.sys.calls && AllOk(obj.sys.script, start, obj.sys.calls)
      invariant Pieces(obj.sys.script, obj.file, obj.meta, ps, start, obj.sys.calls)
      invariant AllPass(obj.sha, obj.file, obj.meta, ps)
      invariant cli.bo.vol.disk == Progress(true, disk, cli.bo)
      decreases cli.outLen
    {
      ghost var was, before := cli.bo.data, obj.sys.calls;
      ghost var got;
      ok, got := CopyPiece(obj, cli);
      SetTwice(disk, cli.bo.fid, Draft(cli.bo.valueOfs, was), Draft(cli.bo.valueOfs, cli.bo.data));
      AllOkJoin(obj.sys.script, start, before, obj.sys.calls);
      AllPassMore(obj.sha, obj.file, obj.meta, ps, got);
      ps := AddPieces(obj.sys.script, obj.file, obj.meta, ps, got, start, before, obj.sys.calls);
      if !ok {
        return;
      }
    }
    assert obj.Value()[..obj.meta.size] == obj.Value();
    return true, ps;
  }

  lemma NonePass(sha: Hash, file: bytes, m: Meta)
    requires |m.csums| == m.nBlk * CSUM
    ensures AllPass(sha, file, m, [])
  {
  }

  lemma AddPieces(script: Script, file: bytes, m: Meta, ps: seq<Piece>, got: seq<Piece>, start: nat, mid: nat, end: nat)
    returns (qs: seq<Piece>)
    requires Pieces(script, file, m, ps, start, mid) && start <= mid <= end && |got| <= 1
    requires got != [] ==> IsPiece(script, file, m, got[0]) && got[0].pos == EndOf(ps) && mid <= got[0].call < end
    ensures qs == ps + got && Pieces(script, file, m, qs, start, end)
    ensures EndOf(qs) == if got == [] then EndOf(ps) else got[0].pos + got[0].n
  {
    qs := ps + got;
    if got == [] {
      assert qs == ps;
    } else {
      assert got == [got[0]];
      MorePieces(script, file, m, ps, got[0], start, mid, end);
    }
  }

  /** Writes the value of an open object under a new key. */
  method CopyOpened(obj: Reader, vol: Volume, to: Path, user: bytes, io: CommitIo)
    returns (committed: bool, ghost ps: seq<Piece>)
    requires UserValid(user) && obj.Valid() && obj.inPos == 0 && vol.Valid() && to !in vol.disk.names
    modifies obj, obj.sys, vol
    ensures Pieces(obj.sys.script, obj.file, obj.meta, ps, old(obj.sys.calls), obj.sys.calls)
    ensures committed <==> io.AllWritten? && AllOk(obj.sys.script, old(obj.sys.calls), obj.sys.calls)
                           && AllPass(obj.sha, obj.file, obj.meta, ps)
    ensures committed ==> EndOf(ps) == obj.meta.size
    ensures Files(vol.disk) ==
      if committed then Files(old(vol.disk))[to := Image(obj.sha, user, to.1, obj.Value())] else Files(old(vol.disk))
  {
    ghost var was := vol.disk;
    var bo := new FsObj(obj.sha, vol, obj.sys, to, obj.meta.size);
    hide Streamed, Front, Draft, FileNew, FileCommit, FileFree, Files, DiskSet, DiskNew, DiskUnlink, AllOk;
    hide Pieces, AllPass;
    var cli := new PutClient(user, bo);
    assert obj.Value()[..0] == [];
    committed, ps := CopyAll(obj, cli);
    ghost var mid := Draft(bo.valueOfs, bo.data);
    NewThenSet(was, to, mid);
    if !committed {
      return;
    }
    ghost var before := vol.disk;
    committed := cli.PutEnd(io);
    ghost var f := Image(obj.sha, user, to.1, obj.Value());
    if !committed {
      ghost var g :| vol.disk == DiskUnlink(DiskSet(before, bo.fid, g), to);
      f := g;
    }
    SetTwice(DiskNew(was, to), was.next, mid, f);
    NewThenSet(was, to, f);
  }

  /** The value of a file that open accepts. */
  function StoredValue(f: bytes, user: bytes, key: bytes): bytes
    requires OpenFile(f, user, key).Accepted?
  {
    var m := OpenFile(f, user, key).meta;
    f[m.valueOfs..m.valueOfs + m.size]
  }

  /** A copy can start: both keys are good, the source opens for the user and the target is free. */
  predicate CanCopy(files: map<Path, bytes>, from: Path, to: Path, user: bytes) {
    && KeyValid(from.1) && KeyValid(to.1) && from.0 != 0 && to.0 != 0
    && from in files && to !in files && OpenFile(files[from], user, from.1).Accepted?
  }

  /** The table stored in a file that open accepts is that of its value. */
  ghost predicate IntactFile(sha: Hash, f: bytes, user: bytes, key: bytes)
    requires OpenFile(f, user, key).Accepted?
  {
    SumsMatch(sha, StoredValue(f, user, key), OpenFile(f, user, key).meta.csums)
  }

  lemma OpenSound(f: bytes, user: bytes, key: bytes)
    requires OpenFile(f, user, key).Accepted?
    ensures SoundIn(f, OpenFile(f, user, key).meta)
  {
  }

  /** A copy that read these pieces goes through. */
  ghost predicate CopyPasses(sha: Hash, files: map<Path, bytes>, from: Path, to: Path, user: bytes, ps: seq<Piece>)
    requires CanCopy(files, from, to, user)
  {
    OpenSound(files[from], user, from.1);
    AllPass(sha, files[from], OpenFile(files[from], user, from.1).meta, ps)
  }

  /** Every piece of an intact object passes. */
  lemma IntactPasses(sha: Hash, f: bytes, m: Meta, script: Script, ps: seq<Piece>, start: nat, end: nat)
    requires SoundIn(f, m) && SumsMatch(sha, f[m.valueOfs..m.valueOfs + m.size], m.csums)
    requires Pieces(script, f, m, ps, start, end)
    ensures AllPass(sha, f, m, ps)
  {
    forall i | 0 <= i < |ps|
      ensures PassesIn(sha, f, m, ps[i].pos, ps[i].n)
    {
      IntactPiece(sha, f, m, ps[i].pos, ps[i].n);
    }
  }

  lemma IntactPiece(sha: Hash, f: bytes, m: Meta, pos: nat, n: nat)
    requires SoundIn(f, m) && SumsMatch(sha, f[m.valueOfs..m.valueOfs + m.size], m.csums)
    ensures PassesIn(sha, f, m, pos, n)
  {
    if CanCsumRange(pos, n, m.size - m.size % BLK, m.size % BLK) && m.valueOfs + pos + n <= |f| {
      var value, buf := f[m.valueOfs..m.valueOfs + m.size], f[m.valueOfs + pos..m.valueOfs + pos + n];
      SliceOfSlice(f, m.valueOfs, m.size, pos, n);
      forall k | 0 <= k < BlkCount(|buf|)
        ensures GoodBlock(sha, m, buf, pos, k)
      {
        BlockOfRead(value, pos, n, k);
      }
    }
  }

  /** What a copy did, given the files before and after it: it was committed exactly when it could start,
      every piece read passes, as each does of an intact object, and nothing fails; then the complete value
      stands under the new key, and otherwise every file is as it was. */
  ghost predicate Copied(sha: Hash, files: map<Path, bytes>, from: Path, to: Path, user: bytes, script: Script,
                         a: nat, b: nat, io: CommitIo, committed: bool, ps: seq<Piece>, files': map<Path, bytes>)
    requires UserValid(user)
  {
    && (committed <==>
          && CanCopy(files, from, to, user) && CopyPasses(sha, files, from, to, user, ps)
          && io.AllWritten? && AllOk(script, a, b))
    && (CanCopy(files, from, to, user) ==>
          Pieces(script, files[from], OpenFile(files[from], user, from.1).meta, ps, a, b))
    && (CanCopy(files, from, to, user) && IntactFile(sha, files[from], user, from.1) ==>
          CopyPasses(sha, files, from, to, user, ps))
    && files' == (if committed then files[to := Image(sha, user, to.1, StoredValue(files[from], user, from.1))]
                  else files)
  }

  lemma CopiedIs(sha: Hash, files: map<Path, bytes>, from: Path, to: Path, user: bytes, script: Script, a: nat, b: nat,
                 io: CommitIo, committed: bool, ps: seq<Piece>, files': map<Path, bytes>, file: bytes, m: Meta)
    requires UserValid(user) && CanCopy(files, from, to, user) && file == files[from]
    requires OpenFile(file, user, from.1) == Accepted(m) && SoundIn(file, m)
    requires Pieces(script, file, m, ps, a, b)
    requires committed <==> io.AllWritten? && AllOk(script, a, b) && AllPass(sha, file, m, ps)
    requires files' ==
      if committed then files[to := Image(sha, user, to.1, file[m.valueOfs..m.valueOfs + m.size])] else files
    ensures Copied(sha, files, from, to, user, script, a, b, io, committed, ps, files')
  {
    hide OpenFile, Image, SumsMatch, AllOk, Pieces, AllPass, KeyValid;
    if IntactFile(sha, files[from], user, from.1) {
      IntactPasses(sha, file, m, script, ps, a, b);
    }
  }

  lemma NotCopied(sha: Hash, files: map<Path, bytes>, from: Path, to: Path, user: bytes, script: Script, a: nat,
                  io: CommitIo)
    requires UserValid(user) && !CanCopy(files, from, to, user)
    ensures Copied(sha, files, from, to, user, script, a, a, io, false, [], files)
  {
    hide CanCopy;
  }

  /** The source of a copy, if it can start. */
  method CopySource(vol: Volume, from: Path, to: Path, user: bytes) returns (can: bool, file: bytes)
    ensures can <==> CanCopy(Files(vol.disk), from, to, user)
    ensures can ==> file == Files(vol.disk)[from] && to !in vol.disk.names
  {
    can, file := false, [];
    if !KeyValid(from.1) || !KeyValid(to.1) || from.0 == 0 || to.0 == 0 || from !in vol.disk.names {
      return;
    }
    file := FileAt(vol.disk, from);
    assert Files(vol.disk)[from] == file;
    hide OpenFile;
    can := OpenFile(file, user, from.1).Accepted? && to !in vol.disk.names;
  }

  /** worker_cp_thr: copies an object of `user` to a new key. */
  method ObjectCopy(sha: Hash, vol: Volume, sys: System, from: Path, to: Path, user: bytes, io: CommitIo)
    returns (committed: bool, ghost ps: seq<Piece>)
    requires UserValid(user) && vol.Valid()
    modifies vol, sys
    ensures Copied(sha, Files(old(vol.disk)), from, to, user, sys.script, old(sys.calls), sys.calls, io,
                   committed, ps, Files(vol.disk))
  {
    hide OpenFile, Image, Files, AllOk, Pieces, AllPass, SumsMatch, Copied;
    ghost var files := Files(vol.disk);
    var can, file := CopySource(vol, from, to, user);
    if !can {
      NotCopied(sha, files, from, to, user, sys.script, sys.calls, io);
      return false, [];
    }
    var obj := new Reader(sha, sys, file, user, from.1);
    hide CanCopy;
    committed, ps := CopyOpened(obj, vol, to, user, io);
    CopiedIs(sha, files, from, to, user, sys.script, old(sys.calls), sys.calls, io, committed, ps, Files(vol.disk),
             file, obj.meta);
  }
}
