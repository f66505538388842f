/** The file of a chunkd object: a fixed header, the key, a table of block checksums and the value,
    as commit writes it and open reads it back (chunkd/be-fs.c).  SHA-1 is a parameter. */
module ObjectFile {
  import opened Bytes

  const BLK: nat := 0x10000
  const CSUM: nat := 20
  const HDR: nat := 180
  const OWNER: nat := 128
  const KEY_MAX: nat := 1024
  const USER_MAX: nat := 64
  const MAGIC: bytes := [0x43, 0x48, 0x55, 0x31] // "CHU1"

  type Digest = d: bytes | |d| == 20 witness seq(20, _ => 0)

  type Hash = bytes -> Digest

  function BlkCount(n: nat): (k: nat)
    ensures n <= k * BLK < n + BLK
  {
    n / BLK + if n % BLK != 0 then 1 else 0
  }

  lemma BlkCountIs(n: nat, k: nat)
    requires n <= k * BLK < n + BLK
    ensures BlkCount(n) == k
  {
  }

  /** The i-th 64 KiB block; only the last may be shorter. */
  function Block(data: bytes, i: nat): (b: bytes)
    requires i < BlkCount(|data|)
    ensures 0 < |b| <= BLK
  {
    data[i * BLK..Min((i + 1) * BLK, |data|)]
  }

  function Table(sha: Hash, data: bytes): seq<Digest> {
    seq<Digest>(BlkCount(|data|), i requires 0 <= i < BlkCount(|data|) => sha(Block(data, i)))
  }

  /** A checksum table as stored. */
  function Flat(table: seq<Digest>): (b: bytes)
    ensures |b| == CSUM * |table|
  {
    if table == [] then [] else table[0] + Flat(table[1..])
  }

  /** The i-th entry of a stored table. */
  function Entry(csums: bytes, i: nat): Digest
    requires CSUM * (i + 1) <= |csums|
  {
    csums[CSUM * i..CSUM * (i + 1)]
  }

  lemma {:induction false} FlatEntry(table: seq<Digest>, i: nat)
    requires i < |table|
    ensures Entry(Flat(table), i) == table[i]
  {
    if i > 0 {
      FlatEntry(table[1..], i - 1);
      assert Flat(table)[CSUM * i..CSUM * (i + 1)] == Flat(table[1..])[CSUM * (i - 1)..CSUM * i];
    }
  }

  // ---------- Header ----------

  predicate KeyValid(key: bytes) {
    1 <= |key| <= KEY_MAX
  }

  /** A logged-in user has a name. */
  predicate UserValid(user: bytes) {
    1 <= |user| <= USER_MAX && 0 !in user
  }

  /** Sizes whose header fields do not wrap. */
  predicate Fits(size: nat) {
    size < Pow256(8) && BlkCount(size) * CSUM < Pow256(4)
  }

  function Header(owner: bytes, keyLen: nat, valueLen: nat, nBlk: nat, md: Digest): (h: bytes)
    requires |owner| <= USER_MAX
    ensures |h| == HDR
  {
    MAGIC + ToLe(keyLen, 4) + ToLe(valueLen, 8) + ToLe(nBlk, 4) + Zeros(12) + md + owner + Zeros(OWNER - |owner|)
  }

  function ValueOfs(keyLen: nat, nBlk: nat): nat {
    HDR + keyLen + nBlk * CSUM
  }

  /** Everything before the value: header, key and checksum table. */
  function Front(sha: Hash, owner: bytes, key: bytes, data: bytes, md: Digest): (f: bytes)
    requires |owner| <= USER_MAX
    ensures |f| == ValueOfs(|key|, BlkCount(|data|))
  {
    Header(owner, |key|, |data|, BlkCount(|data|), md) + key + Flat(Table(sha, data))
  }

  /** A committed object's file. */
  function Image(sha: Hash, owner: bytes, key: bytes, data: bytes): (f: bytes)
    requires |owner| <= USER_MAX
    ensures |f| == ValueOfs(|key|, BlkCount(|data|)) + |data|
  {
    Front(sha, owner, key, data, sha(data)) + data
  }

  /** The file of an object still being written: its value behind a hole, or nothing yet. */
  function Draft(valueOfs: nat, data: bytes): bytes {
    if data == [] then [] else Zeros(valueOfs) + data
  }

  /** A C string in a fixed field. */
  function CStr(field: bytes): bytes {
    if field == [] || field[0] == 0 then [] else [field[0]] + CStr(field[1..])
  }

  lemma {:induction false} CStrPadded(user: bytes, pad: nat)
    requires 0 !in user && pad > 0
    ensures CStr(user + Zeros(pad)) == user
  {
    if user != [] {
      CStrPadded(user[1..], pad);
      assert (user + Zeros(pad))[1..] == user[1..] + Zeros(pad);
    }
  }

  datatype Fields = Fields(magic: bytes, keyLen: nat, valueLen: nat, nBlk: nat, hash: Digest, owner: bytes)

  /** The header fields of a file long enough to have a header. */
  function ReadFields(f: bytes): Fields
    requires |f| >= HDR
  {
    Fields(f[..4], FromLe(f[4..8]), FromLe(f[8..16]), FromLe(f[16..20]), f[32..52], CStr(f[52..HDR]))
  }

  lemma HeaderFields(owner: bytes, keyLen: nat, valueLen: nat, nBlk: nat, md: Digest, rest: bytes)
    requires UserValid(owner) && keyLen < Pow256(4) && valueLen < Pow256(8) && nBlk < Pow256(4)
    ensures ReadFields(Header(owner, keyLen, valueLen, nBlk, md) + rest) ==
      Fields(MAGIC, keyLen, valueLen, nBlk, md, owner)
  {
    var f := Header(owner, keyLen, valueLen, nBlk, md) + rest;
    assert f[..4] == MAGIC;
    assert f[4..8] == ToLe(keyLen, 4);
    assert f[8..16] == ToLe(valueLen, 8);
    assert f[16..20] == ToLe(nBlk, 4);
    assert f[32..52] == md;
    assert f[52..HDR] == owner + Zeros(OWNER - |owner|);
    LeRoundTrip(keyLen, 4);
    LeRoundTrip(valueLen, 8);
    LeRoundTrip(nBlk, 4);
    CStrPadded(owner, OWNER - |owner|);
  }

  // ---------- Opening ----------

  datatype Code = Success | AccessDenied | InternalError | NoSuchKey | InvalidKey | KeyExists | InvalidSeek

  datatype Meta = Meta(size: nat, hash: Digest, nBlk: nat, valueOfs: nat, csums: bytes)

  datatype Opening = Refused(code: Code) | Accepted(meta: Meta)

  function OpenFile(f: bytes, user: bytes, key: bytes): Opening {
    if |f| < HDR || ReadFields(f).magic != MAGIC then Refused(InternalError)
    else
      var h := ReadFields(f);
      var ofs := ValueOfs(|key|, h.nBlk);
      if h.owner != user then Refused(AccessDenied)
      else if h.keyLen != |key| || |f| < ofs + h.valueLen || BlkCount(h.valueLen) != h.nBlk
              || f[HDR..HDR + |key|] != key then Refused(InternalError)
      else Accepted(Meta(h.valueLen, h.hash, h.nBlk, ofs, f[HDR + |key|..ofs]))
  }

  /** Open accepts exactly the owner of a committed file, and finds in it the key, size, hash, table
      and value that were committed. */
  lemma OpenImage(sha: Hash, owner: bytes, key: bytes, data: bytes, user: bytes)
    requires UserValid(owner) && KeyValid(key) && Fits(|data|)
    ensures var f := Image(sha, owner, key, data); var ofs := ValueOfs(|key|, BlkCount(|data|));
      && OpenFile(f, user, key) ==
         (if user == owner then Accepted(Meta(|data|, sha(data), BlkCount(|data|), ofs, Flat(Table(sha, data))))
          else Refused(AccessDenied))
      && f[ofs..] == data
  {
    var f := Image(sha, owner, key, data);
    var hdr := Header(owner, |key|, |data|, BlkCount(|data|), sha(data));
    var table := Flat(Table(sha, data));
    assert f == hdr + (key + table + data);
    assert Pow256(4) == 0x1_0000_0000;
    HeaderFields(owner, |key|, |data|, BlkCount(|data|), sha(data), key + table + data);
    assert f[HDR..HDR + |key|] == key;
    assert f[HDR + |key|..HDR + |key| + |table|] == table;
  }

  /** The file of an object whose commit has not started has no header, so nobody can open or delete it. */
  lemma DraftUnopenable(valueOfs: nat, data: bytes, user: bytes, key: bytes)
    requires valueOfs >= HDR
    ensures OpenFile(Draft(valueOfs, data), user, key) == Refused(InternalError)
    ensures |Draft(valueOfs, data)| >= HDR ==> ReadFields(Draft(valueOfs, data)).magic != MAGIC
  {
    var f := Draft(valueOfs, data);
    if |f| >= HDR {
      assert f[..4][0] == 0;
    }
  }

  // ---------- Writing ----------

  /** pwrite semantics: bytes past the end are preceded by a hole of zeros. */
  function WriteAt(f: bytes, ofs: nat, data: bytes): bytes {
    (if ofs <= |f| then f[..ofs] else f + Zeros(ofs - |f|)) + data
      + if ofs + |data| < |f| then f[ofs + |data|..] else []
  }

  /** Appending to a draft extends its value. */
  lemma DraftExtended(valueOfs: nat, data: bytes, chunk: bytes)
    requires chunk != []
    ensures WriteAt(Draft(valueOfs, data), valueOfs + |data|, chunk) == Draft(valueOfs, data + chunk)
  {
  }

  /** A draft of which commit wrote the first `n` bytes of the front. */
  function Headed(front: bytes, data: bytes, n: nat): bytes
    requires n <= |front|
  {
    front[..n] + if data == [] then [] else Zeros(|front| - n) + data
  }

  lemma DraftHeaded(front: bytes, data: bytes, n: nat)
    requires n <= |front|
    ensures WriteAt(Draft(|front|, data), 0, front[..n]) == Headed(front, data, n)
    ensures Headed(front, data, |front|) == front + data
    ensures Headed(front, data, 0) == Draft(|front|, data)
  {
    var d := Draft(|front|, data);
    assert front[..0] == [] && front[..|front|] == front;
    assert Zeros(0) == [] && [] + data == data;
    if data != [] {
      assert n < |d| ==> d[n..] == Zeros(|front| - n) + data;
      assert d[..0] + front[..n] == front[..n];
    }
  }

  // ---------- A commit that fails ----------

  /** Enough of the header is there to be read, and begins with the magic number. */
  predicate HeaderSeen(data: bytes, n: nat) {
    n >= MAGIC_LEN && (data != [] || n >= HDR)
  }

  /** The owner as read from a header of which the first n bytes were written. */
  function OwnerSeen(owner: bytes, n: nat): bytes {
    if n <= OWNER_OFS then [] else owner[..Min(n - OWNER_OFS, |owner|)]
  }

  /** The key is there: its unwritten bytes, if any, are zeros as the hole is. */
  predicate KeySeen(key: bytes, data: bytes, n: nat) {
    (data != [] || n >= HDR + |key|) && forall i | 0 <= i < |key| && n <= HDR + i :: key[i] == 0
  }

  const MAGIC_LEN: nat := 4
  const OWNER_OFS: nat := 52

  /** The file that a failed commit leaves. */
  function FailedFile(sha: Hash, owner: bytes, key: bytes, data: bytes, n: nat): bytes
    requires |owner| <= USER_MAX && n <= ValueOfs(|key|, BlkCount(|data|))
  {
    Headed(Front(sha, owner, key, data, sha(data)), data, n)
  }

  lemma HeadedAt(front: bytes, data: bytes, n: nat, i: nat)
    requires n <= |front| && i < |Headed(front, data, n)| && i < |front|
    ensures Headed(front, data, n)[i] == if i < n then front[i] else 0
    ensures data != [] ==> |Headed(front, data, n)| == |front| + |data|
    ensures data == [] ==> |Headed(front, data, n)| == n
  {
  }

  /** The front, byte by byte where it matters. */
  lemma FrontAt(sha: Hash, owner: bytes, key: bytes, data: bytes, md: Digest)
    requires UserValid(owner) && KeyValid(key) && Fits(|data|)
    ensures var f := Front(sha, owner, key, data, md);
      && |f| >= HDR + |key| && f[..4] == MAGIC
      && f[OWNER_OFS..HDR] == owner + Zeros(OWNER - |owner|)
      && f[HDR..HDR + |key|] == key
      && FromLe(f[4..8]) == |key| && FromLe(f[8..16]) == |data| && FromLe(f[16..20]) == BlkCount(|data|)
      && f[32..52] == md
      && f[HDR + |key|..] == Flat(Table(sha, data))
  {
    var f := Front(sha, owner, key, data, md);
    var hdr := Header(owner, |key|, |data|, BlkCount(|data|), md);
    var rest := key + Flat(Table(sha, data));
    assert f == hdr + rest;
    assert Pow256(4) == 0x1_0000_0000;
    HeaderFields(owner, |key|, |data|, BlkCount(|data|), md, rest);
    assert f[OWNER_OFS..HDR] == owner + Zeros(OWNER - |owner|);
    assert f[HDR..HDR + |key|] == key;
  }

  /** A range of the front, as a partly headed file shows it. */
  lemma HeadedSlice(front: bytes, data: bytes, n: nat, a: nat, b: nat)
    requires n <= |front| && a <= b <= |front| && b <= |Headed(front, data, n)|
    ensures b <= n ==> Headed(front, data, n)[a..b] == front[a..b]
    ensures n <= a ==> Headed(front, data, n)[a..b] == Zeros(b - a)
    ensures a <= n <= b ==> Headed(front, data, n)[a..b] == front[a..n] + Zeros(b - n)
  {
    var h := Headed(front, data, n);
    forall i | a <= i < b
      ensures h[i] == if i < n then front[i] else 0
    {
      HeadedAt(front, data, n, i);
    }
  }

  lemma HeadedLen(front: bytes, data: bytes, n: nat)
    requires n <= |front|
    ensures |Headed(front, data, n)| == if data == [] then n else |front| + |data|
    ensures data != [] ==> Headed(front, data, n)[|front|..] == data
  {
  }

  /** A failed file passes for one with a header exactly when `HeaderSeen`. */
  lemma FailedHeader(sha: Hash, owner: bytes, key: bytes, data: bytes, n: nat)
    requires UserValid(owner) && KeyValid(key) && Fits(|data|) && n <= ValueOfs(|key|, BlkCount(|data|))
    ensures var f := FailedFile(sha, owner, key, data, n);
      (|f| >= HDR && ReadFields(f).magic == MAGIC) <==> HeaderSeen(data, n)
  {
    var front, f := Front(sha, owner, key, data, sha(data)), FailedFile(sha, owner, key, data, n);
    FrontAt(sha, owner, key, data, sha(data));
    HeadedLen(front, data, n);
    if |f| >= HDR {
      HeadedSlice(front, data, n, 0, 4);
      if n < 4 {
        HeadedAt(front, data, n, n);
        assert f[..4][n] == 0 && MAGIC[n] != 0;
      }
    }
  }

  lemma NoZero(owner: bytes, m: nat)
    requires 0 !in owner && m <= |owner|
    ensures 0 !in owner[..m]
  {
  }

  /** The owner read from it is the written part of the owner. */
  lemma FailedOwner(sha: Hash, owner: bytes, key: bytes, data: bytes, n: nat)
    requires UserValid(owner) && KeyValid(key) && Fits(|data|) && n <= ValueOfs(|key|, BlkCount(|data|))
    requires HeaderSeen(data, n)
    ensures var f := FailedFile(sha, owner, key, data, n);
      |f| >= HDR && ReadFields(f).owner == OwnerSeen(owner, n)
  {
    var front, f := Front(sha, owner, key, data, sha(data)), FailedFile(sha, owner, key, data, n);
    FrontAt(sha, owner, key, data, sha(data));
    HeadedLen(front, data, n);
    HeadedSlice(front, data, n, OWNER_OFS, HDR);
    var m := if n <= OWNER_OFS then 0 else Min(n - OWNER_OFS, |owner|);
    NoZero(owner, m);
    CStrPadded(owner[..m], OWNER - m);
    FieldSeen(front[OWNER_OFS..HDR], owner, f[OWNER_OFS..HDR], n, m);
  }

  lemma FieldSeen(field: bytes, owner: bytes, seen: bytes, n: nat, m: nat)
    requires |owner| <= OWNER && field == owner + Zeros(OWNER - |owner|) && |seen| == OWNER
    requires m == if n <= OWNER_OFS then 0 else Min(n - OWNER_OFS, |owner|)
    requires forall i | 0 <= i < OWNER :: seen[i] == if OWNER_OFS + i < n then field[i] else 0
    ensures seen == owner[..m] + Zeros(OWNER - m)
  {
  }

  /** The written part of the checksum table, and zeros. */
  function TableSeen(sha: Hash, key: bytes, data: bytes, n: nat): bytes {
    var table := Flat(Table(sha, data));
    var m := if n <= HDR + |key| then 0 else Min(n - HDR - |key|, |table|);
    table[..m] + Zeros(|table| - m)
  }

  /** Once the owner's name shows, everything before it does. */
  lemma FailedFields(sha: Hash, owner: bytes, key: bytes, data: bytes, n: nat)
    requires UserValid(owner) && KeyValid(key) && Fits(|data|) && n <= ValueOfs(|key|, BlkCount(|data|))
    requires HeaderSeen(data, n) && n > OWNER_OFS
    ensures var f := FailedFile(sha, owner, key, data, n);
      && |f| >= HDR && ReadFields(f) ==
        Fields(MAGIC, |key|, |data|, BlkCount(|data|), sha(data), OwnerSeen(owner, n))
  {
    var front, f := Front(sha, owner, key, data, sha(data)), FailedFile(sha, owner, key, data, n);
    FrontAt(sha, owner, key, data, sha(data));
    FailedOwner(sha, owner, key, data, n);
    hide Front, OwnerSeen, CStr;
    HeadedSlice(front, data, n, 0, 4);
    HeadedSlice(front, data, n, 4, 8);
    HeadedSlice(front, data, n, 8, 16);
    HeadedSlice(front, data, n, 16, 20);
    HeadedSlice(front, data, n, 32, 52);
  }

  lemma FailedKey(sha: Hash, owner: bytes, key: bytes, data: bytes, n: nat)
    requires UserValid(owner) && KeyValid(key) && Fits(|data|) && n <= ValueOfs(|key|, BlkCount(|data|))
    requires data != [] || n >= HDR + |key|
    ensures var f := FailedFile(sha, owner, key, data, n);
      |f| >= HDR + |key| && (f[HDR..HDR + |key|] == key <==> KeySeen(key, data, n))
  {
    var front, f := Front(sha, owner, key, data, sha(data)), FailedFile(sha, owner, key, data, n);
    FrontAt(sha, owner, key, data, sha(data));
    HeadedLen(front, data, n);
    var seen := f[HDR..HDR + |key|];
    forall i | 0 <= i < |key|
      ensures seen[i] == if HDR + i < n then key[i] else 0
    {
      HeadedAt(front, data, n, HDR + i);
      assert front[HDR..HDR + |key|][i] == front[HDR + i];
    }
    if KeySeen(key, data, n) {
      assert seen == key;
    }
  }

  lemma FailedTable(sha: Hash, owner: bytes, key: bytes, data: bytes, n: nat)
    requires UserValid(owner) && KeyValid(key) && Fits(|data|) && n <= ValueOfs(|key|, BlkCount(|data|))
    requires data != [] || n >= HDR + |key|
    ensures var f := FailedFile(sha, owner, key, data, n); var ofs := ValueOfs(|key|, BlkCount(|data|));
      && |f| == ofs + |data| && f[HDR + |key|..ofs] == TableSeen(sha, key, data, n) && f[ofs..] == data
  {
    var front, f := Front(sha, owner, key, data, sha(data)), FailedFile(sha, owner, key, data, n);
    var table, ofs := Flat(Table(sha, data)), ValueOfs(|key|, BlkCount(|data|));
    FrontAt(sha, owner, key, data, sha(data));
    HeadedLen(front, data, n);
    var seen := f[HDR + |key|..ofs];
    forall i | 0 <= i < |table|
      ensures seen[i] == if HDR + |key| + i < n then table[i] else 0
    {
      HeadedAt(front, data, n, HDR + |key| + i);
      assert front[HDR + |key|..][i] == front[HDR + |key| + i];
    }
    assert seen == TableSeen(sha, key, data, n);
  }

  /** Open accepts the file of a failed commit exactly for the user whose name the written part of the
      owner spells, and exactly when the key is there too.  It then finds the size, hash and value, and of
      the table what was written. */
  lemma FailedOpen(sha: Hash, owner: bytes, key: bytes, data: bytes, n: nat, user: bytes)
    requires UserValid(owner) && KeyValid(key) && Fits(|data|) && n <= ValueOfs(|key|, BlkCount(|data|))
    requires UserValid(user)
    ensures var f := FailedFile(sha, owner, key, data, n); var ofs := ValueOfs(|key|, BlkCount(|data|));
      && OpenFile(f, user, key) ==
         (if !HeaderSeen(data, n) then Refused(InternalError)
          else if OwnerSeen(owner, n) != user then Refused(AccessDenied)
          else if !KeySeen(key, data, n) then Refused(InternalError)
          else Accepted(Meta(|data|, sha(data), BlkCount(|data|), ofs, TableSeen(sha, key, data, n))))
      && (OpenFile(f, user, key).Accepted? ==> |f| == ofs + |data| && f[ofs..] == data)
  {
    var f := FailedFile(sha, owner, key, data, n);
    FailedHeader(sha, owner, key, data, n);
    if HeaderSeen(data, n) {
      FailedOwner(sha, owner, key, data, n);
      if OwnerSeen(owner, n) == user {
        FailedFields(sha, owner, key, data, n);
        if data != [] || n >= HDR + |key| {
          FailedKey(sha, owner, key, data, n);
          FailedTable(sha, owner, key, data, n);
        } else {
          HeadedLen(Front(sha, owner, key, data, sha(data)), data, n);
        }
        hide FailedFile, ReadFields, TableSeen, KeySeen;
      }
    }
  }

  /** A header write cut short right after the key leaves a file that opens, with a table of zeros. */
  lemma ShortHeader(sha: Hash, owner: bytes, key: bytes, data: bytes)
    requires UserValid(owner) && KeyValid(key) && Fits(|data|)
    ensures OpenFile(FailedFile(sha, owner, key, data, HDR + |key|), owner, key) ==
      Accepted(Meta(|data|, sha(data), BlkCount(|data|), ValueOfs(|key|, BlkCount(|data|)),
                    Zeros(BlkCount(|data|) * CSUM)))
  {
    var n := HDR + |key|;
    FailedOpen(sha, owner, key, data, n, owner);
    assert OwnerSeen(owner, n) == owner[..|owner|] == owner;
    assert TableSeen(sha, key, data, n) == Zeros(BlkCount(|data|) * CSUM);
    hide FailedFile, OpenFile;
  }

  /** In particular the owner opens it exactly when it agrees with the front on header and key. */
  lemma FailedOpenByOwner(sha: Hash, owner: bytes, key: bytes, data: bytes, n: nat)
    requires UserValid(owner) && KeyValid(key) && Fits(|data|) && n <= ValueOfs(|key|, BlkCount(|data|))
    ensures var f := FailedFile(sha, owner, key, data, n);
      var front := Front(sha, owner, key, data, sha(data));
      OpenFile(f, owner, key).Accepted? <==> |f| >= HDR + |key| && f[..HDR + |key|] == front[..HDR + |key|]
  {
    var f, front := FailedFile(sha, owner, key, data, n), Front(sha, owner, key, data, sha(data));
    FailedOpen(sha, owner, key, data, n, owner);
    FrontAt(sha, owner, key, data, sha(data));
    HeadedLen(front, data, n);
    AgreeIff(sha, owner, key, data, n);
    hide FailedFile, Front, OpenFile;
  }

  /** Cutting a string short and filling it with zeros changes it unless it ended in zeros. */
  lemma CutAgrees(front: bytes, f: bytes, n: nat, h: nat)
    requires h <= |front| && h <= |f| && forall i | 0 <= i < h :: f[i] == if i < n then front[i] else 0
    ensures f[..h] == front[..h] <==> forall i | n <= i < h :: front[i] == 0
  {
    if f[..h] == front[..h] {
      forall i | n <= i < h
        ensures front[i] == 0
      {
        assert f[..h][i] == front[..h][i];
      }
    }
  }

  /** From n on, header and key are zeros exactly when the owner's name ends before n and so does what is
      not zero of the key. */
  lemma ZerosFrom(front: bytes, owner: bytes, key: bytes, n: nat)
    requires UserValid(owner) && HDR + |key| <= |front|
    requires front[OWNER_OFS..HDR] == owner + Zeros(OWNER - |owner|) && front[HDR..HDR + |key|] == key
    ensures (forall i | n <= i < HDR + |key| :: front[i] == 0) <==>
      n >= OWNER_OFS + |owner| && forall i | 0 <= i < |key| && n <= HDR + i :: key[i] == 0
  {
    var name, h := front[OWNER_OFS..HDR], HDR + |key|;
    var last := OWNER_OFS + |owner| - 1;
    assert front[last] == name[|owner| - 1] == owner[|owner| - 1] != 0;
    if forall i | n <= i < h :: front[i] == 0 {
      forall i | 0 <= i < |key| && n <= HDR + i
        ensures key[i] == 0
      {
        assert front[HDR..h][i] == front[HDR + i];
      }
    }
    if n > last && forall i | 0 <= i < |key| && n <= HDR + i :: key[i] == 0 {
      forall i | n <= i < h
        ensures front[i] == 0
      {
        if i < HDR {
          assert front[i] == name[i - OWNER_OFS];
        } else {
          assert front[i] == front[HDR..h][i - HDR] == key[i - HDR];
        }
      }
    }
  }

  lemma AgreeIff(sha: Hash, owner: bytes, key: bytes, data: bytes, n: nat)
    requires UserValid(owner) && KeyValid(key) && Fits(|data|) && n <= ValueOfs(|key|, BlkCount(|data|))
    ensures var f := FailedFile(sha, owner, key, data, n);
      var front := Front(sha, owner, key, data, sha(data));
      (|f| >= HDR + |key| && f[..HDR + |key|] == front[..HDR + |key|]) <==>
        HeaderSeen(data, n) && OwnerSeen(owner, n) == owner && KeySeen(key, data, n)
  {
    var f, front := FailedFile(sha, owner, key, data, n), Front(sha, owner, key, data, sha(data));
    var h := HDR + |key|;
    FrontAt(sha, owner, key, data, sha(data));
    HeadedLen(front, data, n);
    ZerosFrom(front, owner, key, n);
    if |f| >= h {
      forall i | 0 <= i < h
        ensures f[i] == if i < n then front[i] else 0
      {
        HeadedAt(front, data, n, i);
      }
      CutAgrees(front, f, n, h);
    }
    hide FailedFile, Front;
    assert OwnerSeen(owner, n) == owner <==> n >= OWNER_OFS + |owner|;
  }
}
