/** Absolute path names and their split into directory and last component (cld/msg.c). */
module Pathname {
  import opened Bytes

  const SLASH: byte := 0x2F
  const NUL: byte := 0

  const ROOT: bytes := [SLASH]

  predicate DoubleSlashAt(name: bytes, i: nat) {
    i + 1 < |name| && name[i] == SLASH && name[i + 1] == SLASH
  }

  predicate ValidInodeName(name: bytes) {
    && name != []
    && NUL !in name
    && name[0] == SLASH
    && (|name| > 1 ==> name[|name| - 1] != SLASH)
    && forall i: nat | i < |name| :: !DoubleSlashAt(name, i)
  }

  /** One more than the index of the last slash before `n`, or 0 when there is none (memrchr). */
  function AfterLastSlash(path: bytes, n: nat): (k: nat)
    requires n <= |path|
    ensures k <= n && (k > 0 ==> path[k - 1] == SLASH)
    ensures forall i | k <= i < n :: path[i] != SLASH
  {
    if n == 0 || path[n - 1] == SLASH then n else AfterLastSlash(path, n - 1)
  }

  datatype PathInfo = PathInfo(dir: bytes, base: bytes)

  function PathnameParse(path: bytes): PathInfo {
    var ofs := AfterLastSlash(path, |path|);
    if ofs == 0 then PathInfo([], path)
    else if ofs == 1 then PathInfo(path[..1], if |path| == 1 then path else path[1..])
    else PathInfo(path[..ofs - 1], path[ofs..])
  }

  /** A path component. */
  predicate ValidBase(base: bytes) {
    base != [] && SLASH !in base && NUL !in base
  }

  /** The path of entry `base` of directory `dir`. */
  function Join(dir: bytes, base: bytes): bytes {
    if dir == ROOT then dir + base else dir + [SLASH] + base
  }

  /** What precedes a slash inside a valid path is a valid path, unless it is empty. */
  lemma PrefixValid(path: bytes, n: nat)
    requires ValidInodeName(path) && 0 < n < |path| && path[n] == SLASH
    ensures ValidInodeName(path[..n])
  {
    assert !DoubleSlashAt(path, n - 1);
    forall i: nat | i < n
      ensures !DoubleSlashAt(path[..n], i)
    {
      assert !DoubleSlashAt(path, i);
    }
  }

  /** Every valid path but the root is its directory joined with its last component, and both are valid. */
  lemma ParseThenJoin(path: bytes)
    requires ValidInodeName(path) && |path| >= 2
    ensures ValidInodeName(PathnameParse(path).dir) && ValidBase(PathnameParse(path).base)
    ensures Join(PathnameParse(path).dir, PathnameParse(path).base) == path
    ensures |PathnameParse(path).dir| < |path|
  {
    var ofs := AfterLastSlash(path, |path|);
    assert 0 < ofs < |path|;
    assert PathnameParse(path).base == path[ofs..];
    if ofs > 1 {
      PrefixValid(path, ofs - 1);
      hide ValidInodeName;
      assert path[..ofs - 1] + [SLASH] + path[ofs..] == path;
      assert path[..ofs - 1] != ROOT by {
        assert !DoubleSlashAt(path, 0);
      }
    }
  }

  /** Joining a valid directory and component gives a valid path that parses back to them. */
  lemma JoinThenParse(dir: bytes, base: bytes)
    requires ValidInodeName(dir) && ValidBase(base)
    ensures ValidInodeName(Join(dir, base)) && |Join(dir, base)| >= 2
    ensures PathnameParse(Join(dir, base)) == PathInfo(dir, base)
  {
    var path := Join(dir, base);
    var start := |path| - |base|;
    assert path[start..] == base;
    assert forall i | start <= i < |path| :: path[i] == base[i - start];
    var ofs := AfterLastSlash(path, |path|);
    assert path[start - 1] == SLASH;
    assert forall i | start <= i < |path| :: path[i] in base;
    assert ofs == start;
    if dir == ROOT {
      assert path[..1] == dir;
    } else {
      assert path[..start - 1] == dir;
    }
    forall i: nat | i < |path|
      ensures !DoubleSlashAt(path, i)
    {
      if i + 1 < |dir| {
        assert !DoubleSlashAt(dir, i);
      }
    }
  }

  /** So a path has one directory and one component only. */
  lemma JoinInjective(d: bytes, b: bytes, d': bytes, b': bytes)
    requires ValidInodeName(d) && ValidBase(b) && ValidInodeName(d') && ValidBase(b')
    requires Join(d, b) == Join(d', b')
    ensures d == d' && b == b'
  {
    JoinThenParse(d, b);
    JoinThenParse(d', b');
  }
}
