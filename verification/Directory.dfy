/** Directory data: a run of records, each a 16-bit little-endian name length, the name, and
    zero padding to a multiple of eight bytes.  The server edits it (cld/msg.c), the client
    walks it (lib/cldc.c). */
module Directory {
  import opened Bytes

  function Align8(n: nat): nat {
    (8 - n % 8) % 8
  }

  function RecordLen(strLen: nat): (n: nat)
    ensures n >= strLen + 2
  {
    strLen + 2 + Align8(strLen + 2)
  }

  /** The record appended for `name`; the stored length is truncated to 16 bits. */
  function Record(name: bytes): (r: bytes)
    ensures |r| == RecordLen(|name|)
  {
    [|name| % 0x100, (|name| / 0x100) % 0x100] + name + Zeros(Align8(|name| + 2))
  }

  /** A record takes the least multiple of eight bytes that holds the length field and the name; the name
      follows the field, whose low byte comes first, and the rest is zero. */
  lemma RecordLayout(name: bytes)
    ensures |Record(name)| % 8 == 0 && |name| + 2 <= |Record(name)| < |name| + 10
    ensures Record(name)[2..2 + |name|] == name
    ensures Record(name)[0] as int + 0x100 * Record(name)[1] as int == |name| % 0x1_0000
    ensures forall i | |name| + 2 <= i < |Record(name)| :: Record(name)[i] == 0
  {
  }

  /** The length field at offset `p`. */
  function StrLen(data: bytes, p: nat): (n: nat)
    requires p + 2 <= |data|
    ensures n < 0x10000
  {
    data[p] as int + 0x100 * data[p + 1] as int
  }

  predicate RecordAt(data: bytes, p: nat) {
    p + 2 <= |data| && p + RecordLen(StrLen(data, p)) <= |data|
  }

  function NameAt(data: bytes, p: nat): bytes
    requires RecordAt(data, p)
  {
    data[p + 2..p + 2 + StrLen(data, p)]
  }

  function NextAt(data: bytes, p: nat): (q: nat)
    requires RecordAt(data, p)
    ensures p < q <= |data|
  {
    p + RecordLen(StrLen(data, p))
  }

  /** What a buffer holds: the names of its leading whole records, and whether those
      records are all of it. */
  datatype Listing = Listing(names: seq<bytes>, whole: bool)

  function ParseFrom(data: bytes, p: nat): Listing
    requires p <= |data|
    decreases |data| - p
  {
    if p == |data| then Listing([], true)
    else if !RecordAt(data, p) then Listing([], false)
    else
      var rest := ParseFrom(data, NextAt(data, p));
      Listing([NameAt(data, p)] + rest.names, rest.whole)
  }

  function Parse(data: bytes): Listing {
    ParseFrom(data, 0)
  }

  /** Offset of the k-th record. */
  function Offset(data: bytes, p: nat, k: nat): (q: nat)
    requires p <= |data| && k <= |ParseFrom(data, p).names|
    ensures p <= q <= |data|
    decreases k
  {
    if k == 0 then p else Offset(data, NextAt(data, p), k - 1)
  }

  /** Index of the first `name` at or after `i`, or the length when there is none. */
  function IndexFrom(names: seq<bytes>, name: bytes, i: nat): (k: nat)
    requires i <= |names|
    ensures i <= k <= |names| && (k < |names| ==> names[k] == name)
    ensures forall j | i <= j < k :: names[j] != name
    decreases |names| - i
  {
    if i == |names| || names[i] == name then i else IndexFrom(names, name, i + 1)
  }

  function IndexOf(names: seq<bytes>, name: bytes): nat {
    IndexFrom(names, name, 0)
  }

  function Remove(names: seq<bytes>, k: nat): seq<bytes>
    requires k < |names|
  {
    names[..k] + names[k + 1..]
  }

  // ---------- How editing the bytes edits the listing ----------

  lemma SubSlice(a: bytes, p: nat, i: nat, j: nat)
    requires i <= j && p + j <= |a|
    ensures a[p..][i..j] == a[p + i..p + j]
  {
  }

  lemma SubTail(a: bytes, p: nat, i: nat)
    requires p + i <= |a|
    ensures a[p..][i..] == a[p + i..]
  {
  }

  /** Two buffers alike from p and from q on have the same record there. */
  lemma RecordShift(a: bytes, p: nat, b: bytes, q: nat)
    requires p < |a| && q < |b| && a[p..] == b[q..]
    ensures RecordAt(a, p) <==> RecordAt(b, q)
    ensures RecordAt(a, p) ==> NextAt(a, p) - p == NextAt(b, q) - q && NameAt(a, p) == NameAt(b, q)
  {
    assert |a| - p == |b| - q;
    assert a[p..][0] == b[q..][0];
    if |a| - p >= 2 {
      assert a[p..][1] == b[q..][1];
      assert StrLen(a, p) == StrLen(b, q);
      if RecordAt(a, p) {
        var n := StrLen(a, p);
        SubSlice(a, p, 2, 2 + n);
        SubSlice(b, q, 2, 2 + n);
      }
    }
  }

  lemma ParseOne(data: bytes, p: nat)
    requires p < |data|
    ensures RecordAt(data, p) ==>
      var rest := ParseFrom(data, NextAt(data, p));
      ParseFrom(data, p) == Listing([NameAt(data, p)] + rest.names, rest.whole)
    ensures !RecordAt(data, p) ==> ParseFrom(data, p) == Listing([], false)
  {
  }

  /** One record of both buffers. */
  lemma ShiftNext(a: bytes, p: nat, b: bytes, q: nat)
    requires p < |a| && q < |b| && a[p..] == b[q..]
    ensures RecordAt(a, p) ==>
      RecordAt(b, q) && NextAt(a, p) - p == NextAt(b, q) - q && a[NextAt(a, p)..] == b[NextAt(b, q)..]
    ensures RecordAt(a, p) && ParseFrom(a, NextAt(a, p)) == ParseFrom(b, NextAt(b, q)) ==>
      ParseFrom(a, p) == ParseFrom(b, q)
    ensures !RecordAt(a, p) ==> ParseFrom(a, p) == ParseFrom(b, q)
  {
    RecordShift(a, p, b, q);
    ParseOne(a, p);
    ParseOne(b, q);
    hide ParseFrom, RecordAt, NextAt, NameAt;
    if RecordAt(a, p) {
      SubTail(a, p, NextAt(a, p) - p);
      SubTail(b, q, NextAt(b, q) - q);
    }
  }

  /** A buffer read from `p` is what another buffer shows when both hold the same bytes from there. */
  lemma {:induction false} ParseShift(a: bytes, p: nat, b: bytes, q: nat)
    requires p <= |a| && q <= |b| && a[p..] == b[q..]
    ensures ParseFrom(a, p) == ParseFrom(b, q)
    decreases |a| - p
  {
    hide ParseFrom, RecordAt, NextAt;
    assert |a| - p == |a[p..]| == |b[q..]| == |b| - q;
    if p == |a| {
      EmptyRest(a, b);
    } else {
      ShiftNext(a, p, b, q);
      if RecordAt(a, p) {
        ParseShift(a, NextAt(a, p), b, NextAt(b, q));
      }
    }
  }

  lemma EmptyRest(a: bytes, b: bytes)
    ensures ParseFrom(a, |a|) == ParseFrom(b, |b|)
  {
  }

  /** Replacing everything after the k-th record keeps the first k names. */
  lemma {:induction false} ParseTail(data: bytes, p: nat, k: nat, tail: bytes)
    requires p <= |data| && k <= |ParseFrom(data, p).names|
    ensures ParseFrom(data[..Offset(data, p, k)] + tail, p) ==
      Listing(ParseFrom(data, p).names[..k] + Parse(tail).names, Parse(tail).whole)
    decreases k
  {
    var l := ParseFrom(data, p);
    var end := Offset(data, p, k);
    var edited := data[..end] + tail;
    if k == 0 {
      assert edited[p..] == tail == tail[0..];
      ParseShift(edited, p, tail, 0);
      assert l.names[..0] + Parse(tail).names == Parse(tail).names;
    } else {
      var q := NextAt(data, p);
      var rest := ParseFrom(data, q);
      ParseTail(data, q, k - 1, tail);
      SameRecord(data, edited, p);
      Regroup(NameAt(data, p), rest.names, k - 1, Parse(tail).names);
    }
  }

  lemma SameRecord(a: bytes, b: bytes, p: nat)
    requires RecordAt(a, p) && NextAt(a, p) <= |b|
    requires forall i | p <= i < NextAt(a, p) :: a[i] == b[i]
    ensures RecordAt(b, p) && NextAt(b, p) == NextAt(a, p) && NameAt(b, p) == NameAt(a, p)
  {
    assert StrLen(a, p) == StrLen(b, p);
  }

  lemma Regroup(name: bytes, names: seq<bytes>, k: nat, more: seq<bytes>)
    requires k <= |names|
    ensures [name] + (names[..k] + more) == ([name] + names)[..k + 1] + more
  {
  }

  /** The k-th record holds the k-th name, and the listing from there on is what remains. */
  lemma {:induction false} ParseAt(data: bytes, p: nat, k: nat)
    requires p <= |data| && k <= |ParseFrom(data, p).names|
    ensures ParseFrom(data, Offset(data, p, k)).names == ParseFrom(data, p).names[k..]
    ensures ParseFrom(data, Offset(data, p, k)).whole == ParseFrom(data, p).whole
    decreases k
  {
    var names := ParseFrom(data, p).names;
    if k == 0 {
      assert names[0..] == names;
    } else {
      ParseAt(data, NextAt(data, p), k - 1);
      assert names[k..] == names[1..][k - 1..];
    }
  }

  lemma {:induction false} OffsetStep(data: bytes, p: nat, k: nat)
    requires p <= |data| && k < |ParseFrom(data, p).names|
    ensures RecordAt(data, Offset(data, p, k))
    ensures Offset(data, p, k + 1) == NextAt(data, Offset(data, p, k))
    decreases k
  {
    if k > 0 {
      OffsetStep(data, NextAt(data, p), k - 1);
    }
  }

  /** At the k-th offset there is a record exactly when there is a k-th name. */
  lemma NthRecord(data: bytes, k: nat)
    requires k <= |Parse(data).names|
    ensures k < |Parse(data).names| <==> RecordAt(data, Offset(data, 0, k))
    ensures k < |Parse(data).names| ==>
      && Parse(data).names[k] == NameAt(data, Offset(data, 0, k))
      && Offset(data, 0, k + 1) == NextAt(data, Offset(data, 0, k))
    ensures k == |Parse(data).names| ==> (Parse(data).whole <==> Offset(data, 0, k) == |data|)
  {
    ParseAt(data, 0, k);
    if k < |Parse(data).names| {
      OffsetStep(data, 0, k);
    }
  }

  lemma {:induction false} WholeOffset(data: bytes, p: nat)
    requires p <= |data| && ParseFrom(data, p).whole
    ensures Offset(data, p, |ParseFrom(data, p).names|) == |data|
    decreases |data| - p
  {
    if p < |data| {
      WholeOffset(data, NextAt(data, p));
    }
  }

  lemma ParseRecord(name: bytes)
    requires |name| < 0x10000
    ensures Parse(Record(name)) == Listing([name], true)
  {
    var r := Record(name);
    assert StrLen(r, 0) == |name|;
    assert NameAt(r, 0) == name;
    assert ParseFrom(r, NextAt(r, 0)) == Listing([], true);
  }

  /** A length field has 16 bits, so no listed name is longer than it can say. */
  lemma {:induction false} ShortNames(data: bytes, p: nat)
    requires p <= |data|
    ensures forall n | n in ParseFrom(data, p).names :: |n| < 0x10000
    decreases |data| - p
  {
    if RecordAt(data, p) {
      ShortNames(data, NextAt(data, p));
    }
  }

  /** Appending a record appends the name to the listing, exactly when its length fits in 16 bits. */
  lemma AppendIsListAppend(data: bytes, name: bytes)
    requires Parse(data).whole
    ensures Parse(data + Record(name)) == Listing(Parse(data).names + [name], true) <==> |name| < 0x10000
  {
    if |name| < 0x10000 {
      ParseRecord(name);
      var names := Parse(data).names;
      ParseTail(data, 0, |names|, Record(name));
      WholeOffset(data, 0);
      assert data[..|data|] == data && names[..|names|] == names;
    } else {
      assert (Parse(data).names + [name])[|Parse(data).names|] == name;
      ShortNames(data + Record(name), 0);
    }
  }

  /** The buffer with its first record for `name` cut out. */
  function Cut(data: bytes, name: bytes): bytes
    requires name in Parse(data).names
  {
    var k := IndexOf(Parse(data).names, name);
    data[..Offset(data, 0, k)] + data[Offset(data, 0, k + 1)..]
  }

  /** Cutting out the first record for a name removes its first occurrence and nothing else. */
  lemma CutIsListRemove(data: bytes, name: bytes)
    requires name in Parse(data).names
    ensures Parse(Cut(data, name)) ==
      Listing(Remove(Parse(data).names, IndexOf(Parse(data).names, name)), Parse(data).whole)
  {
    var k := IndexOf(Parse(data).names, name);
    var tail := data[Offset(data, 0, k + 1)..];
    ParseTail(data, 0, k, tail);
    ParseAt(data, 0, k + 1);
    assert tail[0..] == tail;
    ParseShift(tail, 0, data, Offset(data, 0, k + 1));
  }

  // ---------- Whole records, stated without the parser ----------

  predicate IsRecord(r: bytes) {
    |r| >= 2 && |r| == RecordLen(StrLen(r, 0))
  }

  function Flatten(records: seq<bytes>): bytes {
    if records == [] then [] else records[0] + Flatten(records[1..])
  }

  ghost predicate SplitsInto(data: bytes, records: seq<bytes>) {
    && data == Flatten(records)
    && forall r | r in records :: IsRecord(r)
  }

  /** A buffer is a whole number of records exactly when the parser says so, and then the
      parser's count is the number of records. */
  lemma WholeIffSplits(data: bytes)
    ensures Parse(data).whole <==> exists records :: SplitsInto(data, records)
    ensures forall records | SplitsInto(data, records) :: |records| == |Parse(data).names|
  {
    forall records | SplitsInto(data, records)
      ensures Parse(data).whole && |records| == |Parse(data).names|
    {
      SplitsThenWhole(data, records);
    }
    if Parse(data).whole {
      var records := RecordsFrom(data, 0);
      assert data[0..] == data;
      assert SplitsInto(data, records);
    }
  }

  lemma {:induction false} SplitsThenWhole(data: bytes, records: seq<bytes>)
    requires SplitsInto(data, records)
    ensures Parse(data).whole && |records| == |Parse(data).names|
    decreases |records|
  {
    if records != [] {
      var r, rest := records[0], Flatten(records[1..]);
      assert IsRecord(r) && data == r + rest;
      SplitsThenWhole(rest, records[1..]);
      assert StrLen(data, 0) == StrLen(r, 0);
      assert data[|r|..] == rest == rest[0..];
      ParseShift(data, |r|, rest, 0);
    }
  }

  ghost function RecordsFrom(data: bytes, p: nat): (records: seq<bytes>)
    requires p <= |data| && ParseFrom(data, p).whole
    ensures SplitsInto(data[p..], records)
    decreases |data| - p
  {
    if p == |data| then []
    else
      var q := NextAt(data, p);
      assert data[p..] == data[p..q] + data[q..];
      [data[p..q]] + RecordsFrom(data, q)
  }

  // ---------- The server's operations (cld/msg.c) ----------

  const FOUND := 0
  const NOT_FOUND := -1
  const CORRUPT := -2

  /** On any bytes: the search finds the first record with that name among the leading whole
      records; without one it tells a clean end from a broken record. */
  method DirentFind(data: bytes, name: bytes) returns (rc: int, ofs: nat, entLen: nat)
    ensures rc == FOUND <==> name in Parse(data).names
    ensures rc == NOT_FOUND <==> name !in Parse(data).names && Parse(data).whole
    ensures rc == CORRUPT <==> name !in Parse(data).names && !Parse(data).whole
    ensures rc == FOUND ==> ofs == Offset(data, 0, IndexOf(Parse(data).names, name))
    ensures rc == FOUND ==> ofs + entLen == Offset(data, 0, IndexOf(Parse(data).names, name) + 1)
  {
    ghost var names := Parse(data).names;
    var p, tmpLen := 0, |data|;
    ghost var k := 0;
    while tmpLen > 0
      invariant 0 <= p && 0 <= tmpLen && p + tmpLen == |data|
      invariant k <= |names| && p == Offset(data, 0, k)
      invariant forall j | 0 <= j < k :: names[j] != name
    {
      NthRecord(data, k);
      if tmpLen < 2 {
        return CORRUPT, 0, 0;
      }
      var strLen := StrLen(data, p);
      var totalLen := RecordLen(strLen);
      if totalLen > tmpLen {
        return CORRUPT, 0, 0;
      }
      if |name| == strLen && data[p + 2..p + 2 + strLen] == name {
        return FOUND, p, totalLen;
      }
      p, tmpLen, k := p + totalLen, tmpLen - totalLen, k + 1;
    }
    NthRecord(data, k);
    return NOT_FOUND, 0, 0;
  }

  /** Removes the first record with that name, moving the rest down in place. */
  method DirdataDelete(data: array<byte>, dataLen: nat, name: bytes) returns (ok: bool, newLen: nat)
    requires dataLen <= data.Length
    modifies data
    ensures ok <==> name in Parse(old(data[..dataLen])).names
    ensures newLen <= dataLen
    ensures ok ==> data[..newLen] == Cut(old(data[..dataLen]), name)
    ensures !ok ==> newLen == dataLen && data[..] == old(data[..])
  {
    var rc, ofs, entLen := DirentFind(data[..dataLen], name);
    if rc != FOUND {
      return false, dataLen;
    }
    newLen := dataLen - entLen;
    MoveDown(data, ofs, entLen, dataLen);
    ok := true;
  }

  lemma CutAt(b: bytes, ofs: nat, n: nat, j: nat)
    requires ofs + n <= |b| && j < |b| - n
    ensures (b[..ofs] + b[ofs + n..])[j] == if j < ofs then b[j] else b[j + n]
  {
  }

  /** memmove of the bytes after the record over the record. */
  method MoveDown(data: array<byte>, ofs: nat, entLen: nat, dataLen: nat)
    requires ofs + entLen <= dataLen <= data.Length
    modifies data
    ensures data[..dataLen - entLen] == old(data[..dataLen])[..ofs] + old(data[..dataLen])[ofs + entLen..]
  {
    for i := ofs to dataLen - entLen
      invariant forall j | 0 <= j < ofs :: data[j] == old(data[j])
      invariant forall j | ofs <= j < i :: data[j] == old(data[j + entLen])
      invariant forall j | i + entLen <= j < dataLen :: data[j] == old(data[j])
    {
      data[i] := data[i + entLen];
    }
    ghost var was, newLen := old(data[..dataLen]), dataLen - entLen;
    forall j | 0 <= j < newLen
      ensures data[j] == (was[..ofs] + was[ofs + entLen..])[j]
    {
      CutAt(was, ofs, entLen, j);
    }
  }

  /** Grows the buffer by one record. */
  method DirdataAppend(data: array<byte>, dataLen: nat, name: bytes) returns (mem: array<byte>)
    requires dataLen <= data.Length
    ensures fresh(mem) && mem[..] == data[..dataLen] + Record(name)
  {
    var record := Record(name);
    mem := new byte[dataLen + |record|];
    for i := 0 to dataLen
      invariant forall j | 0 <= j < i :: mem[j] == data[j]
    {
      mem[i] := data[i];
    }
    for i := 0 to |record|
      invariant mem[..dataLen] == data[..dataLen]
      invariant forall j | 0 <= j < i :: mem[dataLen + j] == record[j]
    {
      mem[dataLen + i] := record[i];
    }
    assert mem[..] == data[..dataLen] + record;
  }

  // ---------- The client's operations (lib/cldc.c) ----------

  /** Counts records; on any bytes it fails exactly when they do not split into whole records. */
  method DirentCount(data: bytes) returns (count: int)
    ensures count >= 0 <==> exists records :: SplitsInto(data, records)
    ensures count < 0 ==> count == CORRUPT
    ensures forall records | SplitsInto(data, records) :: count == |records|
    ensures Parse(data).whole ==> count == |Parse(data).names|
  {
    WholeIffSplits(data);
    hide SplitsInto, NameAt;
    var p, tmpLen := 0, |data|;
    count := 0;
    while tmpLen > 0
      invariant 0 <= p && 0 <= tmpLen && p + tmpLen == |data| && 0 <= count
      invariant |Parse(data).names| == count + |ParseFrom(data, p).names|
      invariant Parse(data).whole == ParseFrom(data, p).whole
    {
      ParseOne(data, p);
      if tmpLen < 2 {
        return CORRUPT;
      }
      var totalLen := RecordLen(StrLen(data, p));
      if totalLen > tmpLen {
        return CORRUPT;
      }
      p, tmpLen, count := p + totalLen, tmpLen - totalLen, count + 1;
    }
  }

  /** The client's cursor over directory data. */
  class Cursor {
    const buf: bytes
    var p: nat
    var tmpLen: nat

    ghost predicate Valid()
      reads this
    {
      p + tmpLen == |buf|
    }

    /** The names not yet passed, the current one first. */
    ghost function Ahead(): seq<bytes>
      requires Valid()
      reads this
    {
      ParseFrom(buf, p).names
    }

    constructor (data: bytes)
      ensures Valid() && buf == data && Ahead() == Parse(data).names
    {
      buf, p, tmpLen := data, 0, |data|;
    }

    /** Length of the record under the cursor, or a negative value at the end or at a broken record. */
    method Length() returns (rc: int)
      requires Valid()
      ensures rc >= 0 <==> RecordAt(buf, p)
      ensures rc >= 0 ==> p + rc == NextAt(buf, p)
    {
      if tmpLen < 2 {
        return -1;
      }
      var totalLen := RecordLen(StrLen(buf, p));
      return if totalLen > tmpLen then -1 else totalLen;
    }

    method First() returns (rc: int)
      requires Valid()
      ensures rc == 0 <==> Ahead() != []
      ensures rc != 0 ==> rc == CORRUPT
    {
      var n := Length();
      return if n < 0 then CORRUPT else 0;
    }

    method Next() returns (rc: int)
      requires Valid()
      modifies this
      ensures Valid()
      ensures rc == 0 || rc == CORRUPT
      ensures old(Ahead()) == [] ==> rc == CORRUPT && Ahead() == []
      ensures old(Ahead()) != [] ==> Ahead() == old(Ahead())[1..] && (rc == 0 <==> Ahead() != [])
    {
      var n := Length();
      if n < 0 {
        return CORRUPT;
      }
      p, tmpLen := p + n, tmpLen - n;
      n := Length();
      return if n < 0 then CORRUPT else 0;
    }

    method Name() returns (s: bytes)
      requires Valid() && Ahead() != []
      ensures s == Ahead()[0]
    {
      s := buf[p + 2..p + 2 + StrLen(buf, p)];
    }
  }

  /** The ls command: count the records, list nothing if they are broken, else walk the cursor that many
      steps.  It lists exactly the names, in order, if and only if the data is whole records. */
  method ListNames(data: bytes) returns (ok: bool, names: seq<bytes>)
    ensures ok <==> Parse(data).whole
    ensures names == if ok then Parse(data).names else []
  {
    names := [];
    var count := DirentCount(data);
    CountIff(data);
    if count < 0 {
      return false, [];
    }
    ok := true;
    hide Parse, Cursor.Ahead, SplitsInto;
    var dc := new Cursor(data);
    ghost var all := Parse(data).names;
    var first := true;
    for i := 0 to count
      invariant dc.Valid() && (first <==> i == 0) && names == all[..i]
      invariant dc.Ahead() == all[if first then 0 else i - 1..]
    {
      Tails(all, i);
      var rc := Advance(dc, first);
      first := false;
      if rc < 0 {
        assert false;
        break;
      }
      var s := dc.Name();
      names := names + [s];
    }
  }

  lemma Tails(all: seq<bytes>, i: nat)
    requires i < |all|
    ensures all[i..] != [] && all[i..][0] == all[i] && all[..i] + [all[i]] == all[..i + 1]
    ensures i > 0 ==> all[i - 1..] != [] && all[i - 1..][1..] == all[i..]
  {
  }

  /** To the first name, or from one to the next. */
  method Advance(dc: Cursor, first: bool) returns (rc: int)
    requires dc.Valid() && (first || dc.Ahead() != [])
    modifies dc
    ensures dc.Valid() && (rc >= 0 <==> dc.Ahead() != [])
    ensures dc.Ahead() == if first then old(dc.Ahead()) else old(dc.Ahead())[1..]
  {
    hide Cursor.Ahead;
    if first {
      rc := dc.First();
    } else {
      rc := dc.Next();
    }
  }

  lemma CountIff(data: bytes)
    ensures (exists records :: SplitsInto(data, records)) <==> Parse(data).whole
  {
    WholeIffSplits(data);
  }
}
