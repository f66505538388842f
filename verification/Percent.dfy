/** Percent-encoding of URI fields (lib/huri.c; section 2.1 of RFC 3986). */
module Percent {
  import opened Bytes

  const PERCENT: byte := 0x25

  /** The escape table: which masks let a byte stand as it is. */
  function Table(c: byte): bv8 {
    if c == 0x2f || c == 0x40 then 0x0e
    else if c == 0x3f then 0x0c
    else if || c == 0x21 || c == 0x24 || 0x26 <= c <= 0x3b || c == 0x3d
            || 0x41 <= c <= 0x5a || c == 0x5c || c == 0x5f || 0x61 <= c <= 0x7a || c == 0x7e then 0x0f
    else 0x00
  }

  predicate Plain(c: byte, mask: bv8) {
    Table(c) & mask != 0
  }

  function HexDigit(n: nat): byte
    requires n < 16
  {
    if n < 10 then n + 0x30 else n + 0x61 - 10
  }

  predicate IsHex(c: byte) {
    0x61 <= c <= 0x66 || 0x41 <= c <= 0x46 || 0x30 <= c <= 0x39
  }

  function HexValue(c: byte): (n: nat)
    requires IsHex(c)
    ensures n < 16
  {
    if 0x61 <= c <= 0x66 then c - 0x61 + 10 else if 0x41 <= c <= 0x46 then c - 0x41 + 10 else c - 0x30
  }

  function HexPair(high: byte, low: byte): byte
    requires IsHex(high) && IsHex(low)
  {
    HexValue(high) * 16 + HexValue(low)
  }

  function EncodeByte(c: byte, mask: bv8): bytes {
    if Plain(c, mask) then [c] else [PERCENT, HexDigit(c / 16), HexDigit(c % 16)]
  }

  /** The encoding of the first n bytes. */
  function EncodeTo(s: bytes, mask: bv8, n: nat): bytes
    requires n <= |s|
  {
    if n == 0 then [] else EncodeTo(s, mask, n - 1) + EncodeByte(s[n - 1], mask)
  }

  function Encode(s: bytes, mask: bv8): bytes {
    EncodeTo(s, mask, |s|)
  }

  /** An escape starts at i: a percent sign and two hex digits, all within the field. */
  predicate EscapeAt(s: bytes, i: nat)
    requires i < |s|
  {
    s[i] == PERCENT && |s| - i > 2 && IsHex(s[i + 1]) && IsHex(s[i + 2])
  }

  /** Decoding from position i on; anything that is no escape stands for itself. */
  function DecodeFrom(s: bytes, i: nat): bytes
    requires i <= |s|
    decreases |s| - i
  {
    if i == |s| then []
    else if EscapeAt(s, i) then [HexPair(s[i + 1], s[i + 2])] + DecodeFrom(s, i + 3)
    else [s[i]] + DecodeFrom(s, i + 1)
  }

  function Decode(s: bytes): bytes {
    DecodeFrom(s, 0)
  }

  // ---------- Round trip ----------

  lemma PercentNeverPlain(mask: bv8)
    ensures !Plain(PERCENT, mask)
  {
  }

  lemma HexRoundTrip(n: nat)
    requires n < 16
    ensures IsHex(HexDigit(n)) && HexValue(HexDigit(n)) == n
  {
  }

  /** One encoded byte, wherever it stands, is decoded to itself. */
  lemma DecodeByte(t: bytes, i: nat, c: byte, mask: bv8)
    requires i + |EncodeByte(c, mask)| <= |t| && t[i..i + |EncodeByte(c, mask)|] == EncodeByte(c, mask)
    ensures DecodeFrom(t, i) == [c] + DecodeFrom(t, i + |EncodeByte(c, mask)|)
  {
    var e := EncodeByte(c, mask);
    assert t[i] == e[0];
    if Plain(c, mask) {
      PercentNeverPlain(mask);
    } else {
      HexRoundTrip(c / 16);
      HexRoundTrip(c % 16);
      assert t[i + 1] == e[1] && t[i + 2] == e[2];
    }
  }

  lemma {:induction false} DecodeShift(t: bytes, k: nat, u: bytes, i: nat)
    requires k <= |t| && u == t[k..] && i <= |u|
    ensures DecodeFrom(t, k + i) == DecodeFrom(u, i)
    decreases |u| - i
  {
    if i < |u| {
      assert EscapeAt(t, k + i) <==> EscapeAt(u, i);
      DecodeShift(t, k, u, i + if EscapeAt(u, i) then 3 else 1);
    }
  }

  lemma DecodeSuffix(t: bytes, k: nat, u: bytes)
    requires k <= |t| && u == t[k..]
    ensures DecodeFrom(t, k) == Decode(u)
  {
    DecodeShift(t, k, u, 0);
  }

  lemma DecodeFirst(c: byte, mask: bv8, rest: bytes)
    ensures Decode(EncodeByte(c, mask) + rest) == [c] + Decode(rest)
  {
    var e := EncodeByte(c, mask);
    DecodeByte(e + rest, 0, c, mask);
    DecodeSuffix(e + rest, |e|, rest);
  }

  /** Decoding gives an encoded field back whatever text follows it, so that encoded fields can be
      joined. */
  lemma {:induction false} DecodeEncodeThen(s: bytes, mask: bv8, n: nat, rest: bytes)
    requires n <= |s|
    ensures Decode(EncodeTo(s, mask, n) + rest) == s[..n] + Decode(rest)
  {
    hide Decode, EncodeByte;
    if n == 0 {
      assert [] + rest == rest && s[..0] + Decode(rest) == Decode(rest);
    } else {
      var e := EncodeByte(s[n - 1], mask);
      assert EncodeTo(s, mask, n) + rest == EncodeTo(s, mask, n - 1) + (e + rest);
      DecodeEncodeThen(s, mask, n - 1, e + rest);
      DecodeFirst(s[n - 1], mask, rest);
      assert s[..n - 1] + ([s[n - 1]] + Decode(rest)) == s[..n] + Decode(rest);
    }
  }

  /** Decoding undoes encoding, for every field and every mask. */
  lemma RoundTrip(s: bytes, mask: bv8)
    ensures Decode(Encode(s, mask)) == s
  {
    DecodeEncodeThen(s, mask, |s|, []);
    assert Encode(s, mask) + [] == Encode(s, mask) && s[..|s|] + [] == s;
  }

  // ---------- What comes out ----------

  /** The characters RFC 3986 lets a URI consist of. */
  predicate UriChar(c: byte) {
    || 0x41 <= c <= 0x5a || 0x61 <= c <= 0x7a || 0x30 <= c <= 0x39
    || c in [0x2d, 0x2e, 0x5f, 0x7e]
    || c in [0x3a, 0x2f, 0x3f, 0x23, 0x5b, 0x5d, 0x40]
    || c in [0x21, 0x24, 0x26, 0x27, 0x28, 0x29, 0x2a, 0x2b, 0x2c, 0x3b, 0x3d]
    || c == PERCENT
  }

  predicate UriText(s: bytes) {
    forall i | 0 <= i < |s| :: UriChar(s[i])
  }

  const BACKSLASH: byte := 0x5c

  /** Which bytes stand: under bit 0, the characters of RFC 3986 but percent, number sign, brackets, slash, at and
      question mark, and the backslash; bit 1 adds slash and at, bits 2 and 3 the question mark too; the other
      bits nothing. */
  lemma PlainIff(c: byte, mask: bv8)
    ensures Plain(c, mask) <==>
      var base := (UriChar(c) && c !in [PERCENT, 0x23, 0x5b, 0x5d, 0x2f, 0x40, 0x3f]) || c == BACKSLASH;
      || (base && mask & 0x0f != 0)
      || (c in [0x2f, 0x40] && mask & 0x0e != 0)
      || (c == 0x3f && mask & 0x0c != 0)
  {
    assert Table(c) & mask == mask & Table(c);
    PlainTable(c);
  }

  lemma PlainTable(c: byte)
    ensures Table(c) ==
      if (UriChar(c) && c !in [PERCENT, 0x23, 0x5b, 0x5d, 0x2f, 0x40, 0x3f]) || c == BACKSLASH then 0x0f
      else if c in [0x2f, 0x40] then 0x0e else if c == 0x3f then 0x0c else 0
  {
  }

  /** An escaped byte is a percent sign and its two hex digits, in lower case. */
  lemma EscapeForm(c: byte, mask: bv8)
    requires !Plain(c, mask)
    ensures EncodeByte(c, mask) ==
      [0x25, LOWER_HEX[c / 16], LOWER_HEX[c % 16]]
  {
  }

  const LOWER_HEX: bytes :=
    [0x30, 0x31, 0x32, 0x33, 0x34, 0x35, 0x36, 0x37, 0x38, 0x39, 0x61, 0x62, 0x63, 0x64, 0x65, 0x66]

  /** Decoding, piece by piece: an escape, in digits of either case, is its byte; anything else stands for
      itself. */
  lemma DecodePiece(s: bytes)
    requires s != []
    ensures Decode(s) ==
      if s[0] == 0x25 && |s| >= 3 && IsHex(s[1]) && IsHex(s[2])
      then [16 * HexValue(s[1]) + HexValue(s[2])] + Decode(s[3..])
      else [s[0]] + Decode(s[1..])
  {
    if EscapeAt(s, 0) {
      DecodeSuffix(s, 3, s[3..]);
    } else {
      DecodeSuffix(s, 1, s[1..]);
    }
  }

  lemma PlainChars(c: byte, mask: bv8)
    ensures UriText(EncodeByte(c, mask)) <==> c != BACKSLASH || 0x0f & mask == 0
  {
    var e := EncodeByte(c, mask);
    if Plain(c, mask) {
      assert UriText(e) <==> UriChar(e[0]);
    } else {
      assert e[1] == HexDigit(c / 16) && e[2] == HexDigit(c % 16);
    }
  }

  /** The output holds only characters of RFC 3986 exactly when the field has no backslash, or the mask
      lets nothing stand: the table takes a backslash for a plain character. */
  lemma {:induction false} EncodedAlphabet(s: bytes, mask: bv8, n: nat)
    requires n <= |s|
    ensures UriText(EncodeTo(s, mask, n)) <==> BACKSLASH !in s[..n] || 0x0f & mask == 0
  {
    if n > 0 {
      EncodedAlphabet(s, mask, n - 1);
      PlainChars(s[n - 1], mask);
      assert s[..n] == s[..n - 1] + [s[n - 1]];
      TextJoin(EncodeTo(s, mask, n - 1), EncodeByte(s[n - 1], mask));
    }
  }

  lemma TextJoin(a: bytes, b: bytes)
    ensures UriText(a + b) <==> UriText(a) && UriText(b)
  {
    assert UriText(a + b) ==> UriText(a) by {
      assert forall i | 0 <= i < |a| :: (a + b)[i] == a[i];
    }
    assert UriText(a + b) ==> UriText(b) by {
      assert forall i | 0 <= i < |b| :: (a + b)[|a| + i] == b[i];
    }
  }

  // ---------- The program ----------

  lemma Regroup(done: bytes, c: byte, rest: bytes)
    ensures done + ([c] + rest) == done + [c] + rest
  {
  }

  /** The body of the loop below: one byte of output. */
  method UnescapeOne(a: array<byte>, len: nat, src: nat, dst: nat, ghost s: bytes) returns (next: nat)
    requires dst <= src < len <= a.Length && len == |s| && forall i | src <= i < len :: a[i] == s[i]
    modifies a
    ensures src < next <= len && DecodeFrom(s, src) == [a[dst]] + DecodeFrom(s, next)
    ensures forall i | 0 <= i < a.Length && i != dst :: a[i] == old(a[i])
  {
    assert a[src] == s[src] && (len - src > 2 ==> a[src + 1] == s[src + 1] && a[src + 2] == s[src + 2]);
    if a[src] == PERCENT && len - src > 2 && IsHex(a[src + 1]) && IsHex(a[src + 2]) {
      a[dst] := HexPair(a[src + 1], a[src + 2]);
      next := src + 3;
    } else {
      if dst != src {
        a[dst] := a[src];
      }
      next := src + 1;
    }
  }

  /** huri_field_unescape: the first `len` bytes are decoded in place. */
  method Unescape(a: array<byte>, len: nat) returns (dst: nat)
    requires len <= a.Length
    modifies a
    ensures dst <= len && a[..dst] == Decode(old(a[..len]))
    ensures forall i | dst <= i < a.Length :: a[i] == old(a[i])
  {
    ghost var s := a[..len];
    assert [] + DecodeFrom(s, 0) == DecodeFrom(s, 0);
    var src := 0;
    dst := 0;
    while src < len
      invariant dst <= src <= len
      invariant a[..dst] + DecodeFrom(s, src) == Decode(s)
      invariant forall i | dst <= i < a.Length :: a[i] == old(a[i])
    {
      ghost var done, rest := a[..dst], DecodeFrom(s, src);
      src := UnescapeOne(a, len, src, dst, s);
      dst := dst + 1;
      assert a[..dst] == done + [a[dst - 1]];
      Regroup(done, a[dst - 1], DecodeFrom(s, src));
    }
  }

  function EncodedLen(s: bytes, mask: bv8, n: nat): nat
    requires n <= |s|
  {
    |EncodeTo(s, mask, n)|
  }

  lemma {:induction false} LenGrows(s: bytes, mask: bv8, m: nat, n: nat)
    requires m <= n <= |s|
    ensures EncodedLen(s, mask, m) <= EncodedLen(s, mask, n)
  {
    if m < n {
      LenGrows(s, mask, m, n - 1);
    }
  }

  /** The first pass of huri_field_escape: the size of the output, and whether anything is escaped. */
  method Measure(str: bytes, mask: bv8) returns (len: nat, mustEscape: bool)
    ensures len == |Encode(str, mask)|
    ensures !mustEscape ==> Encode(str, mask) == str
  {
    len, mustEscape := 0, false;
    for i := 0 to |str|
      invariant len == EncodedLen(str, mask, i)
      invariant !mustEscape ==> EncodeTo(str, mask, i) == str[..i]
    {
      assert str[..i + 1] == str[..i] + [str[i]];
      if Plain(str[i], mask) {
        len := len + 1;
      } else {
        len := len + 3;
        mustEscape := true;
      }
    }
    assert str[..|str|] == str;
  }

  /** The body of the second pass: one byte of input. */
  method EscapeOne(dst: array<byte>, j: nat, c: byte, mask: bv8) returns (next: nat)
    requires j + |EncodeByte(c, mask)| <= dst.Length
    modifies dst
    ensures next == j + |EncodeByte(c, mask)| && dst[..next] == old(dst[..j]) + EncodeByte(c, mask)
  {
    if Plain(c, mask) {
      dst[j] := c;
      next := j + 1;
    } else {
      dst[j] := PERCENT;
      dst[j + 1] := if c / 16 < 10 then c / 16 + 0x30 else c / 16 + 0x61 - 10;
      dst[j + 2] := if c % 16 < 10 then c % 16 + 0x30 else c % 16 + 0x61 - 10;
      next := j + 3;
    }
  }

  /** huri_field_escape of a string given without its terminator; the result has one. */
  method Escape(str: bytes, mask: bv8) returns (dst: array<byte>)
    ensures fresh(dst) && dst[..] == Encode(str, mask) + [0]
  {
    var len, mustEscape := Measure(str, mask);
    if !mustEscape {
      dst := new byte[|str| + 1](i => if 0 <= i < |str| then str[i] else 0);
      assert dst[..] == str + [0];
      return;
    }
    dst := new byte[len + 1](_ => 0);
    var j := 0;
    for i := 0 to |str|
      invariant j == EncodedLen(str, mask, i) <= len && dst.Length == len + 1
      invariant dst[..j] == EncodeTo(str, mask, i)
    {
      LenGrows(str, mask, i + 1, |str|);
      j := EscapeOne(dst, j, str[i], mask);
    }
    dst[j] := 0;
    assert dst[..] == dst[..j] + [0];
  }
}
