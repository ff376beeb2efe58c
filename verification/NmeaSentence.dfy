/**
 NMEA sentences as the gateway library tells them (third-party/libloragw/src/loragw_gps.c): a text from
 '$' to '*' followed by its exclusive or as two hexadecimal digits.
 */
module NmeaSentence {
  import opened Bytes

  const NMEA_SYNC := 0x24
  const STAR := 0x2A
  const LF := 0x0A
  const CR := 0x0D
  const MIN_SIZE := 8
  const MAX_SIZE := 255

  /** Index of the first `c`, or the length. */
  function Find(w: seq<Byte>, c: Byte): (k: nat)
    ensures k <= |w|
    ensures forall i :: 0 <= i < k ==> w[i] != c
    ensures k < |w| ==> w[k] == c
  {
    if w == [] then 0 else if w[0] == c then 0 else 1 + Find(w[1..], c)
  }

  predicate Free(w: seq<Byte>, c: Byte) {
    forall i :: 0 <= i < |w| ==> w[i] != c
  }

  lemma FindIs(w: seq<Byte>, c: Byte, k: nat)
    requires k <= |w| && (k < |w| ==> w[k] == c) && Free(w[..k], c)
    ensures Find(w, c) == k
  {
    assert forall i :: 0 <= i < k ==> w[..k][i] == w[i];
  }

  function XorAll(s: seq<Byte>): Byte {
    if s == [] then 0 else XorByte(XorAll(s[..|s| - 1]), s[|s| - 1])
  }

  lemma {:induction false} XorOfJoined(a: seq<Byte>, b: seq<Byte>)
    ensures XorAll(a + b) == Xor(XorAll(a), XorAll(b))
  {
    if b == [] {
      assert a + b == a;
      XorZero(XorAll(a));
    } else {
      var n := |b| - 1;
      assert (a + b)[..|a + b| - 1] == a + b[..n];
      XorOfJoined(a, b[..n]);
      XorAssoc(XorAll(a), XorAll(b[..n]), b[n]);
    }
  }

  lemma XorOfOne(x: Byte)
    ensures XorAll([x]) == x
  {
    ZeroXor(x);
    assert [x][..0] == [];
  }

  /** `nibble_to_hexchar`; the digits are upper case. */
  function HexChar(a: nat): Byte
    requires a < 16
  {
    if a < 10 then 0x30 + a else 0x41 + (a - 10)
  }

  lemma HexCharIs(a: nat)
    requires a < 16
    ensures HexChar(a) as char == "0123456789ABCDEF"[a]
  {}

  lemma HexCharsTell(a: Byte, b: Byte)
    requires HexChar(a / 16) == HexChar(b / 16) && HexChar(a % 16) == HexChar(b % 16)
    ensures a == b
  {}

  /** Position behind the '*', and the digits that belong there. */
  datatype Checksum = NoChecksum | Checksum(index: nat, high: Byte, low: Byte)

  function ChecksumFrom(w: seq<Byte>, from: nat): Checksum
    requires from <= |w|
  {
    var k := from + Find(w[from..], STAR);
    if k == |w| then NoChecksum
    else Checksum(k + 1, HexChar(XorAll(w[from..k]) / 16), HexChar(XorAll(w[from..k]) % 16))
  }

  /** What `nmea_checksum` answers: a leading '$' is left out. */
  function ChecksumOf(w: seq<Byte>): Checksum {
    if |w| <= 1 then NoChecksum else ChecksumFrom(w, if w[0] == NMEA_SYNC then 1 else 0)
  }

  method NmeaChecksum(w: seq<Byte>) returns (c: Checksum)
    ensures c == ChecksumOf(w)
  {
    if |w| <= 1 { return NoChecksum; }
    var i, check: Byte := 0, 0;
    if w[0] == NMEA_SYNC { i := 1; }
    ghost var from := i;
    while w[i] != STAR
      invariant from <= i < |w| && Free(w[from..i], STAR) && check == XorAll(w[from..i])
      decreases |w| - i
    {
      TextGrows(w, from, i);
      check := XorByte(check, w[i]);
      i := i + 1;
      if i >= |w| {
        NoStar(w, from);
        return NoChecksum;
      }
    }
    FirstStar(w, from, i);
    return Checksum(i + 1, HexChar(check / 16), HexChar(check % 16));
  }

  lemma TextGrows(w: seq<Byte>, from: nat, i: nat)
    requires from <= i < |w| && Free(w[from..i], STAR) && w[i] != STAR
    ensures Free(w[from..i + 1], STAR) && XorAll(w[from..i + 1]) == XorByte(XorAll(w[from..i]), w[i])
  {
    assert w[from..i + 1] == w[from..i] + [w[i]];
    assert w[from..i + 1][..i - from] == w[from..i];
  }

  lemma NoStar(w: seq<Byte>, from: nat)
    requires from <= |w| && Free(w[from..|w|], STAR)
    ensures ChecksumFrom(w, from) == NoChecksum
  {
    assert w[from..] == w[from..|w|];
  }

  lemma FirstStar(w: seq<Byte>, from: nat, i: nat)
    requires from <= i < |w| && Free(w[from..i], STAR) && w[i] == STAR
    ensures Find(w[from..], STAR) == i - from
  {
    assert w[from..][..i - from] == w[from..i];
    FindIs(w[from..], STAR, i - from);
  }

  /** `validate_nmea_checksum`. */
  predicate ValidChecksum(w: seq<Byte>) {
    var c := ChecksumOf(w);
    c.Checksum? && c.index < |w| - 2 && w[c.index] == c.high && w[c.index + 1] == c.low
  }

  /** The sentences that `lgw_parse_nmea` calls neither unknown nor invalid. */
  predicate ValidNmea(w: seq<Byte>) {
    MIN_SIZE <= |w| <= MAX_SIZE && ValidChecksum(w)
  }

  // ---------- which sentences are valid ----------

  /** A sentence: '$', a text, '*', the two digits of the text's exclusive or, and what follows. */
  function Sentence(text: seq<Byte>, rest: seq<Byte>): seq<Byte> {
    ['$' as int] + text + ['*' as int, HexChar(XorAll(text) / 16), HexChar(XorAll(text) % 16)] + rest
  }

  /** Something follows the digits, and the size is in range. */
  predicate Fits(text: seq<Byte>, rest: seq<Byte>) {
    Free(text, '*' as int) && rest != [] && 8 <= |text| + 4 + |rest| <= 255
  }

  lemma ChecksumBehind(w: seq<Byte>, text: seq<Byte>)
    requires |text| + 2 <= |w| && w[0] == NMEA_SYNC && w[1..1 + |text|] == text && w[1 + |text|] == STAR
    requires Free(text, STAR)
    ensures ChecksumOf(w) == Checksum(|text| + 2, HexChar(XorAll(text) / 16), HexChar(XorAll(text) % 16))
  {
    FirstStar(w, 1, 1 + |text|);
  }

  lemma SentenceValid(text: seq<Byte>, rest: seq<Byte>)
    requires Fits(text, rest)
    ensures ValidNmea(Sentence(text, rest))
  {
    var w := Sentence(text, rest);
    assert w[1..1 + |text|] == text;
    ChecksumBehind(w, text);
  }

  lemma OnlySentences(w: seq<Byte>)
    requires ValidNmea(w) && w[0] == NMEA_SYNC
    ensures exists text: seq<Byte>, rest: seq<Byte> :: Fits(text, rest) && w == Sentence(text, rest)
  {
    var k := 1 + Find(w[1..], STAR);
    var text, rest := w[1..k], w[k + 3..];
    assert forall i :: 0 <= i < |text| ==> text[i] == w[1..][i];
    assert Fits(text, rest);
    assert w == [w[0]] + text + [w[k], w[k + 1], w[k + 2]] + rest;
    assert w == Sentence(text, rest);
  }

  /** One damaged byte of the text is noticed, unless it turns into a '*'. */
  lemma DamageIsNoticed(text: seq<Byte>, rest: seq<Byte>, i: nat, x: Byte)
    requires Fits(text, rest) && i < |text| && x != text[i] && x != STAR
    ensures !ValidNmea(Sentence(text, rest)[i + 1 := x])
  {
    var w, bad := Sentence(text, rest)[i + 1 := x], text[i := x];
    assert w[1..1 + |text|] == bad;
    ChecksumBehind(w, bad);
    XorChanges(text, i, x);
    if ValidNmea(w) { HexCharsTell(XorAll(bad), XorAll(text)); }
  }

  lemma {:induction false} XorChanges(s: seq<Byte>, i: nat, x: Byte)
    requires i < |s| && x != s[i]
    ensures XorAll(s[i := x]) != XorAll(s)
  {
    var n, t := |s| - 1, s[i := x];
    if i == n {
      assert t[..n] == s[..n];
      if XorAll(t) == XorAll(s) { XorCancels(XorAll(s[..n]), x, s[n]); }
    } else {
      assert t[..n] == s[..n][i := x];
      XorChanges(s[..n], i, x);
      XorTwice(XorAll(t[..n]), s[n]);
      XorTwice(XorAll(s[..n]), s[n]);
    }
  }
}
