/**
 Identity properties as text (lorawan-string.cpp): what is printed for each value stored in memory,
 and what is read back.  Bytes are in the memory order of a little-endian host.
 */
module ValueText {
  import opened Bytes
  import opened TextCodec

  // ---------- C strings ----------

  /** What a C function sees of a string: the part in front of the first NUL. */
  function CStr(s: string): (t: string)
    ensures |t| <= |s|
  {
    if s == [] || s[0] == '\0' then [] else [s[0]] + CStr(s[1..])
  }

  lemma {:induction false} CStrWhole(s: string)
    requires '\0' !in s
    ensures CStr(s) == s
  {
    if s != [] { CStrWhole(s[1..]); }
  }

  predicate NoSpaces(s: string) {
    forall i :: 0 <= i < |s| ==> !IsSpace(s[i])
  }

  // ---------- addresses and identifiers ----------

  /** `DEVADDR2string`, `DEVEUI2string`: most significant byte first. */
  function NumberText(data: seq<Byte>): string { HexString(ReverseBytes(data)) }

  function ParseNumber(s: string, n: nat): (data: seq<Byte>)
    ensures |data| == n
  {
    ToLittleEndian(StrToUnsigned16(s), n)
  }

  // ---------- nonces ----------

  /** `string2JOINNONCE` (three bytes), `string2DEVNONCE` (two): most significant byte in front. */
  function ParseNonce(v: int, n: nat): (data: seq<Byte>)
    ensures |data| == n
  {
    ReverseBytes(ToLittleEndian(v, n))
  }

  lemma BigEndianStored(data: seq<Byte>)
    ensures ParseNonce(BigEndian(data, 0), |data|) == data
  {
    var r := ReverseBytes(data);
    ReverseReverse(data);
    SwappedBigEndian(r);
    StoredBack(r);
  }

  lemma NonceValue(data: seq<Byte>)
    requires |data| <= 3
    ensures StrToUnsigned16(HexString(data)) == StrToSigned16(HexString(data)) == BigEndian(data, 0)
  {
    HexReadBack(data);
    ReverseReverse(data);
    SwappedBigEndian(ReverseBytes(data));
    LittleEndianBound(ReverseBytes(data), Power256(|data|));
    SmallPower(|data|);
    InRange(HexString(data), BigEndian(data, 0));
  }

  lemma SmallPower(n: nat)
    requires n <= 3
    ensures Power256(n) <= 0x100_0000
  {
    match n { case 0 => case 1 => case 2 => case _ => assert Power256(2) == 0x1_0000; }
  }

  lemma NonceRoundTrip(data: seq<Byte>)
    requires |data| <= 3
    ensures ParseNonce(StrToUnsigned16(HexString(data)), |data|) == data
    ensures ParseNonce(StrToSigned16(HexString(data)), |data|) == data
  {
    NonceValue(data);
    BigEndianStored(data);
  }

  // ---------- keys ----------

  const KEY_SIZE := 16

  /** A byte for each pair of characters, at most `room`; a single last character is ignored. */
  function Pairs(pair: (char, char) -> Byte, s: string, room: nat): (data: seq<Byte>)
    ensures |data| <= room
  {
    if room == 0 || |s| < 2 then [] else [pair(s[0], s[1])] + Pairs(pair, s[2..], room - 1)
  }

  /** The byte `strtol` makes of two characters. */
  function PairByte(c: char, d: char): Byte { StrToSigned16([c, d]) % 256 }

  /** The bytes `string2KEY` writes. */
  function KeyBytes(s: string, room: nat): (data: seq<Byte>)
    ensures |data| <= room
  {
    Pairs(PairByte, s, room)
  }

  /** New bytes in front of what was there. */
  function Overwrite(prev: seq<Byte>, data: seq<Byte>): (r: seq<Byte>)
    ensures |data| <= |prev| ==> |r| == |prev|
  {
    if |data| <= |prev| then data + prev[|data|..] else data
  }

  function ParseKey(prev: seq<Byte>, s: string): (data: seq<Byte>)
    requires |prev| == KEY_SIZE
    ensures |data| == KEY_SIZE
  {
    Overwrite(prev, KeyBytes(CStr(s), KEY_SIZE))
  }

  lemma NextPair(pair: (char, char) -> Byte, s: string, p: nat, room: nat)
    requires p <= |s|
    ensures p + 1 >= |s| || room == 0 ==> Pairs(pair, s[p..], room) == []
    ensures p + 1 < |s| && room > 0 ==>
              Pairs(pair, s[p..], room) == [pair(s[p], s[p + 1])] + Pairs(pair, s[p + 2..], room - 1)
  {
    if p + 1 < |s| && room > 0 { assert s[p..][2..] == s[p + 2..]; }
  }

  /** `written` is what the pairs in front of `p` spell; it stands in front of the old bytes. */
  predicate KeyAt(pair: (char, char) -> Byte, prev: seq<Byte>, str: string, key: seq<Byte>, written: seq<Byte>, p: nat)
    requires |prev| == KEY_SIZE
  {
    && p <= |str| && |written| <= KEY_SIZE
    && Pairs(pair, str, KEY_SIZE) == written + Pairs(pair, str[p..], KEY_SIZE - |written|)
    && key == written + prev[|written|..]
  }

  lemma KeyNext(pair: (char, char) -> Byte, prev: seq<Byte>, str: string, key: seq<Byte>, written: seq<Byte>, p: nat)
    requires |prev| == KEY_SIZE && KeyAt(pair, prev, str, key, written, p) && |written| < KEY_SIZE && p + 1 < |str|
    ensures |key| == KEY_SIZE
    ensures KeyAt(pair, prev, str, key[|written| := pair(str[p], str[p + 1])],
                  written + [pair(str[p], str[p + 1])], p + 2)
  {
    var b := pair(str[p], str[p + 1]);
    NextPair(pair, str, p, KEY_SIZE - |written|);
    PutNext(prev, written, b);
    var rest := Pairs(pair, str[p + 2..], KEY_SIZE - |written| - 1);
    assert written + ([b] + rest) == (written + [b]) + rest;
  }

  lemma KeyDone(pair: (char, char) -> Byte, prev: seq<Byte>, str: string, key: seq<Byte>, written: seq<Byte>, p: nat)
    requires |prev| == KEY_SIZE && KeyAt(pair, prev, str, key, written, p)
    requires p + 1 >= |str| || |written| == KEY_SIZE
    ensures key == Overwrite(prev, Pairs(pair, str, KEY_SIZE))
  {
    NextPair(pair, str, p, KEY_SIZE - |written|);
  }

  /** The loop of `string2KEY`, for any reading of two characters. */
  method WriteKey(pair: (char, char) -> Byte, prev: seq<Byte>, str: string) returns (key: seq<Byte>)
    requires |prev| == KEY_SIZE
    ensures key == Overwrite(prev, Pairs(pair, str, KEY_SIZE))
  {
    key := prev;
    var p, i := 0, 0;
    ghost var written: seq<Byte> := [];
    assert str[0..] == str;
    while p < |str|
      invariant 0 <= p <= |str| && i == |written| < KEY_SIZE == |key|
      invariant KeyAt(pair, prev, str, key, written, p)
    {
      var c := str[p];
      if p + 1 == |str| {
        KeyDone(pair, prev, str, key, written, p);
        return;
      }
      var b := pair(c, str[p + 1]);
      KeyNext(pair, prev, str, key, written, p);
      key := key[i := b];
      written := written + [b];
      i := i + 1;
      p := p + 2;
      if i > 15 { break; }
    }
    KeyDone(pair, prev, str, key, written, p);
  }

  /** `string2KEY`. */
  method StringToKey(prev: seq<Byte>, s: string) returns (key: seq<Byte>)
    requires |prev| == KEY_SIZE
    ensures key == ParseKey(prev, s)
  {
    key := WriteKey(PairByte, prev, CStr(s));
  }

  lemma PutNext(prev: seq<Byte>, data: seq<Byte>, b: Byte)
    requires |data| < |prev|
    ensures (data + prev[|data|..])[|data| := b] == (data + [b]) + prev[|data| + 1..]
  {}

  lemma PairValue(b: Byte)
    ensures PairByte(HexDigit(b / 16), HexDigit(b % 16)) == b
  {
    assert HexString([b]) == [HexDigit(b / 16), HexDigit(b % 16)] + HexString([b][1..]);
    assert HexString([b]) == [HexDigit(b / 16), HexDigit(b % 16)];
    NonceValue([b]);
    OneByte(b);
  }

  lemma OneByte(b: Byte)
    ensures BigEndian([b], 0) == b
  {
    assert BigEndian([b][1..], b) == b;
  }

  /** `pair` reads the two digits of `b` as `b`. */
  predicate Spells(pair: (char, char) -> Byte, b: Byte) {
    pair(HexDigit(b / 16), HexDigit(b % 16)) == b
  }

  lemma {:induction false} PairsOfHex(pair: (char, char) -> Byte, data: seq<Byte>, room: nat)
    requires |data| <= room && forall b: Byte :: Spells(pair, b)
    ensures Pairs(pair, HexString(data), room) == data
  {
    if data != [] {
      var rest := HexString(data[1..]);
      assert Spells(pair, data[0]);
      PairsCons(pair, HexDigit(data[0] / 16), HexDigit(data[0] % 16), rest, room);
      PairsOfHex(pair, data[1..], room - 1);
    }
  }

  lemma PairsCons(pair: (char, char) -> Byte, c: char, d: char, rest: string, room: nat)
    requires room > 0
    ensures Pairs(pair, [c, d] + rest, room) == [pair(c, d)] + Pairs(pair, rest, room - 1)
  {
    assert ([c, d] + rest)[2..] == rest;
  }

  lemma KeyBytesOfHex(data: seq<Byte>, room: nat)
    requires |data| <= room
    ensures KeyBytes(HexString(data), room) == data
  {
    forall b: Byte ensures Spells(PairByte, b) { PairValue(b); }
    PairsOfHex(PairByte, data, room);
  }

  /** `hex2string`: a byte for each pair of characters. */
  function HexToBytes(s: string): seq<Byte> { Pairs(PairByte, s, |s|) }

  lemma HexRoundTrip(data: seq<Byte>)
    ensures HexToBytes(HexString(data)) == data
  {
    KeyBytesOfHex(data, |HexString(data)|);
  }

  lemma HexIsPlain(data: seq<Byte>)
    ensures NoSpaces(HexString(data)) && '\0' !in HexString(data) && ',' !in HexString(data)
  {
    HexStringIsHex(data);
  }

  lemma KeyRoundTrip(prev: seq<Byte>, key: seq<Byte>)
    requires |prev| == |key| == KEY_SIZE
    ensures ParseKey(prev, HexString(key)) == key
  {
    HexIsPlain(key);
    CStrWhole(HexString(key));
    KeyBytesOfHex(key, KEY_SIZE);
  }

  // ---------- activation and class ----------

  function ActivationText(v: int): string { if v == 1 then "OTAA" else "ABP" }

  function ParseActivation(s: string): nat { if s == "OTAA" then 1 else 0 }

  function ClassText(v: int): string { if v == 0 then "A" else if v == 1 then "B" else "C" }

  function ParseClass(s: string): nat {
    if s == [] then 2 else if s[0] == 'A' || s[0] == 'a' then 0 else if s[0] == 'B' || s[0] == 'b' then 1 else 2
  }

  lemma EnumRoundTrip(v: nat)
    ensures ParseActivation(ActivationText(v)) == v <==> v <= 1
    ensures ParseClass(ClassText(v)) == v <==> v <= 2
  {}

  // ---------- version ----------

  predicate IsDigit(c: char) { '0' <= c <= '9' }

  function Dec(n: nat): (s: string)
    ensures |s| > 0
    ensures forall i :: 0 <= i < |s| ==> IsDigit(s[i])
  {
    if n < 10 then ["0123456789"[n]] else Dec(n / 10) + ["0123456789"[n % 10]]
  }

  /** A byte: two bits major, two bits minor, four bits release, from the low end. */
  function VersionText(v: Byte): string {
    Dec(v % 4) + ("." + (Dec(v / 4 % 4) + ("." + Dec(v / 16))))
  }

  /** A C++ input stream: what is left, and the end-of-file and failure flags. */
  datatype Input = Input(rest: string, eof: bool, fail: bool)

  function DigitRun(s: string): (k: nat)
    ensures k <= |s|
  {
    if s != [] && IsDigit(s[0]) then 1 + DigitRun(s[1..]) else 0
  }

  function DecValue(s: string, acc: nat): nat {
    if s == [] || !IsDigit(s[0]) then acc else DecValue(s[1..], 10 * acc + (s[0] as int - '0' as int))
  }

  const INT_MAX := 0x7FFF_FFFF

  /** `stream >> int`, keeping `prev` when nothing could be tried. */
  function ReadInt(st: Input, prev: int): (int, Input) {
    if st.eof || st.fail then (prev, st.(fail := true))
    else
      var t := SkipSpaces(st.rest);
      if t == [] then (prev, Input([], true, true))
      else
        var signed := t[0] == '-' || t[0] == '+';
        var d := if signed then t[1..] else t;
        var k := DigitRun(d);
        var v := DecValue(d, 0);
        var w: int := if t[0] == '-' then -(v as int) else v;
        if k == 0 then (0, Input(d, d == [], true))
        else if w > INT_MAX then (INT_MAX, Input(d[k..], k == |d|, true))
        else if w < -INT_MAX - 1 then (-INT_MAX - 1, Input(d[k..], k == |d|, true))
        else (w, Input(d[k..], k == |d|, false))
  }

  /** `stream >> char`. */
  function ReadChar(st: Input): Input {
    if st.eof || st.fail then st.(fail := true)
    else
      var t := SkipSpaces(st.rest);
      if t == [] then Input([], true, true) else Input(t[1..], false, false)
  }

  function ReadIntUnlessEof(st: Input, prev: int): (int, Input) {
    if st.eof then (prev, st) else ReadInt(st, prev)
  }

  function ReadCharUnlessEof(st: Input): Input {
    if st.eof then st else ReadChar(st)
  }

  /** A separator, then a number. */
  function NextNumber(st: Input, prev: int): (int, Input) {
    ReadIntUnlessEof(ReadCharUnlessEof(st), prev)
  }

  function NextTwo(st: Input): (int, int) {
    var (first, rest) := NextNumber(st, 0);
    (first, NextNumber(rest, 0).0)
  }

  /** `string2LORAWAN_VERSION`. */
  function ParseVersion(s: string): Byte {
    var (ma, s1) := ReadIntUnlessEof(Input(CStr(s), false, false), 1);
    var (mi, re) := NextTwo(s1);
    VersionByte(ma, mi, re)
  }

  function VersionByte(major: int, minor: int, release: int): Byte {
    major % 4 + 4 * (minor % 4) + 16 * (release % 16)
  }

  lemma DigitChar(n: nat)
    requires n < 10
    ensures "0123456789"[n] as int - '0' as int == n && IsDigit("0123456789"[n])
  {}

  lemma NotADigit(tail: string, acc: nat)
    requires tail == [] || !IsDigit(tail[0])
    ensures DigitRun(tail) == 0 && DecValue(tail, acc) == acc
  {}

  predicate AllDigits(s: string) {
    forall i :: 0 <= i < |s| ==> IsDigit(s[i])
  }

  /** A decimal number ends where its digits end. */
  predicate Ends(tail: string) { tail == [] || tail[0] < '0' || tail[0] > '9' }

  lemma {:induction false} DecAppend(a: string, b: string, acc: nat)
    requires AllDigits(a)
    ensures DecValue(a + b, acc) == DecValue(b, DecValue(a, acc)) && DigitRun(a + b) == |a| + DigitRun(b)
  {
    if a == [] {
      assert a + b == b;
    } else {
      assert (a + b)[1..] == a[1..] + b;
      DecAppend(a[1..], b, 10 * acc + (a[0] as int - '0' as int));
    }
  }

  /** Every number is read back from its decimal digits. */
  lemma {:induction false} DecRead(n: nat)
    ensures DecValue(Dec(n), 0) == n
  {
    var last := ["0123456789"[n % 10]];
    DigitChar(n % 10);
    NotADigit([], n);
    assert last[1..] == [];
    if n >= 10 {
      DecRead(n / 10);
      DecAppend(Dec(n / 10), last, 0);
      assert DecValue(last, n / 10) == DecValue([], 10 * (n / 10) + n % 10);
    }
  }

  lemma NumberAndTail(n: nat, tail: string)
    requires Ends(tail)
    ensures DecValue(Dec(n) + tail, 0) == n && DigitRun(Dec(n) + tail) == |Dec(n)|
    ensures (Dec(n) + tail)[|Dec(n)|..] == tail
  {
    DecRead(n);
    DecAppend(Dec(n), tail, 0);
  }

  /** `stream >> int` on a number of any size: it is clamped, with the failure flag, from 2^31 on. */
  lemma ReadNumber(n: nat, tail: string, prev: int)
    requires Ends(tail)
    ensures ReadInt(Input(Dec(n) + tail, false, false), prev)
         == if n <= 0x7FFF_FFFF then (n, Input(tail, tail == [], false))
            else (0x7FFF_FFFF, Input(tail, tail == [], true))
    ensures ReadInt(Input("+" + (Dec(n) + tail), false, false), prev)
         == ReadInt(Input(Dec(n) + tail, false, false), prev)
  {
    var d := Dec(n) + tail;
    NumberAndTail(n, tail);
    assert SkipSpaces(d) == d && SkipSpaces("+" + d) == "+" + d && ("+" + d)[1..] == d;
  }

  lemma ReadNegative(n: nat, tail: string, prev: int)
    requires Ends(tail)
    ensures ReadInt(Input("-" + (Dec(n) + tail), false, false), prev)
         == (if n <= 0x8000_0000 then -(n as int) else 0 - 0x8000_0000, Input(tail, tail == [], n > 0x8000_0000))
  {
    NumberAndTail(n, tail);
    MinusRead(Dec(n) + tail, |Dec(n)|, n, prev);
  }

  lemma MinusRead(d: string, k: nat, n: nat, prev: int)
    requires 0 < k <= |d| && DigitRun(d) == k && DecValue(d, 0) == n
    ensures ReadInt(Input("-" + d, false, false), prev)
         == (if n <= 0x8000_0000 then -(n as int) else 0 - 0x8000_0000, Input(d[k..], k == |d|, n > 0x8000_0000))
  {
    assert SkipSpaces("-" + d) == "-" + d && ("-" + d)[1..] == d;
  }

  /** Without a digit the number is 0 and the stream fails; at its end, or when it failed, nothing is tried. */
  lemma ReadNothing(s: string, prev: int, eof: bool)
    ensures s != [] && !IsSpace(s[0]) && s[0] != '-' && s[0] != '+' && Ends(s) ==>
              ReadInt(Input(s, false, false), prev) == (0, Input(s, false, true))
    ensures ReadInt(Input(s, eof, true), prev) == (prev, Input(s, eof, true))
    ensures ReadInt(Input(s, true, false), prev) == (prev, Input(s, true, true))
  {}

  lemma ReadSmall(n: nat, tail: string, prev: int)
    requires n < 100 && (tail == [] || !IsDigit(tail[0]))
    ensures ReadInt(Input(Dec(n) + tail, false, false), prev) == (n, Input(tail, tail == [], false))
  {
    ReadNumber(n, tail, prev);
  }

  lemma ReadDot(tail: string)
    ensures ReadChar(Input("." + tail, false, false)) == Input(tail, false, false)
  {
    assert SkipSpaces("." + tail) == "." + tail;
  }

  lemma ReadNext(n: nat, tail: string)
    requires n < 100 && (tail == [] || !IsDigit(tail[0]))
    ensures NextNumber(Input("." + (Dec(n) + tail), false, false), 0) == (n, Input(tail, tail == [], false))
  {
    ReadDot(Dec(n) + tail);
    ReadSmall(n, tail, 0);
  }

  lemma ReadTwo(minor: nat, release: nat)
    requires minor < 4 && release < 16
    ensures NextTwo(Input("." + (Dec(minor) + ("." + Dec(release))), false, false)) == (minor, release)
  {
    assert Dec(release) + [] == Dec(release);
    ReadNext(minor, "." + Dec(release));
    ReadNext(release, []);
  }

  lemma VersionRead(s: string, major: nat, minor: nat, release: nat)
    requires major < 4 && minor < 4 && release < 16 && '\0' !in s
    requires s == Dec(major) + ("." + (Dec(minor) + ("." + Dec(release))))
    ensures ParseVersion(s) == VersionByte(major, minor, release)
  {
    CStrWhole(s);
    ReadSmall(major, "." + (Dec(minor) + ("." + Dec(release))), 1);
    ReadTwo(minor, release);
  }

  lemma VersionParts(v: Byte)
    ensures VersionByte(v % 4, v / 4 % 4, v / 16) == v
  {}

  lemma VersionRoundTrip(v: Byte)
    ensures ParseVersion(VersionText(v)) == v
  {
    VersionIsPlain(v);
    VersionRead(VersionText(v), v % 4, v / 4 % 4, v / 16);
    VersionParts(v);
  }

  /** Parts that are missing at the end are 0, and an empty text is version 1.0.0. */
  lemma VersionDefaults(major: nat)
    requires major < 4
    ensures ParseVersion(Dec(major)) == major && ParseVersion("") == 1
  {
    MajorAlone(major);
    NothingLeft(Input([], true, false));
    NothingLeft(Input([], true, true));
    SmallVersion(major);
    SmallVersion(1);
    assert CStr("") == "" && ReadInt(Input("", false, false), 1) == (1, Input([], true, true));
  }

  lemma MajorAlone(major: nat)
    requires major < 4
    ensures CStr(Dec(major)) == Dec(major)
    ensures ReadInt(Input(Dec(major), false, false), 1) == (major, Input([], true, false))
  {
    assert Dec(major) + [] == Dec(major);
    ReadNumber(major, [], 1);
    CStrWhole(Dec(major));
  }

  lemma SmallVersion(major: nat)
    requires major < 4
    ensures VersionByte(major, 0, 0) == major
  {}

  lemma NothingLeft(st: Input)
    requires st.eof
    ensures NextTwo(st) == (0, 0)
  {}

  lemma VersionIsPlain(v: Byte)
    ensures NoSpaces(VersionText(v)) && '\0' !in VersionText(v) && ',' !in VersionText(v)
  {}

  // ---------- names ----------

  const NAME_SIZE := 8

  function CharOf(b: Byte): char { b as char }

  function ByteOf(c: char): Byte { c as int % 256 }

  /** `DEVICENAME2string`: the characters in front of the first NUL. */
  function NameText(data: seq<Byte>): (s: string)
    ensures |s| <= |data| && '\0' !in s
  {
    if data == [] || data[0] == 0 then [] else [CharOf(data[0])] + NameText(data[1..])
  }

  function Zeros(n: nat): (z: seq<Byte>)
    ensures |z| == n && forall i :: 0 <= i < n ==> z[i] == 0
  {
    seq(n, _ => 0)
  }

  function BytesOf(s: string): (data: seq<Byte>)
    ensures |data| == |s|
  {
    seq(|s|, i requires 0 <= i < |s| => ByteOf(s[i]))
  }

  /** `string2DEVICENAME`: `strncpy` into eight bytes. */
  function ParseName(s: string): (data: seq<Byte>)
    ensures |data| == NAME_SIZE
  {
    var t := CStr(s);
    if |t| >= NAME_SIZE then BytesOf(t[..NAME_SIZE]) else BytesOf(t) + Zeros(NAME_SIZE - |t|)
  }

  lemma {:induction false} NameBytes(data: seq<Byte>)
    ensures BytesOf(NameText(data)) == data[..|NameText(data)|]
  {
    if data != [] && data[0] != 0 {
      NameBytes(data[1..]);
      var s := NameText(data);
      assert s[1..] == NameText(data[1..]);
      assert forall i :: 1 <= i < |s| ==> BytesOf(s)[i] == BytesOf(s[1..])[i - 1];
    }
  }

  /** A name is read back up to its first NUL, followed by zeros. */
  lemma NameRoundTrip(data: seq<Byte>)
    requires |data| == NAME_SIZE
    ensures var n := |NameText(data)|; ParseName(NameText(data)) == data[..n] + Zeros(NAME_SIZE - n)
  {
    NameBytes(data);
    CStrWhole(NameText(data));
  }

  // ---------- some texts ----------

  lemma FourReversed()
    ensures ReverseBytes([4, 3, 2, 1]) == [1, 2, 3, 4]
  {
    ReverseLast([4, 3, 2], 1);
    ReverseLast([4, 3], 2);
    ReverseLast([4], 3);
    ReverseLast([], 4);
    assert [4, 3, 2] + [1] == [4, 3, 2, 1] && [4, 3] + [2] == [4, 3, 2] && [4] + [3] == [4, 3] && [] + [4] == [4];
  }

  lemma HexTwo(a: Byte, b: Byte)
    ensures HexString([a, b]) == [HexDigit(a / 16), HexDigit(a % 16), HexDigit(b / 16), HexDigit(b % 16)]
  {
    assert [a, b][1..] == [b] && [b][1..] == [];
    assert HexString([b]) == [HexDigit(b / 16), HexDigit(b % 16)] + HexString([]);
  }

  /** Address 01020304 is stored low byte first; a nonce is printed in the order of its bytes. */
  lemma KnownNumbers()
    ensures NumberText([4, 3, 2, 1]) == "01020304" && HexString([1, 0xAB]) == "01ab"
  {
    FourReversed();
    HexTwo(1, 2);
    HexTwo(3, 4);
    HexTwo(1, 0xAB);
    HexAppend([1, 2], [3, 4]);
    assert [1, 2] + [3, 4] == [1, 2, 3, 4];
  }

  /** The texts of the enumerations, and of version 1.0.3 in a byte. */
  lemma KnownNames()
    ensures ActivationText(0) == "ABP" && ActivationText(1) == "OTAA"
    ensures ClassText(0) == "A" && ClassText(1) == "B" && ClassText(2) == "C"
    ensures ParseClass("a") == 0 && ParseClass("b") == 1 && ParseClass("") == 2 && ParseClass("other") == 2
    ensures VersionText(0x31) == "1.0.3"
  {
    assert VersionText(0x31) == "1" + ("." + ("0" + ("." + "3")));
  }
}
