/**
 The number and byte-string conversions of lorawan-string.cpp, with the C library functions they
 call (`strtol` family in base 16, stream extraction of decimal integers) written out.
 */
module TextCodec {
  import opened Bytes

  // ---------- characters ----------

  predicate IsSpace(c: char) {
    c == ' ' || '\t' <= c <= '\r'
  }

  function HexDigit(n: nat): char
    requires n < 16
  {
    "0123456789abcdef"[n]
  }

  /** The value of a hexadecimal digit, or -1. */
  function HexValue(c: char): int {
    if '0' <= c <= '9' then c as int - '0' as int
    else if 'a' <= c <= 'f' then c as int - 'a' as int + 10
    else if 'A' <= c <= 'F' then c as int - 'A' as int + 10
    else -1
  }

  /** Letters are printed in lower case. */
  lemma DigitCode(n: nat)
    requires n < 16
    ensures HexDigit(n) as int == if n < 10 then '0' as int + n else 'a' as int + (n - 10)
  {}

  lemma DigitValue(n: nat)
    requires n < 16
    ensures HexValue(HexDigit(n)) == n
    ensures !IsSpace(HexDigit(n)) && HexDigit(n) != '\'' && HexDigit(n) != ','
    ensures HexDigit(n) != '-' && HexDigit(n) != '+'
    ensures HexDigit(n) != 'x' && HexDigit(n) != 'X' && HexDigit(n) != '"'
  {}

  // ---------- hexadecimal byte strings ----------

  /** `hexString`: two digits a byte, most significant nibble first. */
  function HexString(data: seq<Byte>): (s: string)
    ensures |s| == 2 * |data|
  {
    if data == [] then [] else [HexDigit(data[0] / 16), HexDigit(data[0] % 16)] + HexString(data[1..])
  }

  lemma {:induction false} HexAppend(a: seq<Byte>, b: seq<Byte>)
    ensures HexString(a + b) == HexString(a) + HexString(b)
  {
    if a == [] {
      assert a + b == b;
    } else {
      assert (a + b)[1..] == a[1..] + b;
      HexAppend(a[1..], b);
    }
  }

  /** Every character printed is a hexadecimal digit. */
  predicate IsHexText(s: string) {
    forall i | 0 <= i < |s| :: 0 <= HexValue(s[i]) < 16
  }

  lemma {:induction false} HexTells(a: seq<Byte>, b: seq<Byte>)
    ensures HexString(a) == HexString(b) <==> a == b
  {
    if a != [] && b != [] && HexString(a) == HexString(b) {
      HexPairTells(a[0], b[0], HexString(a), HexString(b));
      assert HexString(a[1..]) == HexString(a)[2..] == HexString(b[1..]);
      HexTells(a[1..], b[1..]);
      assert a == [a[0]] + a[1..] && b == [b[0]] + b[1..];
    }
  }

  lemma HexPairTells(a: Byte, b: Byte, s: string, t: string)
    requires |s| >= 2 && s == t
    requires s[0] == HexDigit(a / 16) && s[1] == HexDigit(a % 16)
    requires t[0] == HexDigit(b / 16) && t[1] == HexDigit(b % 16)
    ensures a == b
  {
    DigitValue(a / 16);
    DigitValue(a % 16);
    DigitValue(b / 16);
    DigitValue(b % 16);
    NibblesTell(a, b);
  }

  lemma NibblesTell(a: nat, b: nat)
    requires a / 16 == b / 16 && a % 16 == b % 16
    ensures a == b
  {}

  lemma {:induction false} HexStringIsHex(data: seq<Byte>)
    ensures IsHexText(HexString(data))
  {
    if data != [] {
      HexStringIsHex(data[1..]);
      DigitValue(data[0] / 16);
      DigitValue(data[0] % 16);
    }
  }

  // ---------- strtol and friends, base 16 ----------

  function SkipSpaces(s: string): (t: string)
    ensures |t| <= |s|
    ensures t != [] ==> !IsSpace(t[0])
  {
    if s != [] && IsSpace(s[0]) then SkipSpaces(s[1..]) else s
  }

  /** The value of the leading hexadecimal digits of `s`, appended to `acc`. */
  function Digits16(s: string, acc: nat): nat {
    if s == [] || HexValue(s[0]) < 0 then acc else Digits16(s[1..], 16 * acc + HexValue(s[0]))
  }

  function Magnitude16(s: string): nat {
    if |s| >= 3 && s[0] == '0' && (s[1] == 'x' || s[1] == 'X') && HexValue(s[2]) >= 0 then Digits16(s[2..], 0)
    else Digits16(s, 0)
  }

  /** The number `strtol` reads, before it is clamped to the return type. */
  function StrTo16(s: string): int {
    var t := SkipSpaces(s);
    if t != [] && t[0] == '-' then -(Magnitude16(t[1..]) as int)
    else if t != [] && t[0] == '+' then Magnitude16(t[1..])
    else Magnitude16(t)
  }

  const TWO64: int := 0x1_0000_0000_0000_0000

  /** `strtoul` and `strtoull`: saturation, and negation modulo 2^64. */
  function StrToUnsigned16(s: string): (v: int)
    ensures 0 <= v < TWO64
  {
    var v := StrTo16(s);
    if v >= TWO64 || -v >= TWO64 then TWO64 - 1 else if v < 0 then TWO64 + v else v
  }

  /** `strtol`: saturation at both ends of a 64-bit signed integer. */
  function StrToSigned16(s: string): int {
    var v := StrTo16(s);
    if v >= TWO64 / 2 then TWO64 / 2 - 1 else if v < -(TWO64 / 2) then -(TWO64 / 2) else v
  }

  /** The big-endian number of a byte string, appended to `acc`. */
  function BigEndian(data: seq<Byte>, acc: nat): nat {
    if data == [] then acc else BigEndian(data[1..], 256 * acc + data[0])
  }

  lemma {:induction false} DigitsOfHex(data: seq<Byte>, acc: nat)
    ensures Digits16(HexString(data), acc) == BigEndian(data, acc)
  {
    if data != [] {
      var s := HexString(data);
      DigitValue(data[0] / 16);
      DigitValue(data[0] % 16);
      assert s[1..][1..] == HexString(data[1..]);
      assert 16 * (16 * acc + data[0] / 16) + data[0] % 16 == 256 * acc + data[0];
      DigitsOfHex(data[1..], 256 * acc + data[0]);
    }
  }

  /** Printed bytes are read back as the big-endian number they spell. */
  lemma HexReadBack(data: seq<Byte>)
    ensures StrTo16(HexString(data)) == BigEndian(data, 0)
  {
    var s := HexString(data);
    if data != [] {
      DigitValue(data[0] / 16);
      DigitValue(data[0] % 16);
    }
    assert SkipSpaces(s) == s;
    DigitsOfHex(data, 0);
  }

  // What else the C functions accept.

  lemma SpaceIs(c: char)
    ensures IsSpace(c) <==> c as int == 32 || c as int == 9 || c as int == 10 || c as int == 11 || c as int == 12
                            || c as int == 13
  {}

  /** Upper and lower case digits have the same value, and nothing else is a digit. */
  lemma HexValueIs(c: char)
    ensures HexValue(c) >= 0 <==> c in "0123456789abcdefABCDEF"
    ensures HexValue(c) < 0 ==> HexValue(c) == -1
  {
    if HexValue(c) >= 0 {
      var n := if c <= '9' then c as int - '0' as int else if c <= 'F' then c as int - 'A' as int + 16
      else c as int - 'a' as int + 10;
      assert "0123456789abcdefABCDEF"[n] == c;
    }
  }

  lemma UpperCaseDigit(n: nat)
    requires n < 16
    ensures HexValue("0123456789ABCDEF"[n]) == n
  {}

  /** A prefix 0x or 0X and a sign may stand in front of the digits, and white space in front of all that. */
  lemma PrefixRead(data: seq<Byte>)
    requires data != []
    ensures StrTo16("0x" + HexString(data)) == StrTo16("0X" + HexString(data)) == BigEndian(data, 0)
    ensures StrTo16("+" + HexString(data)) == BigEndian(data, 0)
    ensures StrTo16("-" + HexString(data)) == -(BigEndian(data, 0) as int)
    ensures StrTo16(" " + HexString(data)) == BigEndian(data, 0)
  {
    var s := HexString(data);
    DigitValue(data[0] / 16);
    DigitValue(data[0] % 16);
    HexReadBack(data);
    PrefixSkipped('x', s, data);
    PrefixSkipped('X', s, data);
    assert ("+" + s)[1..] == s && ("-" + s)[1..] == s && (" " + s)[1..] == s;
    assert SkipSpaces(" " + s) == s;
    DigitsOfHex(data, 0);
  }

  lemma PrefixSkipped(x: char, s: string, data: seq<Byte>)
    requires (x == 'x' || x == 'X') && data != [] && s == HexString(data)
    ensures StrTo16(['0', x] + s) == BigEndian(data, 0)
  {
    var t := ['0', x] + s;
    DigitValue(data[0] / 16);
    assert SkipSpaces(t) == t;
    assert t[2..] == s && t[2] == s[0];
    DigitsOfHex(data, 0);
  }

  lemma {:induction false} BigEndianGrows(data: seq<Byte>, acc: nat)
    ensures BigEndian(data, acc) >= Power256(|data|) * acc
  {
    if data != [] {
      BigEndianGrows(data[1..], 256 * acc + data[0]);
      PowerNext(Power256(|data| - 1), acc, data[0]);
    }
  }

  lemma PowerNext(p: nat, acc: nat, b: nat)
    ensures p * (256 * acc + b) >= 256 * p * acc
  {
    assert p * (256 * acc + b) == p * (256 * acc) + p * b;
  }

  /** Numbers of nine bytes and more are clamped, also with a sign, where smaller ones are taken modulo 2^64. */
  lemma LargeNumbers(data: seq<Byte>)
    requires |data| == 9 && data[0] > 0
    ensures StrToUnsigned16(HexString(data)) == 0xFFFF_FFFF_FFFF_FFFF
    ensures StrToUnsigned16("-" + HexString(data)) == 0xFFFF_FFFF_FFFF_FFFF
    ensures StrToSigned16(HexString(data)) == 0x7FFF_FFFF_FFFF_FFFF
    ensures StrToSigned16("-" + HexString(data)) == -0x8000_0000_0000_0000
  {
    HexReadBack(data);
    PrefixRead(data);
    BigEndianGrows(data[1..], data[0]);
    EightBytes();
    assert Power256(8) * data[0] >= Power256(8);
  }

  /** A smaller number with a minus sign is taken modulo 2^64. */
  lemma NegativeNumbers(data: seq<Byte>)
    requires 0 < |data| <= 8
    ensures StrToUnsigned16("-" + HexString(data)) == -(BigEndian(data, 0) as int) % 0x1_0000_0000_0000_0000
  {
    PrefixRead(data);
    ReverseReverse(data);
    SwappedBigEndian(ReverseBytes(data));
    LittleEndianBound(ReverseBytes(data), Power256(|data|));
    PowerBound(|data|);
    Negated("-" + HexString(data), BigEndian(data, 0));
  }

  lemma Negated(s: string, v: nat)
    requires v < TWO64 && StrTo16(s) == -(v as int)
    ensures StrToUnsigned16(s) == -(v as int) % 0x1_0000_0000_0000_0000
  {}

  lemma {:induction false} ReverseLast(a: seq<Byte>, b: Byte)
    ensures ReverseBytes(a + [b]) == [b] + ReverseBytes(a)
  {
    if a == [] {
      assert a + [b] == [b];
      assert ReverseBytes([b]) == ReverseBytes([b][1..]) + [b];
    } else {
      assert (a + [b])[1..] == a[1..] + [b];
      ReverseLast(a[1..], b);
    }
  }

  lemma {:induction false} ReverseReverse(data: seq<Byte>)
    ensures ReverseBytes(ReverseBytes(data)) == data
  {
    if data != [] {
      ReverseReverse(data[1..]);
      ReverseLast(ReverseBytes(data[1..]), data[0]);
    }
  }

  lemma EightBytes()
    ensures Power256(8) == 0x1_0000_0000_0000_0000
  {
    assert Power256(2) == 0x1_0000;
    assert Power256(4) == 0x1_0000_0000;
    assert Power256(6) == 0x1_0000_0000_0000;
  }

  // ---------- little-endian storage ----------

  function LittleEndian(data: seq<Byte>): nat {
    if data == [] then 0 else data[0] + 256 * LittleEndian(data[1..])
  }

  /** The low `n` bytes of `v` as stored in memory. */
  function ToLittleEndian(v: int, n: nat): (data: seq<Byte>)
    ensures |data| == n
    decreases n
  {
    if n == 0 then [] else [v % 256] + ToLittleEndian(v / 256, n - 1)
  }

  function ReverseBytes(data: seq<Byte>): (r: seq<Byte>)
    ensures |r| == |data|
  {
    if data == [] then [] else ReverseBytes(data[1..]) + [data[0]]
  }

  lemma {:induction false} BigEndianSnoc(data: seq<Byte>, b: Byte, acc: nat)
    ensures BigEndian(data + [b], acc) == 256 * BigEndian(data, acc) + b
  {
    if data == [] {
      assert BigEndian([b], acc) == BigEndian([b][1..], 256 * acc + b);
    } else {
      assert (data + [b])[1..] == data[1..] + [b];
      BigEndianSnoc(data[1..], b, 256 * acc + data[0]);
    }
  }

  /** Swapping the bytes of a little-endian number spells it most significant byte first. */
  lemma {:induction false} SwappedBigEndian(data: seq<Byte>)
    ensures BigEndian(ReverseBytes(data), 0) == LittleEndian(data)
  {
    if data != [] {
      SwappedBigEndian(data[1..]);
      BigEndianSnoc(ReverseBytes(data[1..]), data[0], 0);
    }
  }

  lemma {:induction false} StoredBack(data: seq<Byte>)
    ensures ToLittleEndian(LittleEndian(data), |data|) == data
  {
    if data != [] {
      StoredBack(data[1..]);
      var v, t := LittleEndian(data), LittleEndian(data[1..]);
      assert v % 256 == data[0] && v / 256 == t;
    }
  }

  /** `k` bytes hold a number below 256^k. */
  lemma {:induction false} LittleEndianBound(data: seq<Byte>, bound: nat)
    requires bound == Power256(|data|)
    ensures LittleEndian(data) < bound
  {
    if data != [] {
      LittleEndianBound(data[1..], Power256(|data| - 1));
    }
  }

  function Power256(n: nat): nat {
    if n == 0 then 1 else 256 * Power256(n - 1)
  }

  /** A stored number of at most eight bytes survives printing (swapped) and reading. */
  lemma NumberRoundTrip(data: seq<Byte>)
    requires |data| <= 8
    ensures ToLittleEndian(StrToUnsigned16(HexString(ReverseBytes(data))), |data|) == data
  {
    HexReadBack(ReverseBytes(data));
    SwappedBigEndian(data);
    LittleEndianBound(data, Power256(|data|));
    PowerBound(|data|);
    InRange(HexString(ReverseBytes(data)), LittleEndian(data));
    StoredBack(data);
  }

  lemma InRange(s: string, v: int)
    requires StrTo16(s) == v && 0 <= v < TWO64
    ensures StrToUnsigned16(s) == v
    ensures v < TWO64 / 2 ==> StrToSigned16(s) == v
  {}

  lemma PowerBound(n: nat)
    requires n <= 8
    ensures Power256(n) <= TWO64
  {
    match n {
      case 0 => case 1 => case 2 => case 3 =>
      case 4 => assert Power256(2) == 0x1_0000;
      case 5 => assert Power256(3) == 0x100_0000;
      case 6 => assert Power256(4) == 0x1_0000_0000 by { assert Power256(2) == 0x1_0000; }
      case 7 => assert Power256(5) == 0x100_0000_0000 by { assert Power256(3) == 0x100_0000; }
      case _ => assert Power256(6) == 0x1_0000_0000_0000 by {
        assert Power256(4) == 0x1_0000_0000 by { assert Power256(2) == 0x1_0000; }
      }
    }
  }
}
