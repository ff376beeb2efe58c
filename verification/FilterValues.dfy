/**
 The values of filters (lorawan-string.cpp, `filterValue2string` and the value branch of
 `string2NETWORK_IDENTITY_FILTERS`), and the round trip of whole filter expressions.
 */
module FilterValues {
  import opened Bytes
  import opened TextCodec
  import opened ValueText
  import opened FilterText

  // Properties, by their place in the table.
  const ADDRESS := 1
  const ACTIVATION := 2
  const DEVICE_CLASS := 3
  const DEVEUI := 4
  const NWKSKEY := 5
  const APPSKEY := 6
  const VERSION := 7
  const APPEUI := 8
  const APPKEY := 9
  const NWKKEY := 10
  const DEVNONCE := 11
  const JOINNONCE := 12
  const DEVICENAME := 13

  predicate IsKey(p: nat) { p == NWKSKEY || p == APPSKEY || p == APPKEY || p == NWKKEY }

  predicate IsEui(p: nat) { p == DEVEUI || p == APPEUI }

  /** The stored bytes, padded should there be too few. */
  function Stored(f: Filter): (d: seq<Byte>)
    ensures |d| == DATA_SIZE
    ensures |f.data| == DATA_SIZE ==> d == f.data
  {
    if |f.data| >= DATA_SIZE then f.data[..DATA_SIZE] else f.data + Zeros(DATA_SIZE - |f.data|)
  }

  /** `filterValue2string`. */
  function ValueToText(f: Filter): string {
    var d, p := Stored(f), f.property;
    if p == ADDRESS then NumberText(d[..4])
    else if p == ACTIVATION then ActivationText(LittleEndian(d[..4]))
    else if p == DEVICE_CLASS then ClassText(LittleEndian(d[..4]))
    else if IsEui(p) then NumberText(d[..8])
    else if IsKey(p) then HexString(d)
    else if p == VERSION then VersionText(d[0])
    else if p == DEVNONCE then HexString(d[..2])
    else if p == JOINNONCE then HexString(d[..3])
    else if p == DEVICENAME then NameText(d[..8])
    else ""
  }

  function Put(f: Filter, bytes: seq<Byte>, length: nat): Filter
    requires |bytes| <= DATA_SIZE
  {
    f.(data := Overwrite(Stored(f), bytes), length := length)
  }

  /** Store a value text; the text of a device nonce is read and thrown away. */
  function ReadValue(f: Filter, s: string): Filter {
    var p := f.property;
    if p == ADDRESS then Put(f, ParseNumber(s, 4), 4)
    else if p == ACTIVATION then Put(f, [ParseActivation(s), 0, 0, 0], 4)
    else if p == DEVICE_CLASS then Put(f, [ParseClass(s), 0, 0, 0], 4)
    else if IsEui(p) then Put(f, ParseNumber(s, 8), 8)
    else if IsKey(p) then f.(data := ParseKey(Stored(f), s), length := 16)
    else if p == VERSION then Put(f, [ParseVersion(s)], 1)
    else if p == DEVNONCE then f.(length := 2)
    else if p == JOINNONCE then Put(f, ParseNonce(StrToSigned16(s), 3), 3)
    else if p == DEVICENAME then Put(f, ParseName(s), if |s| < NAME_SIZE then |s| else NAME_SIZE)
    else f
  }

  // ---------- which filters are well formed ----------

  /** A name has no NUL and no space, and a NUL behind it when it is short. */
  predicate IsName(d: seq<Byte>, n: nat)
    requires |d| == DATA_SIZE
  {
    && n <= NAME_SIZE && (n < NAME_SIZE ==> d[n] == 0)
    && forall i :: 0 <= i < n ==> d[i] != 0 && !IsSpace(CharOf(d[i]))
  }

  /** Length and bytes of the value of property `p`. */
  predicate IsValue(p: nat, n: nat, d: seq<Byte>)
    requires |d| == DATA_SIZE
  {
    if p == ADDRESS then n == 4
    else if p == ACTIVATION then n == 4 && d[0] <= 1 && d[1] == d[2] == d[3] == 0
    else if p == DEVICE_CLASS then n == 4 && d[0] <= 2 && d[1] == d[2] == d[3] == 0
    else if IsEui(p) then n == 8
    else if IsKey(p) then n == 16
    else if p == VERSION then n == 1
    else if p == DEVNONCE then n == 2
    else if p == JOINNONCE then n == 3
    else if p == DEVICENAME then IsName(d, n)
    else false
  }

  predicate WellFormed(f: Filter) {
    && |f.data| == DATA_SIZE && IsValue(f.property, f.length, f.data)
    && 1 <= f.op <= 6 && 1 <= f.pre <= 2
  }

  // ---------- each property ----------

  lemma {:induction false} NameTextLength(d: seq<Byte>, n: nat)
    requires n <= |d| && (n < |d| ==> d[n] == 0)
    requires forall i :: 0 <= i < n ==> d[i] != 0 && !IsSpace(CharOf(d[i]))
    ensures |NameText(d)| == n && NoSpaces(NameText(d))
  {
    if n > 0 {
      NameTextLength(d[1..], n - 1);
      assert NameText(d)[1..] == NameText(d[1..]);
    }
  }

  lemma EnumValue(d: seq<Byte>, n: nat)
    requires d == [n, 0, 0, 0] && n < 256
    ensures LittleEndian(d) == n
  {
    assert LittleEndian([0]) == 0 + 256 * LittleEndian([0][1..]);
    assert [0, 0][1..] == [0] && [0, 0, 0][1..] == [0, 0] && d[1..] == [0, 0, 0];
  }

  lemma OneWord(f: Filter)
    requires WellFormed(f)
    ensures NoSpaces(ValueToText(f))
  {
    var d, p := f.data, f.property;
    if p == ADDRESS { HexIsPlain(ReverseBytes(d[..4])); }
    else if IsEui(p) { HexIsPlain(ReverseBytes(d[..8])); }
    else if IsKey(p) { HexIsPlain(d); }
    else if p == VERSION { VersionIsPlain(d[0]); }
    else if p == DEVNONCE { HexIsPlain(d[..2]); }
    else if p == JOINNONCE { HexIsPlain(d[..3]); }
    else if p == DEVICENAME { NameTextLength(d[..8], f.length); }
  }

  /** What reading the printed value of `f` leaves in a data field that held `data`. */
  function Left(data: seq<Byte>, f: Filter): (d: seq<Byte>)
    requires WellFormed(f)
    ensures |data| == DATA_SIZE ==> |d| == DATA_SIZE
  {
    if f.property == DEVNONCE then data
    else if f.property == DEVICENAME then Overwrite(data, f.data[..f.length] + Zeros(NAME_SIZE - f.length))
    else Overwrite(data, f.data[..f.length])
  }

  /** Reading the printed value of `f` into a filter of the same property. */
  predicate ReadsAs(f: Filter, g: Filter)
    requires WellFormed(f)
  {
    ReadValue(g, ValueToText(f)) == g.(length := f.length, data := Left(g.data, f))
  }

  lemma NumberReads(f: Filter, g: Filter)
    requires WellFormed(f) && g.property == f.property && |g.data| == DATA_SIZE
    requires f.property == ADDRESS || IsEui(f.property)
    ensures ReadsAs(f, g)
  {
    if f.property == ADDRESS { NumberRoundTrip(f.data[..4]); } else { NumberRoundTrip(f.data[..8]); }
  }

  lemma KeyReads(f: Filter, g: Filter)
    requires WellFormed(f) && g.property == f.property && |g.data| == DATA_SIZE && IsKey(f.property)
    ensures ReadsAs(f, g)
  {
    KeyRoundTrip(g.data, f.data);
    assert Overwrite(g.data, f.data[..16]) == f.data;
  }

  lemma NonceReads(f: Filter, g: Filter)
    requires WellFormed(f) && g.property == f.property && |g.data| == DATA_SIZE
    requires f.property == JOINNONCE || f.property == DEVNONCE
    ensures ReadsAs(f, g)
  {
    if f.property == JOINNONCE { NonceRoundTrip(f.data[..3]); }
  }

  lemma EnumReads(f: Filter, g: Filter)
    requires WellFormed(f) && g.property == f.property && |g.data| == DATA_SIZE
    requires f.property == ACTIVATION || f.property == DEVICE_CLASS || f.property == VERSION
    ensures ReadsAs(f, g)
  {
    var d := f.data;
    if f.property == VERSION {
      VersionRoundTrip(d[0]);
      assert d[..1] == [d[0]];
    } else {
      assert d[..4] == [d[0], 0, 0, 0];
      EnumValue(d[..4], d[0]);
      EnumRoundTrip(d[0]);
    }
  }

  lemma NameReads(f: Filter, g: Filter)
    requires WellFormed(f) && g.property == f.property == DEVICENAME && |g.data| == DATA_SIZE
    ensures ReadsAs(f, g)
  {
    var d, n := f.data[..8], f.length;
    NameTextLength(d, n);
    NameRoundTrip(d);
    assert d[..n] == f.data[..n];
  }

  /** Reading back a printed value leaves exactly its bytes; a device nonce leaves what was there. */
  lemma ValueReads(f: Filter, g: Filter)
    requires WellFormed(f) && g.property == f.property && |g.data| == DATA_SIZE
    ensures ReadsAs(f, g)
  {
    var p := f.property;
    if p == DEVICENAME { NameReads(f, g); }
    else if p == ACTIVATION || p == DEVICE_CLASS || p == VERSION { EnumReads(f, g); }
    else if IsKey(p) { KeyReads(f, g); }
    else if p == JOINNONCE || p == DEVNONCE { NonceReads(f, g); }
    else { NumberReads(f, g); }
  }

  // ---------- the table of properties ----------

  /** The place of an entry, told by its length and a character or two. */
  function PlaceOf(s: string): nat {
    if |s| == 4 then (if s[0] == 'a' then ADDRESS else DEVICENAME)
    else if |s| == 5 then DEVICE_CLASS
    else if |s| == 6 then
      (if s[0] == 'd' then DEVEUI else if s[0] == 'n' then NWKKEY else if s[3] == 'e' then APPEUI else APPKEY)
    else if |s| == 7 then (if s[0] == 'n' then NWKSKEY else if s[0] == 'a' then APPSKEY else VERSION)
    else if |s| == 8 then DEVNONCE
    else if |s| == 9 then JOINNONCE
    else if |s| == 10 then ACTIVATION
    else 0
  }

  lemma PlaceFound(i: nat)
    requires i < 14
    ensures PlaceOf(Properties()[i]) == i
    ensures i > 0 ==> Properties()[i] != []
  {
    match i {
      case 0 => case 1 => case 2 => case 3 => case 4 => case 5 => case 6 =>
      case 7 => case 8 => case 9 => case 10 => case 11 => case 12 => case _ =>
    }
  }

  predicate IsPlain(s: string) {
    NoSpaces(s) && '\0' !in s
  }

  predicate PlainName(i: nat)
    requires i < 14
  {
    IsPlain(Properties()[i])
  }

  lemma PlainNamesLow(i: nat)
    requires i < 7
    ensures PlainName(i)
  {
    match i {
      case 0 => case 1 => case 2 => case 3 => case 4 => case 5 => case _ =>
    }
  }

  lemma PlainNamesHigh(i: nat)
    requires 7 <= i < 14
    ensures PlainName(i)
  {
    match i {
      case 7 => case 8 => case 9 => case 10 => case 11 => case 12 => case _ =>
    }
  }

  lemma PlainNames(i: nat)
    requires i < 14
    ensures PlainName(i)
  {
    if i < 7 { PlainNamesLow(i); } else { PlainNamesHigh(i); }
  }

  lemma PropertiesDiffer()
    ensures IsTable(Properties())
  {
    var t := Properties();
    forall i | 0 <= i < |t| ensures PlaceOf(t[i]) == i && (i > 0 ==> t[i] != []) && IsPlain(t[i]) {
      PlaceFound(i);
      PlainNames(i);
    }
  }

  // ---------- the round trip ----------

  /** `NETWORK_IDENTITY_FILTERS2string`. */
  function Print(fs: seq<Filter>): string {
    FiltersToText(ValueToText, fs, true)
  }

  function Parse(s: string): seq<Filter> {
    Parsed(ReadValue, s)
  }

  predicate AllWellFormed(fs: seq<Filter>) {
    forall i :: 0 <= i < |fs| ==> WellFormed(fs[i])
  }

  /**
   At each filter on a device nonce the two bytes compared with are those that the filters before it
   have left in the parser, which starts with `data`.
   */
  predicate NoncesLeft(fs: seq<Filter>, data: seq<Byte>)
    requires AllWellFormed(fs) && |data| == DATA_SIZE
    decreases |fs|
  {
    fs == [] ||
    ((fs[0].property == DEVNONCE ==> fs[0].data[..2] == data[..2]) && NoncesLeft(fs[1..], Left(data, fs[0])))
  }

  /** A value other than a device nonce ends up in front of the data field. */
  lemma LeftInFront(data: seq<Byte>, f: Filter)
    requires WellFormed(f) && |data| == DATA_SIZE
    ensures f.property != DEVNONCE ==> Left(data, f)[..f.length] == f.data[..f.length]
    ensures f.property == DEVNONCE ==> Left(data, f)[..f.length] == data[..2]
  {}

  lemma ReadSame(f: Filter, g: Filter)
    requires WellFormed(f) && |g.data| == DATA_SIZE
    ensures var r := ReadOver(ValueToText, ReadValue, f, g);
            && r == f.(data := Left(g.data, f)) && |r.data| == DATA_SIZE
            && (Same(r, f) <==> (f.property == DEVNONCE ==> f.data[..2] == g.data[..2]))
  {
    ValueReads(f, g.(pre := f.pre, property := f.property, op := f.op));
    LeftInFront(g.data, f);
  }

  lemma {:induction false} ReadBackSame(fs: seq<Filter>, g: Filter)
    requires AllWellFormed(fs) && |g.data| == DATA_SIZE
    ensures SameList(ReadBack(ValueToText, ReadValue, fs, g), fs) <==> NoncesLeft(fs, g.data)
    decreases |fs|
  {
    if fs != [] {
      var r := ReadOver(ValueToText, ReadValue, fs[0], g);
      var rest := ReadBack(ValueToText, ReadValue, fs[1..], r.(property := 0));
      ReadSame(fs[0], g);
      ReadBackSame(fs[1..], r.(property := 0));
      assert ([r] + rest)[1..] == rest;
    }
  }

  lemma ValuesArePrintable(f: Filter)
    requires WellFormed(f)
    ensures Printable(ValueToText, f)
  {
    OneWord(f);
  }

  lemma AndFirstWellFormed(fs: seq<Filter>)
    requires AllWellFormed(fs)
    ensures AllWellFormed(AndFirst(fs)) && AllPrintable(ValueToText, fs)
  {
    forall i | 0 <= i < |fs| ensures Printable(ValueToText, fs[i]) { ValuesArePrintable(fs[i]); }
  }

  /**
   For every list of well-formed filters, parsing the printed text gives back property, operator,
   length, value bytes and connective of each (the first connective becoming "and") if and only if each
   device nonce equals the two bytes that the filters before it have left in the parser.
   */
  lemma FilterRoundTrip(fs: seq<Filter>)
    requires AllWellFormed(fs)
    ensures AllWellFormed(AndFirst(fs))
    ensures SameList(Parse(Print(fs)), AndFirst(fs)) <==> NoncesLeft(AndFirst(fs), Zeros(DATA_SIZE))
  {
    AndFirstWellFormed(fs);
    ParsedIs(fs);
    ReadBackSame(AndFirst(fs), INITIAL.f);
  }

  lemma ConnectiveIgnored()
    ensures IgnoresConnective(ValueToText)
  {
    forall f: Filter ensures ValueToText(f.(pre := PRE_AND)) == ValueToText(f) {
      assert Stored(f.(pre := PRE_AND)) == Stored(f);
    }
  }

  lemma ParsedIs(fs: seq<Filter>)
    requires AllPrintable(ValueToText, fs)
    ensures Parse(Print(fs)) == ReadBack(ValueToText, ReadValue, AndFirst(fs), INITIAL.f)
  {
    PropertiesDiffer();
    ConnectiveIgnored();
    PrintThenParse(ValueToText, ReadValue, fs);
  }

  lemma {:induction false} NoNoncesLeft(fs: seq<Filter>, data: seq<Byte>)
    requires AllWellFormed(fs) && |data| == DATA_SIZE && forall i :: 0 <= i < |fs| ==> fs[i].property != DEVNONCE
    ensures NoncesLeft(fs, data)
    decreases |fs|
  {
    if fs != [] { NoNoncesLeft(fs[1..], Left(data, fs[0])); }
  }

  /** Without device nonces the round trip always holds. */
  lemma PlainRoundTrip(fs: seq<Filter>)
    requires AllWellFormed(fs) && forall i :: 0 <= i < |fs| ==> fs[i].property != DEVNONCE
    ensures SameList(Parse(Print(fs)), AndFirst(fs))
  {
    FilterRoundTrip(fs);
    NoNoncesLeft(AndFirst(fs), Zeros(DATA_SIZE));
  }

  /** A device nonce is dropped: a filter on it, alone, survives exactly when it is 0. */
  lemma NonceIsDropped(f: Filter)
    requires WellFormed(f) && f.property == DEVNONCE
    ensures SameList(Parse(Print([f])), AndFirst([f])) <==> f.data[..2] == [0, 0]
  {
    FilterRoundTrip([f]);
    assert AndFirst([f])[1..] == [];
    assert Zeros(DATA_SIZE)[..2] == [0, 0];
  }

  /** `string2NETWORK_IDENTITY_FILTERS` with the values of this program. */
  method ParseExpression(expression: string) returns (retVal: seq<Filter>)
    ensures retVal == Parse(expression)
  {
    retVal := ParseFilters(ReadValue, expression);
  }
}
