/**
 The identity record (lorawan-types.cpp, `DEVICEID::toString`; lorawan-string.cpp, `setIdentity` and
 `string2NETWORKIDENTITY`): the properties of a device as one comma-separated line.
 */
module IdentityRecord {
  import opened Bytes
  import opened TextCodec
  import opened ValueText

  /** The stored properties; byte strings are in memory order. */
  datatype Identity = Identity(
    addr: seq<Byte>, activation: nat, class_: nat, devEUI: seq<Byte>, nwkSKey: seq<Byte>, appSKey: seq<Byte>,
    version: Byte, appEUI: seq<Byte>, appKey: seq<Byte>, nwkKey: seq<Byte>, devNonce: seq<Byte>, joinNonce: seq<Byte>,
    token: nat, region: Byte, subRegion: Byte, name: seq<Byte>)

  predicate HasSizes(d: Identity) {
    && |d.addr| == 4 && |d.devEUI| == |d.appEUI| == 8
    && |d.nwkSKey| == |d.appSKey| == |d.appKey| == |d.nwkKey| == KEY_SIZE
    && |d.devNonce| == 2 && |d.joinNonce| == 3 && |d.name| == NAME_SIZE
  }

  predicate ValidEnums(d: Identity) {
    d.activation <= 1 && d.class_ <= 2
  }

  predicate IsZero(addr: seq<Byte>) {
    forall i :: 0 <= i < |addr| ==> addr[i] == 0
  }

  lemma ZeroIs(addr: seq<Byte>)
    requires |addr| == 4
    ensures IsZero(addr) <==> addr == [0, 0, 0, 0]
  {}

  // ---------- printing ----------

  /** Text of property `i`, in the order of the line. */
  function PropertyText(d: Identity, i: nat): string {
    match i {
      case 0 => ActivationText(d.activation)
      case 1 => ClassText(d.class_)
      case 2 => NumberText(d.devEUI)
      case 3 => HexString(d.nwkSKey)
      case 4 => HexString(d.appSKey)
      case 5 => VersionText(d.version)
      case 6 => NumberText(d.appEUI)
      case 7 => HexString(d.appKey)
      case 8 => HexString(d.nwkKey)
      case 9 => HexString(d.devNonce)
      case _ => HexString(d.joinNonce)
    }
  }

  /** Texts of the eleven properties from activation to join nonce. */
  function PropertyTexts(d: Identity): (t: seq<string>)
    ensures |t| == 11
  {
    seq(11, i requires 0 <= i < 11 => PropertyText(d, i))
  }

  /** Texts that are printed last; of these only the first is looked at when the line is read. */
  function TrailingTexts(d: Identity): seq<string> {
    [Dec(d.token % 65536), Dec(d.region), Dec(d.subRegion), NameText(d.name)]
  }

  function Texts(d: Identity): seq<string> {
    (if IsZero(d.addr) then [] else [NumberText(d.addr)]) + PropertyTexts(d) + TrailingTexts(d)
  }

  /** The texts with a comma between neighbours. */
  function Join(texts: seq<string>): string {
    if texts == [] then "" else if |texts| == 1 then texts[0] else texts[0] + ("," + Join(texts[1..]))
  }

  function ToText(d: Identity): string { Join(Texts(d)) }

  // ---------- reading ----------

  /** Length of the text in front of the first comma. */
  function FieldLength(s: string): (k: nat)
    ensures k <= |s|
  {
    if s == [] || s[0] == ',' then 0 else 1 + FieldLength(s[1..])
  }

  function Fields(s: string): seq<string>
    decreases |s|
  {
    var k := FieldLength(s);
    if k == |s| then [s] else [s[..k]] + Fields(s[k + 1..])
  }

  /** `setIdentity`: store field number `c`; numbers beyond the table are ignored. */
  function Set(d: Identity, c: nat, s: string): Identity {
    if c == 1 then d.(addr := ParseNumber(s, 4))
    else if c == 2 then d.(activation := ParseActivation(s))
    else if c == 3 then d.(class_ := ParseClass(s))
    else if c == 4 then d.(devEUI := ParseNumber(s, 8))
    else if c == 5 then d.(nwkSKey := ReadKey(d.nwkSKey, s))
    else if c == 6 then d.(appSKey := ReadKey(d.appSKey, s))
    else if c == 7 then d.(version := ParseVersion(s))
    else if c == 8 then d.(appEUI := ParseNumber(s, 8))
    else if c == 9 then d.(appKey := ReadKey(d.appKey, s))
    else if c == 10 then d.(nwkKey := ReadKey(d.nwkKey, s))
    else if c == 11 then d.(devNonce := ParseNonce(StrToUnsigned16(s), 2))
    else if c == 12 then d.(joinNonce := ParseNonce(StrToSigned16(s), 3))
    else if c == 13 then d.(name := ParseName(s))
    else d
  }

  function ReadKey(prev: seq<Byte>, s: string): seq<Byte> {
    if |prev| == KEY_SIZE then ParseKey(prev, s) else prev
  }

  /** Fields stored one after the other, numbered from `c`. */
  function Fold<T>(store: (T, nat, string) -> T, d: T, c: nat, fields: seq<string>): T
    decreases |fields|
  {
    if fields == [] then d else Fold(store, store(d, c, fields[0]), c + 1, fields[1..])
  }

  /** `string2NETWORKIDENTITY` into a record that already holds `d`. */
  function FromText(d: Identity, s: string): Identity {
    Fold(Set, d, 1, Fields(CStr(s)))
  }

  // ---------- fields ----------

  predicate NoComma(s: string) {
    forall i :: 0 <= i < |s| ==> s[i] != ','
  }

  lemma {:induction false} FieldEnds(a: string, rest: string)
    requires NoComma(a)
    ensures FieldLength(a + ("," + rest)) == |a|
    decreases |a|
  {
    if a == [] {
      assert a + ("," + rest) == "," + rest;
    } else {
      assert (a + ("," + rest))[1..] == a[1..] + ("," + rest);
      FieldEnds(a[1..], rest);
    }
  }

  lemma FirstField(a: string, rest: string)
    requires NoComma(a)
    ensures Fields(a + ("," + rest)) == [a] + Fields(rest)
  {
    var s := a + ("," + rest);
    FieldEnds(a, rest);
    assert s[..|a|] == a && s[|a| + 1..] == rest;
  }

  lemma JoinCons(a: string, rest: seq<string>)
    requires rest != []
    ensures Join([a] + rest) == a + ("," + Join(rest))
  {
    assert ([a] + rest)[1..] == rest;
  }

  lemma FirstOfJoin(a: string, rest: seq<string>)
    requires NoComma(a) && rest != []
    ensures Fields(Join([a] + rest)) == [a] + Fields(Join(rest))
  {
    JoinCons(a, rest);
    FirstField(a, Join(rest));
  }

  lemma Unfold(texts: seq<string>, more: seq<string>)
    requires texts != []
    ensures texts + more == [texts[0]] + (texts[1..] + more)
  {}

  /** Texts without commas come back as the first fields of the line. */
  lemma {:induction false} FieldsOfJoin(texts: seq<string>, more: seq<string>)
    requires more != [] && forall i :: 0 <= i < |texts| ==> NoComma(texts[i])
    ensures Fields(Join(texts + more)) == texts + Fields(Join(more))
    decreases |texts|
  {
    if texts == [] {
      assert texts + more == more;
    } else {
      FieldsOfJoin(texts[1..], more);
      FirstOfJoin(texts[0], texts[1..] + more);
      Unfold(texts, more);
      Unfold(texts, Fields(Join(more)));
    }
  }

  lemma {:induction false} FoldAppend<T>(store: (T, nat, string) -> T, d: T, c: nat, a: seq<string>, b: seq<string>)
    ensures Fold(store, d, c, a + b) == Fold(store, Fold(store, d, c, a), c + |a|, b)
    decreases |a|
  {
    if a == [] {
      assert a + b == b;
    } else {
      assert (a + b)[1..] == a[1..] + b;
      FoldAppend(store, store(d, c, a[0]), c + 1, a[1..], b);
    }
  }

  lemma FoldOne<T>(store: (T, nat, string) -> T, d: T, c: nat, a: string)
    ensures Fold(store, d, c, [a]) == store(d, c, a)
  {
    assert Fold(store, d, c, [a]) == Fold(store, store(d, c, a), c + 1, [a][1..]);
  }

  lemma FoldCons<T>(store: (T, nat, string) -> T, d: T, c: nat, a: string, rest: seq<string>)
    ensures Fold(store, d, c, [a] + rest) == Fold(store, store(d, c, a), c + 1, rest)
  {
    assert ([a] + rest)[1..] == rest;
  }

  /** From field 14 on nothing is stored. */
  lemma {:induction false} RestIgnored(d: Identity, c: nat, fields: seq<string>)
    requires c >= 14
    ensures Fold(Set, d, c, fields) == d
    decreases |fields|
  {
    if fields != [] { RestIgnored(d, c + 1, fields[1..]); }
  }

  // ---------- plain texts ----------

  predicate Plain(s: string) {
    NoComma(s) && '\0' !in s
  }

  lemma NumberTextPlain(data: seq<Byte>)
    ensures Plain(NumberText(data))
  {
    HexIsPlain(ReverseBytes(data));
  }

  lemma PropertiesPlain(d: Identity, i: nat)
    requires i < 11
    ensures Plain(PropertyText(d, i))
  {
    match i {
      case 0 => case 1 =>
      case 2 => NumberTextPlain(d.devEUI);
      case 3 => HexIsPlain(d.nwkSKey);
      case 4 => HexIsPlain(d.appSKey);
      case 5 => VersionIsPlain(d.version);
      case 6 => NumberTextPlain(d.appEUI);
      case 7 => HexIsPlain(d.appKey);
      case 8 => HexIsPlain(d.nwkKey);
      case 9 => HexIsPlain(d.devNonce);
      case _ => HexIsPlain(d.joinNonce);
    }
  }

  predicate NoNul(s: string) { '\0' !in s }

  lemma {:induction false} JoinNoNul(texts: seq<string>)
    requires forall i :: 0 <= i < |texts| ==> NoNul(texts[i])
    ensures NoNul(Join(texts))
    decreases |texts|
  {
    if |texts| > 1 { JoinNoNul(texts[1..]); }
  }

  lemma TextsNoNul(d: Identity)
    ensures NoNul(ToText(d))
  {
    NumberTextPlain(d.addr);
    forall i | 0 <= i < 11 ensures NoNul(PropertyTexts(d)[i]) { PropertiesPlain(d, i); }
    JoinNoNul(Texts(d));
  }

  // ---------- round trip ----------

  /** The properties in front of the token are those of `d`. */
  predicate SameProperties(r: Identity, d: Identity) {
    && r.activation == d.activation && r.class_ == d.class_ && r.devEUI == d.devEUI && r.nwkSKey == d.nwkSKey
    && r.appSKey == d.appSKey && r.version == d.version && r.appEUI == d.appEUI && r.appKey == d.appKey
    && r.nwkKey == d.nwkKey && r.devNonce == d.devNonce && r.joinNonce == d.joinNonce
  }

  /** `r` after the first `i` of the eleven properties of `d` were stored. */
  function Stored(r: Identity, d: Identity, i: nat): Identity {
    r.(activation := if i > 0 then d.activation else r.activation,
    class_ := if i > 1 then d.class_ else r.class_,
    devEUI := if i > 2 then d.devEUI else r.devEUI,
    nwkSKey := if i > 3 then d.nwkSKey else r.nwkSKey,
    appSKey := if i > 4 then d.appSKey else r.appSKey,
    version := if i > 5 then d.version else r.version,
    appEUI := if i > 6 then d.appEUI else r.appEUI,
    appKey := if i > 7 then d.appKey else r.appKey,
    nwkKey := if i > 8 then d.nwkKey else r.nwkKey,
    devNonce := if i > 9 then d.devNonce else r.devNonce,
    joinNonce := if i > 10 then d.joinNonce else r.joinNonce)
  }

  // Each property, read from its text, is stored where it belongs.

  predicate Fits(r: Identity, d: Identity) {
    HasSizes(r) && HasSizes(d) && ValidEnums(d)
  }

  predicate Stores(r: Identity, d: Identity, i: nat, s: string) {
    Set(Stored(r, d, i), i + 2, s) == Stored(r, d, i + 1)
  }

  lemma StoreActivation(r: Identity, d: Identity)
    requires Fits(r, d)
    ensures Stores(r, d, 0, ActivationText(d.activation))
  {
    EnumRoundTrip(d.activation);
  }

  lemma StoreClass(r: Identity, d: Identity)
    requires Fits(r, d)
    ensures Stores(r, d, 1, ClassText(d.class_))
  {
    EnumRoundTrip(d.class_);
  }

  lemma StoreDevEui(r: Identity, d: Identity)
    requires Fits(r, d)
    ensures Stores(r, d, 2, NumberText(d.devEUI))
  {
    NumberRoundTrip(d.devEUI);
  }

  lemma StoreNwkSKey(r: Identity, d: Identity)
    requires Fits(r, d)
    ensures Stores(r, d, 3, HexString(d.nwkSKey))
  {
    KeyRoundTrip(r.nwkSKey, d.nwkSKey);
  }

  lemma StoreAppSKey(r: Identity, d: Identity)
    requires Fits(r, d)
    ensures Stores(r, d, 4, HexString(d.appSKey))
  {
    KeyRoundTrip(r.appSKey, d.appSKey);
  }

  lemma StoreVersion(r: Identity, d: Identity)
    requires Fits(r, d)
    ensures Stores(r, d, 5, VersionText(d.version))
  {
    VersionRoundTrip(d.version);
  }

  lemma StoreAppEui(r: Identity, d: Identity)
    requires Fits(r, d)
    ensures Stores(r, d, 6, NumberText(d.appEUI))
  {
    NumberRoundTrip(d.appEUI);
  }

  lemma StoreAppKey(r: Identity, d: Identity)
    requires Fits(r, d)
    ensures Stores(r, d, 7, HexString(d.appKey))
  {
    KeyRoundTrip(r.appKey, d.appKey);
  }

  lemma StoreNwkKey(r: Identity, d: Identity)
    requires Fits(r, d)
    ensures Stores(r, d, 8, HexString(d.nwkKey))
  {
    KeyRoundTrip(r.nwkKey, d.nwkKey);
  }

  lemma StoreDevNonce(r: Identity, d: Identity)
    requires Fits(r, d)
    ensures Stores(r, d, 9, HexString(d.devNonce))
  {
    NonceRoundTrip(d.devNonce);
  }

  lemma StoreJoinNonce(r: Identity, d: Identity)
    requires Fits(r, d)
    ensures Stores(r, d, 10, HexString(d.joinNonce))
  {
    NonceRoundTrip(d.joinNonce);
  }

  lemma StoreOne(r: Identity, d: Identity, i: nat)
    requires Fits(r, d) && i < 11
    ensures Stores(r, d, i, PropertyText(d, i))
  {
    match i {
      case 0 => StoreActivation(r, d);
      case 1 => StoreClass(r, d);
      case 2 => StoreDevEui(r, d);
      case 3 => StoreNwkSKey(r, d);
      case 4 => StoreAppSKey(r, d);
      case 5 => StoreVersion(r, d);
      case 6 => StoreAppEui(r, d);
      case 7 => StoreAppKey(r, d);
      case 8 => StoreNwkKey(r, d);
      case 9 => StoreDevNonce(r, d);
      case _ => StoreJoinNonce(r, d);
    }
  }

  lemma {:induction false} PropertiesStored(r: Identity, d: Identity, i: nat)
    requires HasSizes(r) && HasSizes(d) && ValidEnums(d) && i <= 11
    ensures Fold(Set, r, 2, PropertyTexts(d)[..i]) == Stored(r, d, i)
  {
    if i > 0 {
      var t := PropertyTexts(d);
      PropertiesStored(r, d, i - 1);
      assert t[..i] == t[..i - 1] + [t[i - 1]];
      FoldAppend(Set, r, 2, t[..i - 1], [t[i - 1]]);
      FoldOne(Set, Stored(r, d, i - 1), i + 1, t[i - 1]);
      StoreOne(r, d, i - 1);
    }
  }

  function TokenText(d: Identity): string { Dec(d.token % 65536) }

  /** Fields behind the token; none of them is looked at. */
  function FieldsBehind(d: Identity): seq<string> {
    Fields(Join([Dec(d.region), Dec(d.subRegion), NameText(d.name)]))
  }

  function AddressTexts(d: Identity): seq<string> {
    if IsZero(d.addr) then [] else [NumberText(d.addr)]
  }

  /** The line starts with the fields of the properties and the token. */
  lemma FieldsOfText(d: Identity)
    ensures Fields(CStr(ToText(d))) == AddressTexts(d) + (PropertyTexts(d) + ([TokenText(d)] + FieldsBehind(d)))
  {
    var tail := [Dec(d.region), Dec(d.subRegion), NameText(d.name)];
    TextsNoNul(d);
    CStrWhole(ToText(d));
    HeadPlain(d);
    assert TrailingTexts(d) == [TokenText(d)] + tail;
    assert Texts(d) == Head(d) + tail;
    FieldsOfJoin(Head(d), tail);
    Regroup(AddressTexts(d), PropertyTexts(d), [TokenText(d)], FieldsBehind(d));
  }

  function Head(d: Identity): seq<string> { AddressTexts(d) + PropertyTexts(d) + [TokenText(d)] }

  lemma HeadPlain(d: Identity)
    ensures forall i :: 0 <= i < |Head(d)| ==> NoComma(Head(d)[i])
  {
    var k := |AddressTexts(d)|;
    NumberTextPlain(d.addr);
    forall i | 0 <= i < |Head(d)| ensures NoComma(Head(d)[i]) {
      if k <= i < k + 11 {
        PropertiesPlain(d, i - k);
        assert Head(d)[i] == PropertyTexts(d)[i - k];
      }
    }
  }

  lemma Regroup(a: seq<string>, b: seq<string>, c: seq<string>, rest: seq<string>)
    ensures a + b + c + rest == a + (b + (c + rest))
  {}

  /** The eleven properties, the token and whatever follows, stored from field 2 on. */
  lemma RestStored(r: Identity, d: Identity, rest: seq<string>)
    requires HasSizes(r) && HasSizes(d) && ValidEnums(d)
    ensures Fold(Set, r, 2, PropertyTexts(d) + ([TokenText(d)] + rest)) == Set(Stored(r, d, 11), 13, TokenText(d))
  {
    var t := PropertyTexts(d);
    assert t[..11] == t;
    PropertiesStored(r, d, 11);
    FoldAppend(Set, r, 2, t, [TokenText(d)] + rest);
    FoldCons(Set, Stored(r, d, 11), 13, TokenText(d), rest);
    RestIgnored(Set(Stored(r, d, 11), 13, TokenText(d)), 14, rest);
  }

  /**
   Printing an identity with a non-zero address and reading the line restores the address and the
   eleven properties, whatever the record held before and whatever token, region and name are; the
   name field receives the text of the token.
   */
  lemma RecordRoundTrip(r: Identity, d: Identity)
    requires HasSizes(r) && HasSizes(d) && ValidEnums(d) && d.addr != [0, 0, 0, 0]
    ensures var b := FromText(r, ToText(d));
            b.addr == d.addr && SameProperties(b, d) && b.name == ParseName(Dec(d.token % 65536))
            && b.token == r.token && b.region == r.region && b.subRegion == r.subRegion
  {
    ZeroIs(d.addr);
    FieldsOfText(d);
    var rest := PropertyTexts(d) + ([TokenText(d)] + FieldsBehind(d));
    FoldCons(Set, r, 1, NumberText(d.addr), rest);
    NumberRoundTrip(d.addr);
    RestStored(Set(r, 1, NumberText(d.addr)), d, FieldsBehind(d));
  }

  // ---------- the zero address ----------

  lemma ActivationAsAddress(v: nat)
    ensures ParseNumber(ActivationText(v), 4) == if v == 1 then [0, 0, 0, 0] else [0xAB, 0, 0, 0]
  {
    var s := ActivationText(v);
    assert SkipSpaces(s) == s;
    if v == 1 {
      assert Digits16(s, 0) == 0;
    } else {
      assert s[1..] == "BP" && s[1..][1..] == "P";
      assert Digits16("P", 0xAB) == 0xAB;
      assert Digits16(s[1..], 10) == 0xAB;
    }
    assert StrToUnsigned16(s) == if v == 1 then 0 else 0xAB;
  }

  /**
   A zero address is not printed, so every field is read one place too early: the round trip holds
   exactly for addresses that are not zero.
   */
  lemma RoundTripIffAddress(r: Identity, d: Identity)
    requires HasSizes(r) && HasSizes(d) && ValidEnums(d)
    ensures FromText(r, ToText(d)).addr == d.addr && SameProperties(FromText(r, ToText(d)), d)
       <==> d.addr != [0, 0, 0, 0]
  {
    ZeroIs(d.addr);
    if IsZero(d.addr) { ZeroAddressFails(r, d); } else { RecordRoundTrip(r, d); }
  }

  lemma ZeroAddressFails(r: Identity, d: Identity)
    requires ValidEnums(d) && IsZero(d.addr) && |d.addr| == 4
    ensures FromText(r, ToText(d)).addr != d.addr || FromText(r, ToText(d)).activation != d.activation
  {
    var t := PropertyTexts(d) + ([TokenText(d)] + FieldsBehind(d));
    FieldsOfText(d);
    assert [] + t == t;
    assert t[0] == PropertyText(d, 0) && t[1] == PropertyText(d, 1);
    FirstTwoStay(r, t);
    ActivationAsAddress(d.activation);
    if d.activation == 0 {
      assert ParseNumber(t[0], 4)[0] == 0xAB;
    } else {
      assert ParseActivation(ClassText(d.class_)) == 0;
    }
  }

  /** Address and activation come from the first two fields. */
  lemma FirstTwoStay(r: Identity, t: seq<string>)
    requires |t| >= 2
    ensures Fold(Set, r, 1, t).addr == ParseNumber(t[0], 4) && Fold(Set, r, 1, t).activation == ParseActivation(t[1])
  {
    assert t == [t[0]] + ([t[1]] + t[2..]);
    FoldCons(Set, r, 1, t[0], [t[1]] + t[2..]);
    FoldCons(Set, Set(r, 1, t[0]), 2, t[1], t[2..]);
    LaterKeep(Set(Set(r, 1, t[0]), 2, t[1]), 3, t[2..]);
  }

  lemma {:induction false} LaterKeep(d: Identity, c: nat, fields: seq<string>)
    requires c >= 3
    ensures Fold(Set, d, c, fields).addr == d.addr && Fold(Set, d, c, fields).activation == d.activation
    decreases |fields|
  {
    if fields != [] { LaterKeep(Set(d, c, fields[0]), c + 1, fields[1..]); }
  }

  // ---------- the program ----------

  /** The loop of `string2NETWORKIDENTITY`, for any way of storing a field. */
  method StoreFields<T>(store: (T, nat, string) -> T, prev: T, s: string) returns (retVal: T)
    ensures retVal == Fold(store, prev, 1, Fields(s))
  {
    retVal := prev;
    var c := 1;
    var start, p := 0, 0;
    assert s[0..] == s;
    while p < |s|
      invariant 0 <= start <= p <= |s| && c >= 1
      invariant forall k :: start <= k < p ==> s[k] != ','
      invariant Fold(store, retVal, c, Fields(s[start..])) == Fold(store, prev, 1, Fields(s))
    {
      if s[p] == ',' {
        FieldHere(s, start, p);
        FoldCons(store, retVal, c, s[start..p], Fields(s[p + 1..]));
        retVal := store(retVal, c, s[start..p]);
        c := c + 1;
        start := p + 1;
      }
      p := p + 1;
    }
    assert s[start..p] == s[start..];
    LastField(s[start..]);
    FoldOne(store, retVal, c, s[start..p]);
    retVal := store(retVal, c, s[start..p]);
  }

  /** `string2NETWORKIDENTITY`; `identityString` is read up to its NUL. */
  method StringToIdentity(prev: Identity, identityString: string) returns (retVal: Identity)
    ensures retVal == FromText(prev, identityString)
  {
    retVal := StoreFields(Set, prev, CStr(identityString));
  }

  lemma FieldHere(s: string, start: nat, p: nat)
    requires start <= p < |s| && s[p] == ',' && forall k :: start <= k < p ==> s[k] != ','
    ensures Fields(s[start..]) == [s[start..p]] + Fields(s[p + 1..])
  {
    assert s[start..] == s[start..p] + ("," + s[p + 1..]);
    FirstField(s[start..p], s[p + 1..]);
  }

  lemma LastField(s: string)
    requires NoComma(s)
    ensures Fields(s) == [s]
  {
    WholeField(s);
  }

  lemma {:induction false} WholeField(s: string)
    requires NoComma(s)
    ensures FieldLength(s) == |s|
    decreases |s|
  {
    if s != [] { WholeField(s[1..]); }
  }
}
