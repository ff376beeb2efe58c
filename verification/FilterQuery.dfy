/**
 Queries end to end (lorawan-string.cpp, `string2NETWORK_IDENTITY_FILTERS`; lorawan-types.cpp,
 `isIdentityFilteredV`): which devices a filter expression, given as text, selects.
 */
module FilterQuery {
  import opened Bytes
  import opened TextCodec
  import opened ValueText
  import opened FilterText
  import opened FilterValues
  import opened IdentityRecord
  import opened FilterMatch

  // ---------- what a query says ----------

  /** A column of the device table: its name in queries, and its bytes in memory. */
  datatype Column = Column(name: string, bytes: seq<Byte>)

  /** The columns that can be queried; device nonces cannot, their value is thrown away. */
  function ColumnOf(d: Identity, p: nat): Column {
    match p {
      case 1 => Column("addr", d.addr)
      case 2 => Column("activation", [d.activation % 256, 0, 0, 0])
      case 3 => Column("class", [d.class_ % 256, 0, 0, 0])
      case 4 => Column("deveui", d.devEUI)
      case 5 => Column("nwkskey", d.nwkSKey)
      case 6 => Column("appskey", d.appSKey)
      case 7 => Column("version", [d.version])
      case 8 => Column("appeui", d.appEUI)
      case 9 => Column("appkey", d.appKey)
      case 10 => Column("nwkkey", d.nwkKey)
      case 12 => Column("joinnonce", d.joinNonce)
      case 13 => Column("name", d.name)
      case _ => Column("", [])
    }
  }

  predicate IsColumn(p: nat) { 1 <= p <= 13 && p != 11 }

  /** The text of column `p` of a device, as the identity record prints it. */
  function ColumnText(v: Identity, p: nat): string {
    if p == 1 then NumberText(v.addr)
    else if p == 13 then NameText(v.name)
    else PropertyText(v, if p >= 2 then p - 2 else 0)
  }

  /** A comparison of a column with the value that `value` has there, and the word that joins it to those before. */
  datatype Term = Term(joined: string, column: nat, op: string, value: Identity)

  const OPS: seq<string> := ["=", "<>", ">", "<", ">=", "<="]

  predicate IsTerm(t: Term) {
    && (t.joined == "and" || t.joined == "or") && IsColumn(t.column) && t.op in OPS
    && HasSizes(t.value) && ValidEnums(t.value) && (t.column == 13 ==> NoSpaces(NameText(t.value.name)))
  }

  function TermText(t: Term, isFirst: bool): string {
    var c := ColumnOf(t.value, t.column).name + (" " + (t.op + (" '" + (ColumnText(t.value, t.column) + "'"))));
    if isFirst then c else t.joined + (" " + c)
  }

  function QueryText(terms: seq<Term>, isFirst: bool): string {
    if terms == [] then "" else TermText(terms[0], isFirst) + (" " + QueryText(terms[1..], false))
  }

  /** Bytes compared: all of the column, but of a name only as many as the value has. */
  function Extent(t: Term): nat {
    if t.column == 13 then |NameText(t.value.name)| else |ColumnOf(t.value, t.column).bytes|
  }

  /** The comparison, in the order of the bytes at the first difference. */
  predicate Holds(t: Term, d: Identity)
    requires IsTerm(t) && HasSizes(d)
  {
    var a, b, n := ColumnOf(d, t.column).bytes, ColumnOf(t.value, t.column).bytes, Extent(t);
    if t.op == "=" then a[..n] == b[..n]
    else if t.op == "<>" then a[..n] != b[..n]
    else if t.op == ">" then LexLess(b, a, n)
    else if t.op == "<" then LexLess(a, b, n)
    else if t.op == ">=" then !LexLess(a, b, n)
    else !LexLess(b, a, n)
  }

  predicate AllTerms(terms: seq<Term>) {
    forall i :: 0 <= i < |terms| ==> IsTerm(terms[i])
  }

  /** Every comparison holds that is first or joined by "and". */
  predicate Selects(terms: seq<Term>, d: Identity)
    requires AllTerms(terms) && HasSizes(d)
  {
    forall i :: 0 <= i < |terms| && (i == 0 || terms[i].joined == "and") ==> Holds(terms[i], d)
  }

  // ---------- the filters behind it ----------

  function OpIndex(op: string): nat {
    if op == "=" then EQ else if op == "<>" then NE else if op == ">" then GT
    else if op == "<" then LT else if op == ">=" then GE else LE
  }

  function JoinIndex(joined: string): nat { if joined == "or" then PRE_OR else PRE_AND }

  function FilterOf(t: Term): Filter
    requires IsTerm(t)
  {
    var b := ColumnOf(t.value, t.column).bytes;
    Filter(JoinIndex(t.joined), t.column, OpIndex(t.op), Extent(t), b + Zeros(DATA_SIZE - |b|))
  }

  function FiltersOf(terms: seq<Term>): (fs: seq<Filter>)
    requires AllTerms(terms)
    ensures |fs| == |terms|
  {
    seq(|terms|, i requires 0 <= i < |terms| => FilterOf(terms[i]))
  }

  lemma ColumnIsProperty(d: Identity, p: nat)
    requires IsColumn(p) && HasSizes(d)
    ensures ColumnOf(d, p) == Column(Properties()[p], IdentityProperty(d, p))
    ensures |ColumnOf(d, p).bytes| == PropertySize(p) <= DATA_SIZE
  {}

  lemma OperatorIs(op: string)
    requires op in OPS
    ensures 0 < OpIndex(op) <= 6 && Operators()[OpIndex(op)] == op
  {}

  lemma JoinIs(joined: string)
    requires joined == "and" || joined == "or"
    ensures 0 < JoinIndex(joined) <= 2 && Connectives()[JoinIndex(joined)] == joined
    ensures JoinIndex(joined) == PRE_OR <==> joined == "or"
  {
    assert "and"[0] != "or"[0];
  }

  lemma ExtentInside(t: Term)
    requires IsTerm(t)
    ensures Extent(t) <= PropertySize(t.column) == |ColumnOf(t.value, t.column).bytes| <= DATA_SIZE
  {
    ColumnIsProperty(t.value, t.column);
  }

  lemma {:induction false} NameIs(d: seq<Byte>)
    ensures var n := |NameText(d)|;
            && (n < |d| ==> d[n] == 0)
            && forall i :: 0 <= i < n ==> d[i] != 0 && NameText(d)[i] == CharOf(d[i])
  {
    if d != [] && d[0] != 0 {
      NameIs(d[1..]);
      assert NameText(d)[1..] == NameText(d[1..]);
    }
  }

  lemma NameFits(d: seq<Byte>, data: seq<Byte>, n: nat)
    requires |d| == NAME_SIZE && |data| == DATA_SIZE && data[..8] == d
    requires n == |NameText(d)| && NoSpaces(NameText(d))
    ensures IsName(data, n)
  {
    NameIs(d);
    assert forall i :: 0 <= i < 8 ==> data[i] == data[..8][i];
    assert forall i :: 0 <= i < n ==> NameText(d)[i] == CharOf(data[i]);
  }

  lemma EnumFront(data: seq<Byte>, v: nat)
    requires |data| == DATA_SIZE && data[..4] == [v, 0, 0, 0] && v < 256
    ensures data[0] == v && data[1] == data[2] == data[3] == 0 && LittleEndian(data[..4]) == v
  {
    assert data[0] == data[..4][0] && data[1] == data[..4][1] && data[2] == data[..4][2] && data[3] == data[..4][3];
    EnumValue(data[..4], v);
  }

  /** `f` holds the bytes of column `p` of `v`. */
  predicate Carries(f: Filter, v: Identity, p: nat) {
    && HasSizes(v) && ValidEnums(v) && IsColumn(p) && f.property == p && |f.data| == DATA_SIZE
    && var b := ColumnOf(v, p).bytes; |b| <= DATA_SIZE && f.data[..|b|] == b
  }

  predicate Prints(f: Filter, v: Identity) {
    |f.data| == DATA_SIZE && IsValue(f.property, f.length, f.data) && ValueToText(f) == ColumnText(v, f.property)
  }

  lemma EnumPrints(f: Filter, v: Identity, p: nat)
    requires Carries(f, v, p) && (p == 2 || p == 3) && f.length == 4
    ensures Prints(f, v)
  {
    EnumFront(f.data, if p == 2 then v.activation else v.class_);
  }

  lemma NumberPrints(f: Filter, v: Identity, p: nat)
    requires Carries(f, v, p) && (p == 1 || IsEui(p) || p == 12) && f.length == |ColumnOf(v, p).bytes|
    ensures Prints(f, v)
  {}

  lemma KeyPrints(f: Filter, v: Identity, p: nat)
    requires Carries(f, v, p) && IsKey(p) && f.length == 16
    ensures Prints(f, v)
  {
    assert f.data == ColumnOf(v, p).bytes;
  }

  lemma VersionPrints(f: Filter, v: Identity, p: nat)
    requires Carries(f, v, p) && p == 7 && f.length == 1
    ensures Prints(f, v)
  {
    assert f.data[0] == f.data[..1][0];
  }

  lemma NamePrints(f: Filter, v: Identity, p: nat)
    requires Carries(f, v, p) && p == 13 && f.length == |NameText(v.name)| && NoSpaces(NameText(v.name))
    ensures Prints(f, v)
  {
    NameFits(v.name, f.data, f.length);
  }

  lemma ValuePrints(f: Filter, v: Identity, p: nat)
    requires Carries(f, v, p) && (p == 13 ==> NoSpaces(NameText(v.name)))
    requires f.length == if p == 13 then |NameText(v.name)| else |ColumnOf(v, p).bytes|
    ensures Prints(f, v)
  {
    if p == 2 || p == 3 { EnumPrints(f, v, p); }
    else if IsKey(p) { KeyPrints(f, v, p); }
    else if p == 7 { VersionPrints(f, v, p); }
    else if p == 13 { NamePrints(f, v, p); }
    else { NumberPrints(f, v, p); }
  }

  /** The filter is well formed and prints the text of the value. */
  lemma FilterPrints(t: Term)
    requires IsTerm(t)
    ensures WellFormed(FilterOf(t)) && ValueToText(FilterOf(t)) == ColumnText(t.value, t.column)
  {
    var f, b := FilterOf(t), ColumnOf(t.value, t.column).bytes;
    OperatorIs(t.op);
    JoinIs(t.joined);
    ExtentInside(t);
    assert f.data[..|b|] == b;
    ValuePrints(f, t.value, t.column);
  }

  lemma {:induction false} QueryPrints(terms: seq<Term>, isFirst: bool)
    requires AllTerms(terms)
    ensures QueryText(terms, isFirst) == FiltersToText(ValueToText, FiltersOf(terms), isFirst)
  {
    if terms != [] {
      var t := terms[0];
      FilterPrints(t);
      ColumnIsProperty(t.value, t.column);
      OperatorIs(t.op);
      JoinIs(t.joined);
      QueryPrints(terms[1..], false);
      assert FiltersOf(terms)[1..] == FiltersOf(terms[1..]);
    }
  }

  lemma {:induction false} MemCmpFront(a: seq<Byte>, b: seq<Byte>, c: seq<Byte>, n: nat)
    requires n <= |b| && n <= |c| && b[..n] == c[..n]
    ensures MemCmp(a, b, n) == MemCmp(a, c, n)
    decreases n
  {
    if n > 0 && a != [] {
      assert b[0] == b[..n][0] && c[0] == c[..n][0];
      assert b[1..][..n - 1] == b[..n][1..] && c[1..][..n - 1] == c[..n][1..];
      MemCmpFront(a[1..], b[1..], c[1..], n - 1);
    }
  }

  lemma SameMatches(d: Identity, f: Filter, g: Filter)
    requires Same(f, g)
    ensures Matches(d, f) == Matches(d, g)
  {
    var n := ComparedSize(f);
    assert f.data[..n] == f.data[..f.length][..n] && g.data[..n] == g.data[..g.length][..n];
    MemCmpFront(IdentityProperty(d, f.property), f.data, g.data, n);
  }

  /** The filter behind a comparison tests just that. */
  lemma MatchesHolds(t: Term, d: Identity)
    requires IsTerm(t) && HasSizes(d)
    ensures Matches(d, FilterOf(t)) <==> Holds(t, d)
  {
    var f, b := FilterOf(t), ColumnOf(t.value, t.column).bytes;
    ExtentInside(t);
    ColumnIsProperty(d, t.column);
    assert ComparedSize(f) == Extent(t);
    OperatorsMeanOrder(d, f);
    FrontOrder(ColumnOf(d, t.column).bytes, b, f.data, Extent(t));
    OperatorIs(t.op);
    assert f.(op := f.op) == f;
  }

  lemma FrontOrder(a: seq<Byte>, b: seq<Byte>, c: seq<Byte>, n: nat)
    requires n <= |a| && n <= |b| <= |c| && c[..|b|] == b
    ensures c[..n] == b[..n] && (LexLess(a, c, n) <==> LexLess(a, b, n)) && (LexLess(c, a, n) <==> LexLess(b, a, n))
  {
    assert c[..n] == c[..|b|][..n];
    forall k | 0 <= k < n ensures LessAt(a, c, k) == LessAt(a, b, k) && LessAt(c, a, k) == LessAt(b, a, k) {
      assert c[..k] == c[..|b|][..k] && c[k] == c[..|b|][k];
    }
  }

  lemma {:induction false} SameAt(a: seq<Filter>, b: seq<Filter>, i: nat)
    requires SameList(a, b) && i < |a|
    ensures |a| == |b| && Same(a[i], b[i])
    decreases |a|
  {
    if i > 0 { SameAt(a[1..], b[1..], i - 1); }
  }

  /** Parsing the text of a query gives filters that test what the query says, and "or" or not as it says. */
  lemma ParsedTerm(terms: seq<Term>, d: Identity, i: nat)
    requires AllTerms(terms) && HasSizes(d) && i < |terms|
    ensures var fs := Parse(QueryText(terms, true));
            && |fs| == |terms| && (Matches(d, fs[i]) <==> Holds(terms[i], d))
            && (fs[i].pre != PRE_OR <==> i == 0 || terms[i].joined == "and")
  {
    var fs, t := FiltersOf(terms), terms[i];
    forall k | 0 <= k < |fs| ensures WellFormed(fs[k]) && fs[k].property != DEVNONCE { FilterPrints(terms[k]); }
    QueryPrints(terms, true);
    PlainRoundTrip(fs);
    SameAt(Parse(QueryText(terms, true)), AndFirst(fs), i);
    SameMatches(d, Parse(QueryText(terms, true))[i], AndFirst(fs)[i]);
    PreIgnored(d, FilterOf(t));
    MatchesHolds(t, d);
    JoinIs(t.joined);
  }

  lemma PreIgnored(d: Identity, f: Filter)
    ensures Matches(d, f.(pre := PRE_AND)) == Matches(d, f)
  {}

  /**
   The filters of a query's text select exactly the devices on which every comparison holds that is
   first or joined by "and".
   */
  lemma QueryMeans(terms: seq<Term>, d: Identity)
    requires AllTerms(terms) && HasSizes(d)
    ensures AllButOr(f => Matches(d, f), Parse(QueryText(terms, true))) <==> Selects(terms, d)
  {
    var fs := Parse(QueryText(terms, true));
    forall i | 0 <= i < |terms|
      ensures |fs| == |terms| && (Matches(d, fs[i]) <==> Holds(terms[i], d))
      ensures fs[i].pre != PRE_OR <==> i == 0 || terms[i].joined == "and"
    {
      ParsedTerm(terms, d, i);
    }
    if terms == [] { NothingParsed(d); }
  }

  lemma NothingParsed(d: Identity)
    ensures Parse(QueryText([], true)) == []
  {
    PlainRoundTrip([]);
  }

  /** The filter behind a query for a device nonce, with the bytes asked for. */
  function NonceFilter(nonce: seq<Byte>): Filter
    requires |nonce| == 2
  {
    Filter(PRE_AND, DEVNONCE, EQ, 2, nonce + Zeros(DATA_SIZE - 2))
  }

  /** devnonce = 'the nonce', and a space. */
  function NonceText(nonce: seq<Byte>): string {
    "devnonce" + (" " + ("=" + (" '" + (HexString(nonce) + "'")))) + " "
  }

  lemma NonceFilterPrints(nonce: seq<Byte>)
    requires |nonce| == 2
    ensures WellFormed(NonceFilter(nonce)) && Print([NonceFilter(nonce)]) == NonceText(nonce)
  {
    var f := NonceFilter(nonce);
    NonceBytes(f, nonce);
    assert Properties()[DEVNONCE] == "devnonce" && Operators()[EQ] == "=";
    OneFilterPrints(f);
  }

  lemma NonceBytes(f: Filter, nonce: seq<Byte>)
    requires |nonce| == 2 && f == NonceFilter(nonce)
    ensures WellFormed(f) && ValueToText(f) == HexString(nonce)
  {
    assert f.data[..2] == nonce;
  }

  lemma OneFilterPrints(f: Filter)
    ensures Print([f]) == Condition(ValueToText, f) + " "
  {
    assert [f][1..] == [] && FiltersToText(ValueToText, [], false) == "";
    assert FiltersToText(ValueToText, [f], true)
        == FilterToText(ValueToText, f, true) + (" " + FiltersToText(ValueToText, [f][1..], false));
  }

  lemma NonceParsed(f: Filter)
    requires WellFormed(f) && f.pre == PRE_AND && f.property == DEVNONCE
    ensures Parse(Print([f])) == [f.(data := Zeros(DATA_SIZE))]
  {
    ValuesArePrintable(f);
    ParsedIs([f]);
    ReadSame(f, INITIAL.f);
    assert AndFirst([f])[1..] == [] && AndFirst([f])[0] == f;
  }

  /** A query for a device nonce finds the devices whose nonce is zero, whatever it asks for. */
  lemma NonceQuery(nonce: seq<Byte>, d: Identity)
    requires |nonce| == 2 && HasSizes(d)
    ensures var fs := Parse(NonceText(nonce)); |fs| == 1 && (Matches(d, fs[0]) <==> d.devNonce == [0, 0])
  {
    NonceFilterPrints(nonce);
    NonceParsed(NonceFilter(nonce));
    ZeroNonceMatches(d, NonceFilter(nonce).(data := Zeros(DATA_SIZE)));
  }

  lemma ZeroNonceMatches(d: Identity, g: Filter)
    requires HasSizes(d) && g.property == DEVNONCE && g.op == EQ && g.length == 2 && g.data == Zeros(DATA_SIZE)
    ensures Matches(d, g) <==> d.devNonce == [0, 0]
  {
    MatchesWhole(d, g);
    assert Zeros(DATA_SIZE)[..2] == [0, 0];
  }

  // ---------- records and filters read from the same text ----------

  /** The bytes a filter keeps behind a text that is too short for a whole key are those of the record. */
  predicate SameRest(d: Identity, f: Filter, s: string)
    requires HasSizes(d)
  {
    var n := |KeyBytes(CStr(s), KEY_SIZE)|;
    IsKey(f.property) ==> IdentityProperty(d, f.property)[n..] == FilterValues.Stored(f)[n..]
  }

  lemma KeysFrom(a: seq<Byte>, b: seq<Byte>, s: string)
    requires |a| == |b| == KEY_SIZE
    ensures var n := |KeyBytes(CStr(s), KEY_SIZE)|; ParseKey(a, s) == ParseKey(b, s) <==> a[n..] == b[n..]
  {
    var data := KeyBytes(CStr(s), KEY_SIZE);
    assert Overwrite(a, data)[|data|..] == a[|data|..] && Overwrite(b, data)[|data|..] == b[|data|..];
  }

  /** An "=" filter with all bytes of its property. */
  predicate IsWhole(f: Filter) {
    f.op == EQ && 1 <= f.property <= 13 && f.length >= PropertySize(f.property) && |f.data| == DATA_SIZE
  }

  lemma MatchesWhole(d: Identity, f: Filter)
    requires HasSizes(d) && IsWhole(f)
    ensures PropertySize(f.property) <= DATA_SIZE
    ensures Matches(d, f) <==> IdentityProperty(d, f.property) == f.data[..PropertySize(f.property)]
  {
    var a, n := IdentityProperty(d, f.property), PropertySize(f.property);
    SizesAreProperties(d, f.property);
    MemCmpZero(a, f.data, n);
    assert a[..n] == a;
  }

  /** The two bytes a filter on a device nonce compares with are those of the text, which it does not store. */
  predicate SameNonce(f: Filter, s: string) {
    f.property == DEVNONCE ==> FilterValues.Stored(f)[..2] == ParseNonce(StrToUnsigned16(s), 2)
  }

  predicate Asks(d: Identity, f: Filter) {
    HasSizes(d) && f.op == EQ && 1 <= f.property <= 13 && |f.data| == DATA_SIZE
  }

  lemma NumberMatches(d: Identity, f: Filter, s: string)
    requires Asks(d, f) && f.property != DEVICENAME && f.property != DEVNONCE && !IsKey(f.property)
    ensures Matches(Set(d, f.property, s), ReadValue(f, s))
  {
    var p, r, g := f.property, Set(d, f.property, s), ReadValue(f, s);
    SetKeepsSizes(d, p, s);
    MatchesWhole(r, g);
    assert g.data[..PropertySize(p)] == IdentityProperty(r, p);
  }

  lemma KeyMatches(d: Identity, f: Filter, s: string)
    requires Asks(d, f) && IsKey(f.property)
    ensures Matches(Set(d, f.property, s), ReadValue(f, s)) <==> SameRest(d, f, s)
  {
    var p, r, g := f.property, Set(d, f.property, s), ReadValue(f, s);
    SetKeepsSizes(d, p, s);
    MatchesWhole(r, g);
    KeysFrom(IdentityProperty(d, p), f.data, s);
    assert IdentityProperty(r, p) == ParseKey(IdentityProperty(d, p), s) && g.data == ParseKey(f.data, s);
    assert g.data[..16] == g.data;
  }

  lemma NonceMatches(d: Identity, f: Filter, s: string)
    requires Asks(d, f) && f.property == DEVNONCE
    ensures Matches(Set(d, DEVNONCE, s), ReadValue(f, s)) <==> SameNonce(f, s)
  {
    SetKeepsSizes(d, DEVNONCE, s);
    MatchesWhole(Set(d, DEVNONCE, s), ReadValue(f, s));
  }

  lemma NameMatches(d: Identity, f: Filter, s: string)
    requires Asks(d, f) && f.property == DEVICENAME
    ensures Matches(Set(d, DEVICENAME, s), ReadValue(f, s))
  {
    var r, g := Set(d, DEVICENAME, s), ReadValue(f, s);
    var n := ComparedSize(g);
    assert g.data[..8] == r.name;
    assert g.data[..n] == g.data[..8][..n];
    MemCmpZero(r.name, g.data, n);
  }

  /**
   A text stored in a record and read as the value of an "=" filter on the same property match, whatever
   the text is, if and only if the rest of a key and the bytes of a device nonce happen to be there already.
   */
  lemma SetMatches(d: Identity, f: Filter, s: string)
    requires Asks(d, f)
    ensures Matches(Set(d, f.property, s), ReadValue(f, s)) <==> SameRest(d, f, s) && SameNonce(f, s)
  {
    if IsKey(f.property) { KeyMatches(d, f, s); }
    else if f.property == DEVNONCE { NonceMatches(d, f, s); }
    else if f.property == DEVICENAME { NameMatches(d, f, s); }
    else { NumberMatches(d, f, s); }
  }

  lemma SetKeepsSizes(d: Identity, c: nat, s: string)
    requires HasSizes(d)
    ensures HasSizes(Set(d, c, s))
  {}
}
