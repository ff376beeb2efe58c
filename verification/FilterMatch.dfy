/**
 Matching identities against filters (lorawan-types.cpp, `isIdentityFiltered`, `isIdentityFiltered2`
 and their list forms).
 */
module FilterMatch {
  import opened Bytes
  import opened FilterText
  import opened FilterValues
  import opened IdentityRecord

  // Operators, by their place in the table.
  const EQ := 1
  const NE := 2
  const GT := 3
  const LT := 4
  const GE := 5
  const LE := 6

  // ---------- one filter ----------

  /** Sign of `memcmp` on the first `n` bytes. */
  function MemCmp(a: seq<Byte>, b: seq<Byte>, n: nat): (c: int)
    ensures -1 <= c <= 1
    decreases n
  {
    if n == 0 || a == [] || b == [] then 0
    else if a[0] != b[0] then (if a[0] < b[0] then -1 else 1)
    else MemCmp(a[1..], b[1..], n - 1)
  }

  lemma {:induction false} MemCmpZero(a: seq<Byte>, b: seq<Byte>, n: nat)
    requires n <= |a| && n <= |b|
    ensures MemCmp(a, b, n) == 0 <==> a[..n] == b[..n]
    decreases n
  {
    if n > 0 {
      MemCmpZero(a[1..], b[1..], n - 1);
      assert a[..n] == [a[0]] + a[1..][..n - 1] && b[..n] == [b[0]] + b[1..][..n - 1];
    }
  }

  /** `a` is below `b` at the first difference among the first `n` bytes. */
  predicate LexLess(a: seq<Byte>, b: seq<Byte>, n: nat)
    requires n <= |a| && n <= |b|
  {
    exists k :: 0 <= k < n && LessAt(a, b, k)
  }

  predicate LessAt(a: seq<Byte>, b: seq<Byte>, k: nat)
    requires k < |a| && k < |b|
  {
    a[..k] == b[..k] && a[k] < b[k]
  }

  lemma {:induction false} MemCmpIsOrder(a: seq<Byte>, b: seq<Byte>, n: nat)
    requires n <= |a| && n <= |b|
    ensures MemCmp(a, b, n) < 0 <==> LexLess(a, b, n)
    ensures MemCmp(a, b, n) > 0 <==> LexLess(b, a, n)
    decreases n
  {
    if n > 0 {
      var x, y := a[1..], b[1..];
      if a[0] == b[0] {
        MemCmpIsOrder(x, y, n - 1);
        TailOrder(a, b, n);
        TailOrder(b, a, n);
      } else {
        FirstDecides(a, b, n);
        FirstDecides(b, a, n);
      }
    }
  }

  lemma SameFirst(a: seq<Byte>, b: seq<Byte>, k: nat)
    requires 0 < k <= |a| && k <= |b| && a[..k] == b[..k]
    ensures a[0] == b[0]
  {
    assert a[0] == a[..k][0] && b[0] == b[..k][0];
  }

  lemma FirstDecides(a: seq<Byte>, b: seq<Byte>, n: nat)
    requires 0 < n <= |a| && n <= |b| && a[0] != b[0]
    ensures LexLess(a, b, n) <==> a[0] < b[0]
  {
    if a[0] < b[0] { assert LessAt(a, b, 0); }
    if LexLess(a, b, n) {
      var k :| 0 <= k < n && LessAt(a, b, k);
      if k > 0 { SameFirst(a, b, k); }
    }
  }

  lemma TailOrder(a: seq<Byte>, b: seq<Byte>, n: nat)
    requires 0 < n <= |a| && n <= |b| && a[0] == b[0]
    ensures LexLess(a, b, n) <==> LexLess(a[1..], b[1..], n - 1)
  {
    if LexLess(a, b, n) {
      var k :| 0 <= k < n && LessAt(a, b, k);
      assert k > 0 && a[1..][..k - 1] == a[..k][1..] && b[1..][..k - 1] == b[..k][1..];
      assert LessAt(a[1..], b[1..], k - 1);
    }
    if LexLess(a[1..], b[1..], n - 1) {
      var k :| 0 <= k < n - 1 && LessAt(a[1..], b[1..], k);
      assert a[..k + 1] == [a[0]] + a[1..][..k] && b[..k + 1] == [b[0]] + b[1..][..k];
      assert LessAt(a, b, k + 1);
    }
  }

  function EnumBytes(v: nat): seq<Byte> { [v % 256, 0, 0, 0] }

  /** `getDeviceIdPropertyPtr`: the bytes from the property on; activation when there is no such property. */
  function DeviceProperty(d: Identity, p: nat): seq<Byte> {
    if p == DEVICE_CLASS then EnumBytes(d.class_)
    else if p == DEVEUI then d.devEUI
    else if p == NWKSKEY then d.nwkSKey
    else if p == APPSKEY then d.appSKey
    else if p == VERSION then [d.version]
    else if p == APPEUI then d.appEUI
    else if p == APPKEY then d.appKey
    else if p == NWKKEY then d.nwkKey
    else if p == DEVNONCE then d.devNonce
    else if p == JOINNONCE then d.joinNonce
    else if p == DEVICENAME then d.name
    else EnumBytes(d.activation)
  }

  /** `getNetworkIdentityPropertyPtr`: the address when there is no such property. */
  function IdentityProperty(d: Identity, p: nat): seq<Byte> {
    if p == ACTIVATION then EnumBytes(d.activation)
    else if p == DEVICE_CLASS then EnumBytes(d.class_)
    else if p == DEVEUI then d.devEUI
    else if p == NWKSKEY then d.nwkSKey
    else if p == APPSKEY then d.appSKey
    else if p == VERSION then [d.version]
    else if p == APPEUI then d.appEUI
    else if p == APPKEY then d.appKey
    else if p == NWKKEY then d.nwkKey
    else if p == DEVNONCE then d.devNonce
    else if p == JOINNONCE then d.joinNonce
    else if p == DEVICENAME then d.name
    else d.addr
  }

  function PropertySize(p: nat): nat {
    if p < 14 then [0, 4, 4, 4, 8, 16, 16, 1, 8, 16, 16, 2, 3, 8][p] else 0
  }

  /** The table of sizes is that of the record's fields. */
  lemma SizesAreProperties(d: Identity, p: nat)
    requires HasSizes(d) && 1 <= p <= 13
    ensures PropertySize(p) == |IdentityProperty(d, p)|
  {}

  function ComparedSize(f: Filter): nat {
    if f.length < PropertySize(f.property) then f.length else PropertySize(f.property)
  }

  predicate Decide(op: nat, c: int) {
    if op == EQ then c == 0
    else if op == GT then c > 0
    else if op == LT then c < 0
    else if op == GE then c >= 0
    else if op == LE then c <= 0
    else if op == NE then c != 0
    else false
  }

  /** `isIdentityFiltered`. */
  predicate Matches(d: Identity, f: Filter) {
    Decide(f.op, MemCmp(IdentityProperty(d, f.property), f.data, ComparedSize(f)))
  }

  /** `isIdentityFiltered2`. */
  predicate Matches2(addr: seq<Byte>, d: Identity, f: Filter) {
    if f.property == ADDRESS then Decide(f.op, MemCmp(addr, f.data, ComparedSize(f)))
    else Decide(f.op, MemCmp(DeviceProperty(d, f.property), f.data, ComparedSize(f)))
  }

  /** The two forms agree on every filter, also on one without a property. */
  lemma FormsAgree(d: Identity, f: Filter)
    ensures Matches(d, f) == Matches2(d.addr, d, f)
  {
    if f.property == 0 || f.property >= 14 { assert ComparedSize(f) == 0; }
  }

  /**
   "=" compares the bytes of the filter with the front of the property, "<" and ">" are the
   lexicographic order of these bytes, and the other operators are the complements.
   */
  lemma OperatorsMeanOrder(d: Identity, f: Filter)
    requires ComparedSize(f) <= |f.data| && ComparedSize(f) <= |IdentityProperty(d, f.property)|
    ensures var a, b, n := IdentityProperty(d, f.property), f.data, ComparedSize(f);
            && (Matches(d, f.(op := EQ)) <==> a[..n] == b[..n])
            && (Matches(d, f.(op := LT)) <==> LexLess(a, b, n))
            && (Matches(d, f.(op := GT)) <==> LexLess(b, a, n))
            && (Matches(d, f.(op := NE)) <==> a[..n] != b[..n])
            && (Matches(d, f.(op := GE)) <==> !LexLess(a, b, n))
            && (Matches(d, f.(op := LE)) <==> !LexLess(b, a, n))
  {
    MemCmpZero(IdentityProperty(d, f.property), f.data, ComparedSize(f));
    MemCmpIsOrder(IdentityProperty(d, f.property), f.data, ComparedSize(f));
  }

  // ---------- lists ----------

  /** The list read from left to right, each connective joining what is in front of it. */
  predicate LeftToRight(holds: Filter -> bool, fs: seq<Filter>) {
    if fs == [] then true
    else
      var f, before := fs[|fs| - 1], LeftToRight(holds, fs[..|fs| - 1]);
      if f.pre == PRE_OR then before || holds(f) else before && holds(f)
  }

  /** Every filter that is not introduced by "or" holds. */
  predicate AllButOr(holds: Filter -> bool, fs: seq<Filter>) {
    forall i :: 0 <= i < |fs| && fs[i].pre != PRE_OR ==> holds(fs[i])
  }

  /**
   The loop of `isIdentityFilteredV` and `isIdentityFilteredV2`, for the test of one filter that each
   uses.  It stops at the first false, so a filter introduced by "or" never matters.
   */
  method AllFiltered(holds: Filter -> bool, filters: seq<Filter>) returns (r: bool)
    ensures r <==> AllButOr(holds, filters)
  {
    r := true;
    for i := 0 to |filters|
      invariant r && AllButOr(holds, filters[..i])
    {
      var f := filters[i];
      var c := holds(f);
      assert filters[..i + 1] == filters[..i] + [f];
      if f.pre == PRE_OR { r := r || c; } else { r := r && c; }
      if !r { return; }
    }
    assert filters[..|filters|] == filters;
  }

  method IsFilteredV(d: Identity, filters: seq<Filter>) returns (r: bool)
    ensures r <==> AllButOr(f => Matches(d, f), filters)
  {
    r := AllFiltered(f => Matches(d, f), filters);
  }

  method IsFilteredV2(addr: seq<Byte>, d: Identity, filters: seq<Filter>) returns (r: bool)
    ensures r <==> AllButOr(f => Matches2(addr, d, f), filters)
    ensures addr == d.addr ==> (r <==> AllButOr(f => Matches(d, f), filters))
  {
    r := AllFiltered(f => Matches2(addr, d, f), filters);
    if addr == d.addr { ListsAgree(d, filters); }
  }

  /** The two list forms agree on every list. */
  lemma ListsAgree(d: Identity, fs: seq<Filter>)
    ensures AllButOr(f => Matches(d, f), fs) <==> AllButOr(f => Matches2(d.addr, d, f), fs)
  {
    forall i | 0 <= i < |fs| ensures Matches(d, fs[i]) == Matches2(d.addr, d, fs[i]) { FormsAgree(d, fs[i]); }
  }

  /** The loop's answer is the left-to-right reading of every front part of the list. */
  lemma {:induction false} AnswerIsEveryFront(holds: Filter -> bool, fs: seq<Filter>)
    ensures AllButOr(holds, fs) <==> forall k :: 0 <= k <= |fs| ==> LeftToRight(holds, fs[..k])
    decreases |fs|
  {
    if fs != [] {
      var f, before := fs[|fs| - 1], fs[..|fs| - 1];
      AnswerIsEveryFront(holds, before);
      assert forall k :: 0 <= k <= |before| ==> before[..k] == fs[..k];
      assert fs[..|fs|] == fs && before[..|before|] == before;
      assert forall i :: 0 <= i < |before| ==> before[i] == fs[i];
    }
  }

  /** Lists joined by "and" alone are conjunctions, as read from left to right. */
  lemma {:induction false} AndListsAreConjunctions(holds: Filter -> bool, fs: seq<Filter>)
    requires forall i :: 0 <= i < |fs| ==> fs[i].pre != PRE_OR
    ensures AllButOr(holds, fs) == LeftToRight(holds, fs)
    ensures AllButOr(holds, fs) <==> forall i :: 0 <= i < |fs| ==> holds(fs[i])
    decreases |fs|
  {
    if fs != [] {
      var before := fs[..|fs| - 1];
      AndListsAreConjunctions(holds, before);
      assert forall i :: 0 <= i < |before| ==> before[i] == fs[i];
    }
  }

  /** One failing filter followed by "or" and a matching one shows the difference. */
  lemma OrIsLost(f: Filter, g: Filter, holds: Filter -> bool)
    requires f.pre == PRE_AND && g.pre == PRE_OR && !holds(f) && holds(g)
    ensures LeftToRight(holds, [f, g]) && !AllButOr(holds, [f, g])
  {
    assert [f, g][..1] == [f] && [f][..0] == [];
    assert [f, g][0] == f;
  }
}
