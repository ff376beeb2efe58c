/**
 The block of addresses a network owns (lorawan-types.cpp): the word built from type, identifier and
 address, what its getters show, and which blocks meet.
 */
module NetworkBlocks {
  import opened DevAddr
  import opened AddressSteps

  /** `MASK_NWK_ID`. */
  function NwkIdMask(t: nat): bv32
    requires t < 8
  {
    match t {
      case 0 => 0x3F case 1 => 0x3F case 2 => 0x1FF case 3 => 0x3FF
      case 4 => 0x7FF case 5 => 0x1FFF case 6 => 0x7FFF case _ => 0x1FFFF
    }
  }

  /**
   The identifiers of a NetID are those the 1.0 setter accepts; the 1.1 setter accepts more for types 3 and 4.
   */
  lemma IdentifiersFit(t: nat)
    requires t < 8
    ensures NwkIdMask(t) + 1 == NwkIdLimit10(t)
    ensures NwkIdMask(t) + 1 == NwkIdLimit11(t) <==> t != 3 && t != 4
  {
    match t {
      case 0 => case 1 => case 2 => case 3 => case 4 => case 5 => case 6 => case _ =>
    }
  }

  /** What an address can show of a network identifier: type 5 loses two bits. */
  function Visible(t: nat, id: bv32): bv32 {
    if t == 5 then id & 0x1FFC else id
  }

  /** Position of the identifier in the word. */
  function IdShift(t: nat): bv6
    requires t < 8
  {
    match t {
      case 0 => 25 case 1 => 24 case 2 => 20 case 3 => 18
      case 4 => 16 case 5 => 13 case 6 => 10 case _ => 7
    }
  }

  /**
   Prefix, identifier and address of a word do not overlap; they fill it for all types but 3 and 4, where one
   bit is left over.
   */
  lemma FieldsTile(t: nat)
    requires t < 8
    ensures var p, i, a := PrefixMask(t), NwkIdMask(t) << IdShift(t), AddrMask(t);
            && p & i == 0 && p & a == 0 && i & a == 0
            && (p | i | a == 0xFFFFFFFF <==> t != 3 && t != 4)
  {
    match t {
      case 0 => case 1 => case 2 => case 3 => case 4 => case 5 => case 6 => case _ =>
    }
  }

  predicate Member(t: nat, id: bv32, addr: bv32) {
    t < 8 && id <= NwkIdMask(t) && addr <= AddrMask(t)
  }

  predicate KeepsType(t: nat, id: bv32, addr: bv32) {
    Member(t, id, addr) ==> HasType(Assembled(t, id, addr), t)
  }

  predicate KeepsAddr(t: nat, id: bv32, addr: bv32) {
    Member(t, id, addr) ==> Assembled(t, id, addr) & AddrMask(t) == addr
  }

  predicate KeepsGap(t: nat, id: bv32, addr: bv32) {
    Member(t, id, addr) ==> Clean(Assembled(t, id, addr), Gap(t))
  }

  predicate KeepsId(t: nat, id: bv32, addr: bv32) {
    Member(t, id, addr) ==> (Assembled(t, id, addr) >> IdShift(t)) & NwkIdMask(t) == Visible(t, id)
  }

  predicate ChangesAddr(t: nat, id: bv32, a: bv32, b: bv32) {
    Member(t, id, a) && Member(t, id, b) ==> SetNwkAddrSpec11(Assembled(t, id, a), t, b) == Assembled(t, id, b)
  }

  predicate ChangesId(t: nat, id: bv32, a: bv32, other: bv32) {
    Member(t, id, a) && Member(t, other, a) ==>
      (SetNwkIdSpec11(Assembled(t, id, a), t, other) == Assembled(t, other, a) <==> Visible(t, other) == other)
  }

  predicate KeepsSum(t: nat, id: bv32, addr: bv32) {
    Member(t, id, addr) ==> Assembled(t, id, addr) == Assembled(t, id, 0) + addr
  }

  lemma TypeKept0(id: bv32, addr: bv32) ensures KeepsType(0, id, addr) {}
  lemma TypeKept1(id: bv32, addr: bv32) ensures KeepsType(1, id, addr) {}
  lemma TypeKept2(id: bv32, addr: bv32) ensures KeepsType(2, id, addr) {}
  lemma TypeKept3(id: bv32, addr: bv32) ensures KeepsType(3, id, addr) {}
  lemma TypeKept4(id: bv32, addr: bv32) ensures KeepsType(4, id, addr) {}
  lemma TypeKept5(id: bv32, addr: bv32) ensures KeepsType(5, id, addr) {}
  lemma TypeKept6(id: bv32, addr: bv32) ensures KeepsType(6, id, addr) {}
  lemma TypeKept7(id: bv32, addr: bv32) ensures KeepsType(7, id, addr) {}

  lemma AddrKept0(id: bv32, addr: bv32) ensures KeepsAddr(0, id, addr) {}
  lemma AddrKept1(id: bv32, addr: bv32) ensures KeepsAddr(1, id, addr) {}
  lemma AddrKept2(id: bv32, addr: bv32) ensures KeepsAddr(2, id, addr) {}
  lemma AddrKept3(id: bv32, addr: bv32) ensures KeepsAddr(3, id, addr) {}
  lemma AddrKept4(id: bv32, addr: bv32) ensures KeepsAddr(4, id, addr) {}
  lemma AddrKept5(id: bv32, addr: bv32) ensures KeepsAddr(5, id, addr) {}
  lemma AddrKept6(id: bv32, addr: bv32) ensures KeepsAddr(6, id, addr) {}
  lemma AddrKept7(id: bv32, addr: bv32) ensures KeepsAddr(7, id, addr) {}

  lemma GapKept0(id: bv32, addr: bv32) ensures KeepsGap(0, id, addr) {}
  lemma GapKept1(id: bv32, addr: bv32) ensures KeepsGap(1, id, addr) {}
  lemma GapKept2(id: bv32, addr: bv32) ensures KeepsGap(2, id, addr) {}
  lemma GapKept3(id: bv32, addr: bv32) ensures KeepsGap(3, id, addr) {}
  lemma GapKept4(id: bv32, addr: bv32) ensures KeepsGap(4, id, addr) {}
  lemma GapKept5(id: bv32, addr: bv32) ensures KeepsGap(5, id, addr) {}
  lemma GapKept6(id: bv32, addr: bv32) ensures KeepsGap(6, id, addr) {}
  lemma GapKept7(id: bv32, addr: bv32) ensures KeepsGap(7, id, addr) {}

  lemma IdKept0(id: bv32, addr: bv32) ensures KeepsId(0, id, addr) {}
  lemma IdKept1(id: bv32, addr: bv32) ensures KeepsId(1, id, addr) {}
  lemma IdKept2(id: bv32, addr: bv32) ensures KeepsId(2, id, addr) {}
  lemma IdKept3(id: bv32, addr: bv32) ensures KeepsId(3, id, addr) {}
  lemma IdKept4(id: bv32, addr: bv32) ensures KeepsId(4, id, addr) {}
  lemma IdKept5(id: bv32, addr: bv32) ensures KeepsId(5, id, addr) {}
  lemma IdKept6(id: bv32, addr: bv32) ensures KeepsId(6, id, addr) {}
  lemma IdKept7(id: bv32, addr: bv32) ensures KeepsId(7, id, addr) {}

  lemma SumKept0(id: bv32, addr: bv32) ensures KeepsSum(0, id, addr) {}
  lemma SumKept1(id: bv32, addr: bv32) ensures KeepsSum(1, id, addr) {}
  lemma SumKept2(id: bv32, addr: bv32) ensures KeepsSum(2, id, addr) {}
  lemma SumKept3(id: bv32, addr: bv32) ensures KeepsSum(3, id, addr) {}
  lemma SumKept4(id: bv32, addr: bv32) ensures KeepsSum(4, id, addr) {}
  lemma SumKept5(id: bv32, addr: bv32) ensures KeepsSum(5, id, addr) {}
  lemma SumKept6(id: bv32, addr: bv32) ensures KeepsSum(6, id, addr) {}
  lemma SumKept7(id: bv32, addr: bv32) ensures KeepsSum(7, id, addr) {}

  lemma TypeKept(t: nat, id: bv32, addr: bv32)
    requires t < 8
    ensures KeepsType(t, id, addr)
  {
    match t {
      case 0 => TypeKept0(id, addr);
      case 1 => TypeKept1(id, addr);
      case 2 => TypeKept2(id, addr);
      case 3 => TypeKept3(id, addr);
      case 4 => TypeKept4(id, addr);
      case 5 => TypeKept5(id, addr);
      case 6 => TypeKept6(id, addr);
      case _ => TypeKept7(id, addr);
    }
  }

  lemma AddrKept(t: nat, id: bv32, addr: bv32)
    requires t < 8
    ensures KeepsAddr(t, id, addr)
  {
    match t {
      case 0 => AddrKept0(id, addr);
      case 1 => AddrKept1(id, addr);
      case 2 => AddrKept2(id, addr);
      case 3 => AddrKept3(id, addr);
      case 4 => AddrKept4(id, addr);
      case 5 => AddrKept5(id, addr);
      case 6 => AddrKept6(id, addr);
      case _ => AddrKept7(id, addr);
    }
  }

  lemma GapKept(t: nat, id: bv32, addr: bv32)
    requires t < 8
    ensures KeepsGap(t, id, addr)
  {
    match t {
      case 0 => GapKept0(id, addr);
      case 1 => GapKept1(id, addr);
      case 2 => GapKept2(id, addr);
      case 3 => GapKept3(id, addr);
      case 4 => GapKept4(id, addr);
      case 5 => GapKept5(id, addr);
      case 6 => GapKept6(id, addr);
      case _ => GapKept7(id, addr);
    }
  }

  lemma IdKept(t: nat, id: bv32, addr: bv32)
    requires t < 8
    ensures KeepsId(t, id, addr)
  {
    match t {
      case 0 => IdKept0(id, addr);
      case 1 => IdKept1(id, addr);
      case 2 => IdKept2(id, addr);
      case 3 => IdKept3(id, addr);
      case 4 => IdKept4(id, addr);
      case 5 => IdKept5(id, addr);
      case 6 => IdKept6(id, addr);
      case _ => IdKept7(id, addr);
    }
  }

  lemma SumKept(t: nat, id: bv32, addr: bv32)
    requires t < 8
    ensures KeepsSum(t, id, addr)
  {
    match t {
      case 0 => SumKept0(id, addr);
      case 1 => SumKept1(id, addr);
      case 2 => SumKept2(id, addr);
      case 3 => SumKept3(id, addr);
      case 4 => SumKept4(id, addr);
      case 5 => SumKept5(id, addr);
      case 6 => SumKept6(id, addr);
      case _ => SumKept7(id, addr);
    }
  }

  lemma ChangesAddr0(id: bv32, a: bv32, b: bv32) ensures ChangesAddr(0, id, a, b) {}
  lemma ChangesAddr1(id: bv32, a: bv32, b: bv32) ensures ChangesAddr(1, id, a, b) {}
  lemma ChangesAddr2(id: bv32, a: bv32, b: bv32) ensures ChangesAddr(2, id, a, b) {}
  lemma ChangesAddr3(id: bv32, a: bv32, b: bv32) ensures ChangesAddr(3, id, a, b) {}
  lemma ChangesAddr4(id: bv32, a: bv32, b: bv32) ensures ChangesAddr(4, id, a, b) {}
  lemma ChangesAddr5(id: bv32, a: bv32, b: bv32) ensures ChangesAddr(5, id, a, b) {}
  lemma ChangesAddr6(id: bv32, a: bv32, b: bv32) ensures ChangesAddr(6, id, a, b) {}
  lemma ChangesAddr7(id: bv32, a: bv32, b: bv32) ensures ChangesAddr(7, id, a, b) {}

  lemma ChangesId0(id: bv32, a: bv32, other: bv32) ensures ChangesId(0, id, a, other) {}
  lemma ChangesId1(id: bv32, a: bv32, other: bv32) ensures ChangesId(1, id, a, other) {}
  lemma ChangesId2(id: bv32, a: bv32, other: bv32) ensures ChangesId(2, id, a, other) {}
  lemma ChangesId3(id: bv32, a: bv32, other: bv32) ensures ChangesId(3, id, a, other) {}
  lemma ChangesId4(id: bv32, a: bv32, other: bv32) ensures ChangesId(4, id, a, other) {}
  lemma ChangesId5(id: bv32, a: bv32, other: bv32) ensures ChangesId(5, id, a, other) {}
  lemma ChangesId6(id: bv32, a: bv32, other: bv32) ensures ChangesId(6, id, a, other) {}
  lemma ChangesId7(id: bv32, a: bv32, other: bv32) ensures ChangesId(7, id, a, other) {}

  lemma AddrChangesAlone(t: nat, id: bv32, a: bv32, b: bv32)
    requires t < 8
    ensures ChangesAddr(t, id, a, b)
  {
    match t {
      case 0 => ChangesAddr0(id, a, b);
      case 1 => ChangesAddr1(id, a, b);
      case 2 => ChangesAddr2(id, a, b);
      case 3 => ChangesAddr3(id, a, b);
      case 4 => ChangesAddr4(id, a, b);
      case 5 => ChangesAddr5(id, a, b);
      case 6 => ChangesAddr6(id, a, b);
      case _ => ChangesAddr7(id, a, b);
    }
  }

  lemma IdChangesAlone(t: nat, id: bv32, a: bv32, other: bv32)
    requires t < 8
    ensures ChangesId(t, id, a, other)
  {
    match t {
      case 0 => ChangesId0(id, a, other);
      case 1 => ChangesId1(id, a, other);
      case 2 => ChangesId2(id, a, other);
      case 3 => ChangesId3(id, a, other);
      case 4 => ChangesId4(id, a, other);
      case 5 => ChangesId5(id, a, other);
      case 6 => ChangesId6(id, a, other);
      case _ => ChangesId7(id, a, other);
    }
  }

  /** `getNetIdType` recovers the type of every address so built. */
  lemma TypeRecovered(t: nat, id: bv32, a: bv32)
    requires Member(t, id, a)
    ensures GetNetIdType(Assembled(t, id, a)) == t
  {
    TypeKept(t, id, a);
    TypeIsPrefix(Assembled(t, id, a), t);
  }

  /** The identifier that a word of type `t` shows. */
  function ShownId(r: bv32, t: nat): bv32
    requires t < 8
  {
    (r >> IdShift(t)) & NwkIdMask(t)
  }

  function ShownAddr(r: bv32, t: nat): bv32
    requires t < 8
  {
    r & AddrMask(t)
  }

  lemma Shown(r: bv32, t: nat, id: bv32, a: bv32)
    requires Member(t, id, a) && r == Assembled(t, id, a)
    ensures ShownId(r, t) == Visible(t, id) && ShownAddr(r, t) == a && GetNetIdType(r) == t
  {
    IdKept(t, id, a);
    AddrKept(t, id, a);
    TypeRecovered(t, id, a);
  }

  lemma OneBlock(r: bv32, t: nat, id: bv32, a: bv32, s: nat, other: bv32, b: bv32)
    requires Member(t, id, a) && r == Assembled(t, id, a)
    requires Member(s, other, b) && r == Assembled(s, other, b)
    ensures t == s && a == b && Visible(t, id) == Visible(s, other)
  {
    Shown(r, t, id, a);
    Shown(r, s, other, b);
  }

  lemma HiddenBits(id: bv32, other: bv32, a: bv32)
    requires id & 0x1FFC == other & 0x1FFC && id <= 0x1FFF && other <= 0x1FFF
    ensures Assembled(5, id, a) == Assembled(5, other, a)
  {}

  lemma SameWord(t: nat, id: bv32, other: bv32, a: bv32)
    requires Member(t, id, a) && Member(t, other, a) && Visible(t, id) == Visible(t, other)
    ensures Assembled(t, id, a) == Assembled(t, other, a)
  {
    if t == 5 { HiddenBits(id, other, a); }
  }

  /** Two addresses coincide exactly when their types, addresses and visible identifiers do. */
  lemma BlocksDisjoint(t: nat, id: bv32, a: bv32, s: nat, other: bv32, b: bv32)
    requires Member(t, id, a) && Member(s, other, b)
    ensures Assembled(t, id, a) == Assembled(s, other, b) <==> t == s && a == b && Visible(t, id) == Visible(s, other)
  {
    if Assembled(t, id, a) == Assembled(s, other, b) {
      OneBlock(Assembled(t, id, a), t, id, a, s, other, b);
    } else if t == s && a == b && Visible(t, id) == Visible(s, other) {
      SameWord(t, id, other, a);
    }
  }

  lemma WordHolds(r: bv32, t: nat, id: bv32, n: bv32)
    requires Member(t, id, n) && r == Assembled(t, id, n)
    ensures Holds(r, t, n)
  {
    TypeRecovered(t, id, n);
    AddrKept(t, id, n);
    GapKept(t, id, n);
  }

  lemma ZeroMember(t: nat, id: bv32, n: bv32)
    requires Member(t, id, n)
    ensures Member(t, id, 0) && Inside(n, AddrMask(t))
  {}

  lemma EnumerateWord(b: bv32, r: bv32, t: nat, id: bv32, n: bv32)
    requires Member(t, id, 0) && b == Assembled(t, id, 0) && r == Plus(b, n) && Inside(n, AddrMask(t))
    ensures After(b, n) == r
  {
    WordHolds(b, t, id, 0);
    EnumerateClean(b, t, n);
  }

  /** `n` increments lead from the first address of a network to the one `n` further. */
  lemma Enumeration(t: nat, id: bv32, n: bv32)
    requires Member(t, id, n)
    ensures After(Assembled(t, id, 0), n) == Assembled(t, id, n)
    ensures Assembled(t, id, n) == Plus(Assembled(t, id, 0), n)
  {
    ZeroMember(t, id, n);
    SumKept(t, id, n);
    EnumerateWord(Assembled(t, id, 0), Assembled(t, id, n), t, id, n);
  }

  /** The next increment fails, changing nothing, exactly when the last address is reached. */
  lemma EnumerationEnds(t: nat, id: bv32, n: bv32)
    requires Member(t, id, n)
    ensures n == AddrMask(t) ==> IncrementSpec(Assembled(t, id, n)) == (ERR_CODE_ADDR_OUT_OF_RANGE, Assembled(t, id, n))
    ensures n != AddrMask(t) ==> IncrementSpec(Assembled(t, id, n)) == (CODE_OK, Assembled(t, id, n) + 1)
  {
    var r := Assembled(t, id, n);
    WordHolds(r, t, id, n);
    if n == AddrMask(t) { IncrementAtLast(r, t); } else { CountOne(r, t, n); }
  }
}
