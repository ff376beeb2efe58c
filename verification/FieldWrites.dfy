/**
 Writing one field of a device address (lorawan-types.cpp): what each setter does to the three
 fields of any word, in both layouts, and the round trip of all three.
 */
module FieldWrites {
  import opened DevAddr

  /** The identifier a word of type `t` reads after `v` was written, given the one it read before. */
  function IdAfterId10(t: nat, v: bv32, before: bv32): bv32 {
    if t == 5 then v | (before & 3) else v
  }

  function IdAfterId11(t: nat, v: bv32, before: bv32): bv32 {
    if t == 3 then (v & 0x3FF) << 1
    else if t == 4 then ((v & 0x7FF) << 1) | (before & 1)
    else if t == 5 then v | (before & 3)
    else v
  }

  /** The identifier a word of type `t` reads after address `a` was written. */
  function IdAfterAddr10(t: nat, a: bv32, before: bv32): bv32 {
    if t == 5 then before & 0x1FFC else before
  }

  function IdAfterAddr11(t: nat, a: bv32, before: bv32): bv32 {
    if t == 4 then (before & 0xFFE) | ((a >> 7) & 1)
    else if t == 5 then before & 0x1FFC
    else before
  }

  /** Identifiers of types 3 and 4 that do not spill into the type prefix in layout 1.1. */
  predicate IdFits11(t: nat, v: bv32) {
    (t == 3 ==> v < 0x400) && (t == 4 ==> v < 0x800)
  }

  // What the setters do to the bits of any word `u`, for each type.  With the type fixed each fact
  // is about masks and shifts alone.

  predicate IdPrefix10(u: bv32, t: nat, v: bv32)
    requires t < 8
  {
    v < NwkIdLimit10(t) ==> SetNwkIdSpec10(u, t, v) & PrefixMask(t) == u & PrefixMask(t)
  }

  predicate IdPrefix11(u: bv32, t: nat, v: bv32)
    requires t < 8
  {
    v < NwkIdLimit11(t) && HasType(u, t) ==> (HasType(SetNwkIdSpec11(u, t, v), t) <==> IdFits11(t, v))
  }

  predicate IdAddr10(u: bv32, t: nat, v: bv32)
    requires t < 8
  {
    v < NwkIdLimit10(t) ==> AddrBits10(SetNwkIdSpec10(u, t, v), t) == AddrBits10(u, t)
  }

  predicate IdAddr11(u: bv32, t: nat, v: bv32)
    requires t < 8
  {
    v < NwkIdLimit11(t) ==> AddrBits11(SetNwkIdSpec11(u, t, v), t) == AddrBits11(u, t)
  }

  predicate IdId10(u: bv32, t: nat, v: bv32)
    requires t < 8
  {
    v < NwkIdLimit10(t) ==> IdBits10(SetNwkIdSpec10(u, t, v), t) == IdAfterId10(t, v, IdBits10(u, t))
  }

  predicate IdId11(u: bv32, t: nat, v: bv32)
    requires t < 8
  {
    v < NwkIdLimit11(t) ==> IdBits11(SetNwkIdSpec11(u, t, v), t) == IdAfterId11(t, v, IdBits11(u, t))
  }

  predicate AddrPrefix10(u: bv32, t: nat, a: bv32)
    requires t < 8
  {
    a < NwkAddrLimit10(t) ==> SetNwkAddrSpec10(u, t, a) & PrefixMask(t) == u & PrefixMask(t)
  }

  predicate AddrPrefix11(u: bv32, t: nat, a: bv32)
    requires t < 8
  {
    a < NwkAddrLimit11(t) ==> SetNwkAddrSpec11(u, t, a) & PrefixMask(t) == u & PrefixMask(t)
  }

  predicate AddrAddr10(u: bv32, t: nat, a: bv32)
    requires t < 8
  {
    a < NwkAddrLimit10(t) ==> AddrBits10(SetNwkAddrSpec10(u, t, a), t) == a
  }

  predicate AddrAddr11(u: bv32, t: nat, a: bv32)
    requires t < 8
  {
    a < NwkAddrLimit11(t) ==> AddrBits11(SetNwkAddrSpec11(u, t, a), t) == a
  }

  predicate AddrId10(u: bv32, t: nat, a: bv32)
    requires t < 8
  {
    a < NwkAddrLimit10(t) ==> IdBits10(SetNwkAddrSpec10(u, t, a), t) == IdAfterAddr10(t, a, IdBits10(u, t))
  }

  predicate AddrId11(u: bv32, t: nat, a: bv32)
    requires t < 8
  {
    a < NwkAddrLimit11(t) ==> IdBits11(SetNwkAddrSpec11(u, t, a), t) == IdAfterAddr11(t, a, IdBits11(u, t))
  }

  lemma IdPrefix10Type0(u: bv32, v: bv32) ensures IdPrefix10(u, 0, v) {}
  lemma IdPrefix10Type1(u: bv32, v: bv32) ensures IdPrefix10(u, 1, v) {}
  lemma IdPrefix10Type2(u: bv32, v: bv32) ensures IdPrefix10(u, 2, v) {}
  lemma IdPrefix10Type3(u: bv32, v: bv32) ensures IdPrefix10(u, 3, v) {}
  lemma IdPrefix10Type4(u: bv32, v: bv32) ensures IdPrefix10(u, 4, v) {}
  lemma IdPrefix10Type5(u: bv32, v: bv32) ensures IdPrefix10(u, 5, v) {}
  lemma IdPrefix10Type6(u: bv32, v: bv32) ensures IdPrefix10(u, 6, v) {}
  lemma IdPrefix10Type7(u: bv32, v: bv32) ensures IdPrefix10(u, 7, v) {}

  lemma IdPrefix11Type0(u: bv32, v: bv32) ensures IdPrefix11(u, 0, v) {}
  lemma IdPrefix11Type1(u: bv32, v: bv32) ensures IdPrefix11(u, 1, v) {}
  lemma IdPrefix11Type2(u: bv32, v: bv32) ensures IdPrefix11(u, 2, v) {}
  lemma IdPrefix11Type3(u: bv32, v: bv32) ensures IdPrefix11(u, 3, v) {}
  lemma IdPrefix11Type4(u: bv32, v: bv32) ensures IdPrefix11(u, 4, v) {}
  lemma IdPrefix11Type5(u: bv32, v: bv32) ensures IdPrefix11(u, 5, v) {}
  lemma IdPrefix11Type6(u: bv32, v: bv32) ensures IdPrefix11(u, 6, v) {}
  lemma IdPrefix11Type7(u: bv32, v: bv32) ensures IdPrefix11(u, 7, v) {}

  lemma IdAddr10Type0(u: bv32, v: bv32) ensures IdAddr10(u, 0, v) {}
  lemma IdAddr10Type1(u: bv32, v: bv32) ensures IdAddr10(u, 1, v) {}
  lemma IdAddr10Type2(u: bv32, v: bv32) ensures IdAddr10(u, 2, v) {}
  lemma IdAddr10Type3(u: bv32, v: bv32) ensures IdAddr10(u, 3, v) {}
  lemma IdAddr10Type4(u: bv32, v: bv32) ensures IdAddr10(u, 4, v) {}
  lemma IdAddr10Type5(u: bv32, v: bv32) ensures IdAddr10(u, 5, v) {}
  lemma IdAddr10Type6(u: bv32, v: bv32) ensures IdAddr10(u, 6, v) {}
  lemma IdAddr10Type7(u: bv32, v: bv32) ensures IdAddr10(u, 7, v) {}

  lemma IdAddr11Type0(u: bv32, v: bv32) ensures IdAddr11(u, 0, v) {}
  lemma IdAddr11Type1(u: bv32, v: bv32) ensures IdAddr11(u, 1, v) {}
  lemma IdAddr11Type2(u: bv32, v: bv32) ensures IdAddr11(u, 2, v) {}
  lemma IdAddr11Type3(u: bv32, v: bv32) ensures IdAddr11(u, 3, v) {}
  lemma IdAddr11Type4(u: bv32, v: bv32) ensures IdAddr11(u, 4, v) {}
  lemma IdAddr11Type5(u: bv32, v: bv32) ensures IdAddr11(u, 5, v) {}
  lemma IdAddr11Type6(u: bv32, v: bv32) ensures IdAddr11(u, 6, v) {}
  lemma IdAddr11Type7(u: bv32, v: bv32) ensures IdAddr11(u, 7, v) {}

  lemma IdId10Type0(u: bv32, v: bv32) ensures IdId10(u, 0, v) {}
  lemma IdId10Type1(u: bv32, v: bv32) ensures IdId10(u, 1, v) {}
  lemma IdId10Type2(u: bv32, v: bv32) ensures IdId10(u, 2, v) {}
  lemma IdId10Type3(u: bv32, v: bv32) ensures IdId10(u, 3, v) {}
  lemma IdId10Type4(u: bv32, v: bv32) ensures IdId10(u, 4, v) {}
  lemma IdId10Type5(u: bv32, v: bv32) ensures IdId10(u, 5, v) {}
  lemma IdId10Type6(u: bv32, v: bv32) ensures IdId10(u, 6, v) {}
  lemma IdId10Type7(u: bv32, v: bv32) ensures IdId10(u, 7, v) {}

  lemma IdId11Type0(u: bv32, v: bv32) ensures IdId11(u, 0, v) {}
  lemma IdId11Type1(u: bv32, v: bv32) ensures IdId11(u, 1, v) {}
  lemma IdId11Type2(u: bv32, v: bv32) ensures IdId11(u, 2, v) {}
  lemma IdId11Type3(u: bv32, v: bv32) ensures IdId11(u, 3, v) {}
  lemma IdId11Type4(u: bv32, v: bv32) ensures IdId11(u, 4, v) {}
  lemma IdId11Type5(u: bv32, v: bv32) ensures IdId11(u, 5, v) {}
  lemma IdId11Type6(u: bv32, v: bv32) ensures IdId11(u, 6, v) {}
  lemma IdId11Type7(u: bv32, v: bv32) ensures IdId11(u, 7, v) {}

  lemma AddrPrefix10Type0(u: bv32, a: bv32) ensures AddrPrefix10(u, 0, a) {}
  lemma AddrPrefix10Type1(u: bv32, a: bv32) ensures AddrPrefix10(u, 1, a) {}
  lemma AddrPrefix10Type2(u: bv32, a: bv32) ensures AddrPrefix10(u, 2, a) {}
  lemma AddrPrefix10Type3(u: bv32, a: bv32) ensures AddrPrefix10(u, 3, a) {}
  lemma AddrPrefix10Type4(u: bv32, a: bv32) ensures AddrPrefix10(u, 4, a) {}
  lemma AddrPrefix10Type5(u: bv32, a: bv32) ensures AddrPrefix10(u, 5, a) {}
  lemma AddrPrefix10Type6(u: bv32, a: bv32) ensures AddrPrefix10(u, 6, a) {}
  lemma AddrPrefix10Type7(u: bv32, a: bv32) ensures AddrPrefix10(u, 7, a) {}

  lemma AddrPrefix11Type0(u: bv32, a: bv32) ensures AddrPrefix11(u, 0, a) {}
  lemma AddrPrefix11Type1(u: bv32, a: bv32) ensures AddrPrefix11(u, 1, a) {}
  lemma AddrPrefix11Type2(u: bv32, a: bv32) ensures AddrPrefix11(u, 2, a) {}
  lemma AddrPrefix11Type3(u: bv32, a: bv32) ensures AddrPrefix11(u, 3, a) {}
  lemma AddrPrefix11Type4(u: bv32, a: bv32) ensures AddrPrefix11(u, 4, a) {}
  lemma AddrPrefix11Type5(u: bv32, a: bv32) ensures AddrPrefix11(u, 5, a) {}
  lemma AddrPrefix11Type6(u: bv32, a: bv32) ensures AddrPrefix11(u, 6, a) {}
  lemma AddrPrefix11Type7(u: bv32, a: bv32) ensures AddrPrefix11(u, 7, a) {}

  lemma AddrAddr10Type0(u: bv32, a: bv32) ensures AddrAddr10(u, 0, a) {}
  lemma AddrAddr10Type1(u: bv32, a: bv32) ensures AddrAddr10(u, 1, a) {}
  lemma AddrAddr10Type2(u: bv32, a: bv32) ensures AddrAddr10(u, 2, a) {}
  lemma AddrAddr10Type3(u: bv32, a: bv32) ensures AddrAddr10(u, 3, a) {}
  lemma AddrAddr10Type4(u: bv32, a: bv32) ensures AddrAddr10(u, 4, a) {}
  lemma AddrAddr10Type5(u: bv32, a: bv32) ensures AddrAddr10(u, 5, a) {}
  lemma AddrAddr10Type6(u: bv32, a: bv32) ensures AddrAddr10(u, 6, a) {}
  lemma AddrAddr10Type7(u: bv32, a: bv32) ensures AddrAddr10(u, 7, a) {}

  lemma AddrAddr11Type0(u: bv32, a: bv32) ensures AddrAddr11(u, 0, a) {}
  lemma AddrAddr11Type1(u: bv32, a: bv32) ensures AddrAddr11(u, 1, a) {}
  lemma AddrAddr11Type2(u: bv32, a: bv32) ensures AddrAddr11(u, 2, a) {}
  lemma AddrAddr11Type3(u: bv32, a: bv32) ensures AddrAddr11(u, 3, a) {}
  lemma AddrAddr11Type4(u: bv32, a: bv32) ensures AddrAddr11(u, 4, a) {}
  lemma AddrAddr11Type5(u: bv32, a: bv32) ensures AddrAddr11(u, 5, a) {}
  lemma AddrAddr11Type6(u: bv32, a: bv32) ensures AddrAddr11(u, 6, a) {}
  lemma AddrAddr11Type7(u: bv32, a: bv32) ensures AddrAddr11(u, 7, a) {}

  lemma AddrId10Type0(u: bv32, a: bv32) ensures AddrId10(u, 0, a) {}
  lemma AddrId10Type1(u: bv32, a: bv32) ensures AddrId10(u, 1, a) {}
  lemma AddrId10Type2(u: bv32, a: bv32) ensures AddrId10(u, 2, a) {}
  lemma AddrId10Type3(u: bv32, a: bv32) ensures AddrId10(u, 3, a) {}
  lemma AddrId10Type4(u: bv32, a: bv32) ensures AddrId10(u, 4, a) {}
  lemma AddrId10Type5(u: bv32, a: bv32) ensures AddrId10(u, 5, a) {}
  lemma AddrId10Type6(u: bv32, a: bv32) ensures AddrId10(u, 6, a) {}
  lemma AddrId10Type7(u: bv32, a: bv32) ensures AddrId10(u, 7, a) {}

  lemma AddrId11Type0(u: bv32, a: bv32) ensures AddrId11(u, 0, a) {}
  lemma AddrId11Type1(u: bv32, a: bv32) ensures AddrId11(u, 1, a) {}
  lemma AddrId11Type2(u: bv32, a: bv32) ensures AddrId11(u, 2, a) {}
  lemma AddrId11Type3(u: bv32, a: bv32) ensures AddrId11(u, 3, a) {}
  lemma AddrId11Type4(u: bv32, a: bv32) ensures AddrId11(u, 4, a) {}
  lemma AddrId11Type5(u: bv32, a: bv32) ensures AddrId11(u, 5, a) {}
  lemma AddrId11Type6(u: bv32, a: bv32) ensures AddrId11(u, 6, a) {}
  lemma AddrId11Type7(u: bv32, a: bv32) ensures AddrId11(u, 7, a) {}

  lemma IdPrefix10Holds(u: bv32, t: nat, v: bv32)
    requires t < 8
    ensures IdPrefix10(u, t, v)
  {
    match t {
      case 0 => IdPrefix10Type0(u, v);
      case 1 => IdPrefix10Type1(u, v);
      case 2 => IdPrefix10Type2(u, v);
      case 3 => IdPrefix10Type3(u, v);
      case 4 => IdPrefix10Type4(u, v);
      case 5 => IdPrefix10Type5(u, v);
      case 6 => IdPrefix10Type6(u, v);
      case _ => IdPrefix10Type7(u, v);
    }
  }

  lemma IdPrefix11Holds(u: bv32, t: nat, v: bv32)
    requires t < 8
    ensures IdPrefix11(u, t, v)
  {
    match t {
      case 0 => IdPrefix11Type0(u, v);
      case 1 => IdPrefix11Type1(u, v);
      case 2 => IdPrefix11Type2(u, v);
      case 3 => IdPrefix11Type3(u, v);
      case 4 => IdPrefix11Type4(u, v);
      case 5 => IdPrefix11Type5(u, v);
      case 6 => IdPrefix11Type6(u, v);
      case _ => IdPrefix11Type7(u, v);
    }
  }

  lemma IdAddr10Holds(u: bv32, t: nat, v: bv32)
    requires t < 8
    ensures IdAddr10(u, t, v)
  {
    match t {
      case 0 => IdAddr10Type0(u, v);
      case 1 => IdAddr10Type1(u, v);
      case 2 => IdAddr10Type2(u, v);
      case 3 => IdAddr10Type3(u, v);
      case 4 => IdAddr10Type4(u, v);
      case 5 => IdAddr10Type5(u, v);
      case 6 => IdAddr10Type6(u, v);
      case _ => IdAddr10Type7(u, v);
    }
  }

  lemma IdAddr11Holds(u: bv32, t: nat, v: bv32)
    requires t < 8
    ensures IdAddr11(u, t, v)
  {
    match t {
      case 0 => IdAddr11Type0(u, v);
      case 1 => IdAddr11Type1(u, v);
      case 2 => IdAddr11Type2(u, v);
      case 3 => IdAddr11Type3(u, v);
      case 4 => IdAddr11Type4(u, v);
      case 5 => IdAddr11Type5(u, v);
      case 6 => IdAddr11Type6(u, v);
      case _ => IdAddr11Type7(u, v);
    }
  }

  lemma IdId10Holds(u: bv32, t: nat, v: bv32)
    requires t < 8
    ensures IdId10(u, t, v)
  {
    match t {
      case 0 => IdId10Type0(u, v);
      case 1 => IdId10Type1(u, v);
      case 2 => IdId10Type2(u, v);
      case 3 => IdId10Type3(u, v);
      case 4 => IdId10Type4(u, v);
      case 5 => IdId10Type5(u, v);
      case 6 => IdId10Type6(u, v);
      case _ => IdId10Type7(u, v);
    }
  }

  lemma IdId11Holds(u: bv32, t: nat, v: bv32)
    requires t < 8
    ensures IdId11(u, t, v)
  {
    match t {
      case 0 => IdId11Type0(u, v);
      case 1 => IdId11Type1(u, v);
      case 2 => IdId11Type2(u, v);
      case 3 => IdId11Type3(u, v);
      case 4 => IdId11Type4(u, v);
      case 5 => IdId11Type5(u, v);
      case 6 => IdId11Type6(u, v);
      case _ => IdId11Type7(u, v);
    }
  }

  lemma AddrPrefix10Holds(u: bv32, t: nat, a: bv32)
    requires t < 8
    ensures AddrPrefix10(u, t, a)
  {
    match t {
      case 0 => AddrPrefix10Type0(u, a);
      case 1 => AddrPrefix10Type1(u, a);
      case 2 => AddrPrefix10Type2(u, a);
      case 3 => AddrPrefix10Type3(u, a);
      case 4 => AddrPrefix10Type4(u, a);
      case 5 => AddrPrefix10Type5(u, a);
      case 6 => AddrPrefix10Type6(u, a);
      case _ => AddrPrefix10Type7(u, a);
    }
  }

  lemma AddrPrefix11Holds(u: bv32, t: nat, a: bv32)
    requires t < 8
    ensures AddrPrefix11(u, t, a)
  {
    match t {
      case 0 => AddrPrefix11Type0(u, a);
      case 1 => AddrPrefix11Type1(u, a);
      case 2 => AddrPrefix11Type2(u, a);
      case 3 => AddrPrefix11Type3(u, a);
      case 4 => AddrPrefix11Type4(u, a);
      case 5 => AddrPrefix11Type5(u, a);
      case 6 => AddrPrefix11Type6(u, a);
      case _ => AddrPrefix11Type7(u, a);
    }
  }

  lemma AddrAddr10Holds(u: bv32, t: nat, a: bv32)
    requires t < 8
    ensures AddrAddr10(u, t, a)
  {
    match t {
      case 0 => AddrAddr10Type0(u, a);
      case 1 => AddrAddr10Type1(u, a);
      case 2 => AddrAddr10Type2(u, a);
      case 3 => AddrAddr10Type3(u, a);
      case 4 => AddrAddr10Type4(u, a);
      case 5 => AddrAddr10Type5(u, a);
      case 6 => AddrAddr10Type6(u, a);
      case _ => AddrAddr10Type7(u, a);
    }
  }

  lemma AddrAddr11Holds(u: bv32, t: nat, a: bv32)
    requires t < 8
    ensures AddrAddr11(u, t, a)
  {
    match t {
      case 0 => AddrAddr11Type0(u, a);
      case 1 => AddrAddr11Type1(u, a);
      case 2 => AddrAddr11Type2(u, a);
      case 3 => AddrAddr11Type3(u, a);
      case 4 => AddrAddr11Type4(u, a);
      case 5 => AddrAddr11Type5(u, a);
      case 6 => AddrAddr11Type6(u, a);
      case _ => AddrAddr11Type7(u, a);
    }
  }

  lemma AddrId10Holds(u: bv32, t: nat, a: bv32)
    requires t < 8
    ensures AddrId10(u, t, a)
  {
    match t {
      case 0 => AddrId10Type0(u, a);
      case 1 => AddrId10Type1(u, a);
      case 2 => AddrId10Type2(u, a);
      case 3 => AddrId10Type3(u, a);
      case 4 => AddrId10Type4(u, a);
      case 5 => AddrId10Type5(u, a);
      case 6 => AddrId10Type6(u, a);
      case _ => AddrId10Type7(u, a);
    }
  }

  lemma AddrId11Holds(u: bv32, t: nat, a: bv32)
    requires t < 8
    ensures AddrId11(u, t, a)
  {
    match t {
      case 0 => AddrId11Type0(u, a);
      case 1 => AddrId11Type1(u, a);
      case 2 => AddrId11Type2(u, a);
      case 3 => AddrId11Type3(u, a);
      case 4 => AddrId11Type4(u, a);
      case 5 => AddrId11Type5(u, a);
      case 6 => AddrId11Type6(u, a);
      case _ => AddrId11Type7(u, a);
    }
  }

  // ---------- one field at a time ----------

  lemma SameType(u: bv32, w: bv32, t: nat)
    requires t < 8 && w & PrefixMask(t) == u & PrefixMask(t)
    ensures GetNetIdType(w) == t <==> GetNetIdType(u) == t
  {
    TypeIsPrefix(u, t);
    TypeIsPrefix(w, t);
  }

  /** Bits that `b` has and `v` has not among the two lowest. */
  lemma LowBitsKept(v: bv32, b: bv32)
    ensures v | (b & 3) == v <==> b & 3 & !v == 0
  {}

  /** When the identifier just written is the one read, in layout 1.0; `before` is the one read before. */
  predicate IdSurvives10(t: nat, v: bv32, before: bv32) {
    t == 5 ==> before & 3 & !v == 0
  }

  lemma IdAfterIs10(t: nat, v: bv32, before: bv32)
    ensures IdAfterId10(t, v, before) == v <==> IdSurvives10(t, v, before)
  {
    if t == 5 { LowBitsKept(v, before); }
  }

  /**
   Layout 1.0: setting the identifier of any word keeps type and address, and the identifier is read
   back, except that on type 5 set bits of the lower two stay set.
   */
  lemma SetIdAlone10(u: bv32, t: nat, v: bv32)
    requires t < 8 && GetNetIdType(u) == t && v < NwkIdLimit10(t)
    ensures GetNetIdType(SetNwkIdSpec10(u, t, v)) == t
    ensures GetNwkAddr10(SetNwkIdSpec10(u, t, v)) == GetNwkAddr10(u)
    ensures GetNwkId10(SetNwkIdSpec10(u, t, v)) == v <==> IdSurvives10(t, v, GetNwkId10(u))
  {
    TypeAfterId10(u, t, v);
    IdAddr10Holds(u, t, v);
    IdId10Holds(u, t, v);
    IdAfterIs10(t, v, IdBits10(u, t));
  }

  /** When the identifier just written is the one read, in layout 1.1; `before` is the one read before. */
  predicate IdSurvives11(t: nat, v: bv32, before: bv32) {
    && (t == 3 ==> v == 0)
    && (t == 4 ==> v == 0 && before & 1 == 0)
    && (t == 5 ==> before & 3 & !v == 0)
  }

  lemma ShiftedThree(v: bv32)
    requires v < 0x400
    ensures (v & 0x3FF) << 1 == v <==> v == 0
  {}

  lemma ShiftedFour(v: bv32, b: bv32)
    requires v < 0x800
    ensures ((v & 0x7FF) << 1) | (b & 1) == v <==> v == 0 && b & 1 == 0
  {}

  predicate IdWrite11(t: nat, v: bv32, before: bv32) {
    IdAfterId11(t, v, before) == v <==> IdSurvives11(t, v, before)
  }

  lemma IdWrite11Three(v: bv32, before: bv32)
    requires v < 0x400
    ensures IdWrite11(3, v, before)
  {
    ShiftedThree(v);
  }

  lemma IdWrite11Four(v: bv32, before: bv32)
    requires v < 0x800
    ensures IdWrite11(4, v, before)
  {
    ShiftedFour(v, before);
  }

  lemma IdWrite11Five(v: bv32, before: bv32)
    ensures IdWrite11(5, v, before)
  {
    LowBitsKept(v, before);
  }

  lemma IdAfterIs11(t: nat, v: bv32, before: bv32)
    requires IdFits11(t, v)
    ensures IdWrite11(t, v, before)
  {
    if t == 3 { IdWrite11Three(v, before); }
    else if t == 4 { IdWrite11Four(v, before); }
    else if t == 5 { IdWrite11Five(v, before); }
  }

  /**
   Layout 1.1, over the whole range of the setter: the type survives exactly when the identifier does
   not spill into it; then the address survives too, and the identifier is read back exactly under
   the stated condition on types 3, 4 and 5.
   */
  lemma SetIdAlone11(u: bv32, t: nat, v: bv32)
    requires t < 8 && GetNetIdType(u) == t && v < NwkIdLimit11(t)
    ensures GetNetIdType(SetNwkIdSpec11(u, t, v)) == t <==> IdFits11(t, v)
    ensures IdFits11(t, v) ==> GetNwkAddr11(SetNwkIdSpec11(u, t, v)) == GetNwkAddr11(u)
    ensures IdFits11(t, v) ==> (GetNwkId11(SetNwkIdSpec11(u, t, v)) == v <==> IdSurvives11(t, v, GetNwkId11(u)))
  {
    TypeAfterId11(u, t, v);
    IdAddr11Holds(u, t, v);
    IdId11Holds(u, t, v);
    if IdFits11(t, v) { IdAfterIs11(t, v, IdBits11(u, t)); }
  }

  lemma UpperBitsKept(b: bv32)
    requires b < 0x2000
    ensures b & 0x1FFC == b <==> b & 3 == 0
  {}

  lemma LowBitReplaced(b: bv32, a: bv32)
    requires b < 0x1000
    ensures (b & 0xFFE) | ((a >> 7) & 1) == b <==> (a >> 7) & 1 == b & 1
  {}

  predicate IdInRange10(u: bv32, t: nat)
    requires t < 8
  {
    IdBits10(u, t) < NwkIdLimit10(t)
  }

  lemma IdInRange10Type0(u: bv32) ensures IdInRange10(u, 0) {}
  lemma IdInRange10Type1(u: bv32) ensures IdInRange10(u, 1) {}
  lemma IdInRange10Type2(u: bv32) ensures IdInRange10(u, 2) {}
  lemma IdInRange10Type3(u: bv32) ensures IdInRange10(u, 3) {}
  lemma IdInRange10Type4(u: bv32) ensures IdInRange10(u, 4) {}
  lemma IdInRange10Type5(u: bv32) ensures IdInRange10(u, 5) {}
  lemma IdInRange10Type6(u: bv32) ensures IdInRange10(u, 6) {}
  lemma IdInRange10Type7(u: bv32) ensures IdInRange10(u, 7) {}

  lemma IdInRange10Holds(u: bv32, t: nat)
    requires t < 8
    ensures IdInRange10(u, t)
  {
    match t {
      case 0 => IdInRange10Type0(u);
      case 1 => IdInRange10Type1(u);
      case 2 => IdInRange10Type2(u);
      case 3 => IdInRange10Type3(u);
      case 4 => IdInRange10Type4(u);
      case 5 => IdInRange10Type5(u);
      case 6 => IdInRange10Type6(u);
      case _ => IdInRange10Type7(u);
    }
  }

  predicate IdInRange11(u: bv32, t: nat)
    requires t < 8
  {
    IdBits11(u, t) < NwkIdLimit11(t)
  }

  lemma IdInRange11Type0(u: bv32) ensures IdInRange11(u, 0) {}
  lemma IdInRange11Type1(u: bv32) ensures IdInRange11(u, 1) {}
  lemma IdInRange11Type2(u: bv32) ensures IdInRange11(u, 2) {}
  lemma IdInRange11Type3(u: bv32) ensures IdInRange11(u, 3) {}
  lemma IdInRange11Type4(u: bv32) ensures IdInRange11(u, 4) {}
  lemma IdInRange11Type5(u: bv32) ensures IdInRange11(u, 5) {}
  lemma IdInRange11Type6(u: bv32) ensures IdInRange11(u, 6) {}
  lemma IdInRange11Type7(u: bv32) ensures IdInRange11(u, 7) {}

  lemma IdInRange11Holds(u: bv32, t: nat)
    requires t < 8
    ensures IdInRange11(u, t)
  {
    match t {
      case 0 => IdInRange11Type0(u);
      case 1 => IdInRange11Type1(u);
      case 2 => IdInRange11Type2(u);
      case 3 => IdInRange11Type3(u);
      case 4 => IdInRange11Type4(u);
      case 5 => IdInRange11Type5(u);
      case 6 => IdInRange11Type6(u);
      case _ => IdInRange11Type7(u);
    }
  }

  /** When writing address `a` leaves the identifier `before` as it is read. */
  predicate AddrKeepsId10(t: nat, a: bv32, before: bv32) {
    t == 5 ==> before & 3 == 0
  }

  predicate AddrKeepsId11(t: nat, a: bv32, before: bv32) {
    (t == 4 ==> (a >> 7) & 1 == before & 1) && (t == 5 ==> before & 3 == 0)
  }

  lemma IdAfterAddrIs10(t: nat, a: bv32, before: bv32)
    requires t < 8 && before < NwkIdLimit10(t)
    ensures IdAfterAddr10(t, a, before) == before <==> AddrKeepsId10(t, a, before)
  {
    if t == 5 { UpperBitsKept(before); }
  }

  lemma IdAfterAddrIs11(t: nat, a: bv32, before: bv32)
    requires t < 8 && before < NwkIdLimit11(t)
    ensures IdAfterAddr11(t, a, before) == before <==> AddrKeepsId11(t, a, before)
  {
    if t == 4 { LowBitReplaced(before, a); }
    if t == 5 { UpperBitsKept(before); }
  }

  lemma TypeAfterAddr10(u: bv32, t: nat, a: bv32)
    requires t < 8 && a < NwkAddrLimit10(t)
    ensures GetNetIdType(SetNwkAddrSpec10(u, t, a)) == t <==> GetNetIdType(u) == t
  {
    AddrPrefix10Holds(u, t, a);
    SameType(u, SetNwkAddrSpec10(u, t, a), t);
  }

  lemma AddrAfterAddr10(u: bv32, t: nat, a: bv32)
    requires t < 8 && a < NwkAddrLimit10(t) && GetNetIdType(SetNwkAddrSpec10(u, t, a)) == t
    ensures GetNwkAddr10(SetNwkAddrSpec10(u, t, a)) == a
  {
    AddrAddr10Holds(u, t, a);
  }

  lemma IdReadAfterAddr10(u: bv32, w: bv32, t: nat, a: bv32)
    requires t < 8 && a < NwkAddrLimit10(t) && w == SetNwkAddrSpec10(u, t, a)
    requires GetNetIdType(u) == t && GetNetIdType(w) == t
    ensures GetNwkId10(w) == IdAfterAddr10(t, a, GetNwkId10(u)) && GetNwkId10(u) < NwkIdLimit10(t)
  {
    AddrId10Holds(u, t, a);
    IdInRange10Holds(u, t);
  }

  lemma IdKeptByAddr10(u: bv32, w: bv32, t: nat, a: bv32)
    requires t < 8 && a < NwkAddrLimit10(t) && w == SetNwkAddrSpec10(u, t, a)
    requires GetNetIdType(u) == t && GetNetIdType(w) == t
    ensures GetNwkId10(w) == GetNwkId10(u) <==> AddrKeepsId10(t, a, GetNwkId10(u))
  {
    IdReadAfterAddr10(u, w, t, a);
    IdAfterAddrIs10(t, a, GetNwkId10(u));
  }

  lemma TypeAfterAddr11(u: bv32, t: nat, a: bv32)
    requires t < 8 && a < NwkAddrLimit11(t)
    ensures GetNetIdType(SetNwkAddrSpec11(u, t, a)) == t <==> GetNetIdType(u) == t
  {
    AddrPrefix11Holds(u, t, a);
    SameType(u, SetNwkAddrSpec11(u, t, a), t);
  }

  lemma AddrAfterAddr11(u: bv32, t: nat, a: bv32)
    requires t < 8 && a < NwkAddrLimit11(t) && GetNetIdType(SetNwkAddrSpec11(u, t, a)) == t
    ensures GetNwkAddr11(SetNwkAddrSpec11(u, t, a)) == a
  {
    AddrAddr11Holds(u, t, a);
  }

  lemma IdReadAfterAddr11(u: bv32, w: bv32, t: nat, a: bv32)
    requires t < 8 && a < NwkAddrLimit11(t) && w == SetNwkAddrSpec11(u, t, a)
    requires GetNetIdType(u) == t && GetNetIdType(w) == t
    ensures GetNwkId11(w) == IdAfterAddr11(t, a, GetNwkId11(u)) && GetNwkId11(u) < NwkIdLimit11(t)
  {
    AddrId11Holds(u, t, a);
    IdInRange11Holds(u, t);
  }

  lemma IdKeptByAddr11(u: bv32, w: bv32, t: nat, a: bv32)
    requires t < 8 && a < NwkAddrLimit11(t) && w == SetNwkAddrSpec11(u, t, a)
    requires GetNetIdType(u) == t && GetNetIdType(w) == t
    ensures GetNwkId11(w) == GetNwkId11(u) <==> AddrKeepsId11(t, a, GetNwkId11(u))
  {
    IdReadAfterAddr11(u, w, t, a);
    IdAfterAddrIs11(t, a, GetNwkId11(u));
  }

  /**
   Layout 1.0: setting the address of any word keeps type and identifier and is read back, except that
   on type 5 it clears the two lowest bits of the identifier.
   */
  lemma SetAddrAlone10(u: bv32, t: nat, a: bv32)
    requires t < 8 && GetNetIdType(u) == t && a < NwkAddrLimit10(t)
    ensures GetNetIdType(SetNwkAddrSpec10(u, t, a)) == t
    ensures GetNwkAddr10(SetNwkAddrSpec10(u, t, a)) == a
    ensures GetNwkId10(SetNwkAddrSpec10(u, t, a)) == GetNwkId10(u) <==> AddrKeepsId10(t, a, GetNwkId10(u))
  {
    TypeAfterAddr10(u, t, a);
    AddrAfterAddr10(u, t, a);
    IdKeptByAddr10(u, SetNwkAddrSpec10(u, t, a), t, a);
  }

  /** The same in layout 1.1, where on type 4 the identifier also takes its low bit from the address. */
  lemma SetAddrAlone11(u: bv32, t: nat, a: bv32)
    requires t < 8 && GetNetIdType(u) == t && a < NwkAddrLimit11(t)
    ensures GetNetIdType(SetNwkAddrSpec11(u, t, a)) == t
    ensures GetNwkAddr11(SetNwkAddrSpec11(u, t, a)) == a
    ensures GetNwkId11(SetNwkAddrSpec11(u, t, a)) == GetNwkId11(u) <==> AddrKeepsId11(t, a, GetNwkId11(u))
  {
    TypeAfterAddr11(u, t, a);
    AddrAfterAddr11(u, t, a);
    IdKeptByAddr11(u, SetNwkAddrSpec11(u, t, a), t, a);
  }

  // ---------- all three fields ----------

  /** The three fields of `r`, as the getters of a layout report them, are the given ones. */
  predicate Reads10(r: bv32, t: nat, id: bv32, addr: bv32) {
    GetNetIdType(r) == t && GetNwkId10(r) == id && GetNwkAddr10(r) == addr
  }

  predicate Reads11(r: bv32, t: nat, id: bv32, addr: bv32) {
    GetNetIdType(r) == t && GetNwkId11(r) == id && GetNwkAddr11(r) == addr
  }

  /** Only type 5 loses information in layout 1.0: its address mask covers two identifier bits. */
  predicate Faithful10(t: nat, id: bv32) {
    t == 5 ==> id & 3 == 0
  }

  /** In layout 1.1 the setter also misplaces the identifiers of types 3 and 4 by one bit. */
  predicate Faithful11(t: nat, id: bv32, addr: bv32) {
    (t == 3 ==> id == 0) && (t == 4 ==> id == 0 && (addr >> 7) & 1 == 0) && (t == 5 ==> id & 3 == 0)
  }

  lemma FiveBothWrites(id: bv32, b: bv32)
    requires id < 0x2000
    ensures (id | (b & 3)) & 0x1FFC == id <==> id & 3 == 0
  {}

  lemma FourBothWrites(id: bv32, b: bv32, addr: bv32)
    requires id < 0x800
    ensures (((id & 0x7FF) << 1 | (b & 1)) & 0xFFE) | ((addr >> 7) & 1) == id <==> id == 0 && (addr >> 7) & 1 == 0
  {}

  lemma IdAfterBoth10(t: nat, id: bv32, addr: bv32, b: bv32)
    requires t < 8 && id < NwkIdLimit10(t)
    ensures IdAfterAddr10(t, addr, IdAfterId10(t, id, b)) == id <==> Faithful10(t, id)
  {
    if t == 5 { FiveBothWrites(id, b); }
  }

  predicate BothWrites11(t: nat, id: bv32, addr: bv32, b: bv32) {
    IdAfterAddr11(t, addr, IdAfterId11(t, id, b)) == id <==> Faithful11(t, id, addr)
  }

  lemma BothWrites11Three(id: bv32, addr: bv32, b: bv32)
    requires id < 0x400
    ensures BothWrites11(3, id, addr, b)
  {
    ShiftedThree(id);
  }

  lemma BothWrites11Four(id: bv32, addr: bv32, b: bv32)
    requires id < 0x800
    ensures BothWrites11(4, id, addr, b)
  {
    FourBothWrites(id, b, addr);
  }

  lemma BothWrites11Five(id: bv32, addr: bv32, b: bv32)
    requires id < 0x2000
    ensures BothWrites11(5, id, addr, b)
  {
    FiveBothWrites(id, b);
  }

  lemma IdAfterBoth11(t: nat, id: bv32, addr: bv32, b: bv32)
    requires t < 8 && id < NwkIdLimit11(t) && IdFits11(t, id)
    ensures BothWrites11(t, id, addr, b)
  {
    if t == 3 { BothWrites11Three(id, addr, b); }
    else if t == 4 { BothWrites11Four(id, addr, b); }
    else if t == 5 { BothWrites11Five(id, addr, b); }
  }

  lemma FaithfulFits(t: nat, id: bv32, addr: bv32)
    requires Faithful11(t, id, addr)
    ensures IdFits11(t, id)
  {}

  lemma TypeAfterType(u: bv32, t: nat)
    requires t < 8
    ensures GetNetIdType(SetNetIdTypeSpec(u, t)) == t
  {
    SetTypeTells(u, t);
    TypeIsPrefix(SetNetIdTypeSpec(u, t), t);
  }

  lemma IdReadAfterId10(u: bv32, w: bv32, t: nat, id: bv32)
    requires t < 8 && id < NwkIdLimit10(t) && w == SetNwkIdSpec10(u, t, id)
    requires GetNetIdType(u) == t && GetNetIdType(w) == t
    ensures GetNwkId10(w) == IdAfterId10(t, id, GetNwkId10(u))
  {
    IdId10Holds(u, t, id);
  }

  /** Type, identifier and address one after the other, from `u` through `u1` and `u2` to `r`. */
  lemma FieldsOfSet10(u1: bv32, u2: bv32, r: bv32, t: nat, id: bv32, addr: bv32)
    requires InRange10(t, id, addr)
    requires GetNetIdType(u1) == t && u2 == SetNwkIdSpec10(u1, t, id) && GetNetIdType(u2) == t
    requires r == SetNwkAddrSpec10(u2, t, addr) && GetNetIdType(r) == t
    ensures GetNwkAddr10(r) == addr
    ensures GetNwkId10(r) == id <==> Faithful10(t, id)
  {
    AddrAfterAddr10(u2, t, addr);
    IdReadAfterId10(u1, u2, t, id);
    IdReadAfterAddr10(u2, r, t, addr);
    IdAfterBoth10(t, id, addr, GetNwkId10(u1));
  }

  lemma IdReadAfterId11(u: bv32, w: bv32, t: nat, id: bv32)
    requires t < 8 && id < NwkIdLimit11(t) && w == SetNwkIdSpec11(u, t, id)
    requires GetNetIdType(u) == t && GetNetIdType(w) == t
    ensures GetNwkId11(w) == IdAfterId11(t, id, GetNwkId11(u))
  {
    IdId11Holds(u, t, id);
  }

  /** Type, identifier and address one after the other, from `u` through `u1` and `u2` to `r`. */
  lemma FieldsOfSet11(u1: bv32, u2: bv32, r: bv32, t: nat, id: bv32, addr: bv32)
    requires InRange11(t, id, addr) && IdFits11(t, id)
    requires GetNetIdType(u1) == t && u2 == SetNwkIdSpec11(u1, t, id) && GetNetIdType(u2) == t
    requires r == SetNwkAddrSpec11(u2, t, addr) && GetNetIdType(r) == t
    ensures GetNwkAddr11(r) == addr
    ensures GetNwkId11(r) == id <==> Faithful11(t, id, addr)
  {
    AddrAfterAddr11(u2, t, addr);
    IdReadAfterId11(u1, u2, t, id);
    IdReadAfterAddr11(u2, r, t, addr);
    IdAfterBoth11(t, id, addr, GetNwkId11(u1));
  }

  lemma TypeAfterId10(u: bv32, t: nat, id: bv32)
    requires t < 8 && id < NwkIdLimit10(t) && GetNetIdType(u) == t
    ensures GetNetIdType(SetNwkIdSpec10(u, t, id)) == t
  {
    IdPrefix10Holds(u, t, id);
    SameType(u, SetNwkIdSpec10(u, t, id), t);
  }

  lemma TypeAfterId11(u: bv32, t: nat, id: bv32)
    requires t < 8 && id < NwkIdLimit11(t) && GetNetIdType(u) == t
    ensures GetNetIdType(SetNwkIdSpec11(u, t, id)) == t <==> IdFits11(t, id)
  {
    TypeIsPrefix(u, t);
    IdPrefix11Holds(u, t, id);
    TypeIsPrefix(SetNwkIdSpec11(u, t, id), t);
  }

  /** `set` followed by the three getters, layout 1.0. */
  lemma FieldRoundTrip10(u: bv32, t: nat, id: bv32, addr: bv32)
    requires InRange10(t, id, addr)
    ensures Reads10(SetSpec10(u, t, id, addr), t, id, addr) <==> Faithful10(t, id)
  {
    var u1 := SetNetIdTypeSpec(u, t);
    var u2 := SetNwkIdSpec10(u1, t, id);
    TypeAfterType(u, t);
    TypeAfterId10(u1, t, id);
    TypeAfterAddr10(u2, t, addr);
    FieldsOfSet10(u1, u2, SetSpec10(u, t, id, addr), t, id, addr);
  }

  /** `set` followed by the three getters, layout 1.1. */
  lemma FieldRoundTrip11(u: bv32, t: nat, id: bv32, addr: bv32)
    requires InRange11(t, id, addr)
    ensures Reads11(SetSpec11(u, t, id, addr), t, id, addr) <==> Faithful11(t, id, addr)
  {
    var u1 := SetNetIdTypeSpec(u, t);
    var u2 := SetNwkIdSpec11(u1, t, id);
    TypeAfterType(u, t);
    TypeAfterId11(u1, t, id);
    TypeAfterAddr11(u2, t, addr);
    if IdFits11(t, id) {
      FieldsOfSet11(u1, u2, SetSpec11(u, t, id, addr), t, id, addr);
    } else if Faithful11(t, id, addr) {
      FaithfulFits(t, id, addr);
    }
  }
}
