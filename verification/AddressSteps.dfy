/**
 Walking through the addresses of a network (lorawan-types.cpp): `setAddr`, `increment` and
 `decrement`, and what a number of increments leads to.
 */
module AddressSteps {
  import opened DevAddr

  // ---------- successor and predecessor ----------

  /** The checked write of the address field: result code and new word. */
  function Change(u: bv32, limit: bv32, c: bv32, value: bv32): (int, bv32) {
    if value >= limit then (ERR_CODE_ADDR_OUT_OF_RANGE, u) else (CODE_OK, (u & c) | value)
  }

  /** `setNwkAddr`. */
  function SetNwkAddrSpec(u: bv32, t: nat, value: bv32): (int, bv32) {
    if t >= 8 then (ERR_CODE_ADDR_OUT_OF_RANGE, u) else Change(u, NwkAddrLimit11(t), NwkAddrClear11(t), value)
  }

  /** `setAddr`. */
  function SetAddrSpec(u: bv32, value: bv32): (int, bv32) {
    SetNwkAddrSpec(u, GetNetIdType(u), value)
  }

  function IncrementSpec(u: bv32): (int, bv32) {
    SetAddrSpec(u, GetNwkAddr11(u) + 1)
  }

  function DecrementSpec(u: bv32): (int, bv32) {
    SetAddrSpec(u, GetNwkAddr11(u) - 1)
  }

  /** Bits outside the address field that the address setter wipes all the same. */
  function Gap(t: nat): bv32 {
    if t == 5 then 0x6000 else 0
  }

  /** Constants of type `t`: address field, bits the setter keeps, prefix, wiped bits, limit. */
  predicate Masks(t: nat, m: bv32, c: bv32, p: bv32, x: bv32, l: bv32) {
    t < 8 && m == AddrMask(t) && c == NwkAddrClear11(t) && p == PrefixMask(t) && x == Gap(t) && l == NwkAddrLimit11(t)
  }

  // What one step does to a word `u`, for given masks; `v` is the new word.
  // With literal masks each fact is settled by bit-blasting alone.

  predicate UpWord(u: bv32, v: bv32, m: bv32, c: bv32) { u & m != m && v == (u & c) | ((u & m) + 1) }
  predicate DownWord(u: bv32, v: bv32, m: bv32, c: bv32) { u & m != 0 && v == (u & c) | ((u & m) - 1) }

  predicate UpFits(u: bv32, m: bv32, l: bv32) { (u & m) + 1 < l }
  predicate UpField(u: bv32, v: bv32, m: bv32) { v & m == (u & m) + 1 }
  predicate DownFits(u: bv32, m: bv32, l: bv32) { (u & m) - 1 < l }
  predicate DownField(u: bv32, v: bv32, m: bv32) { v & m == (u & m) - 1 }
  predicate SamePrefix(u: bv32, v: bv32, p: bv32) { v & p == u & p }
  predicate Clean(u: bv32, x: bv32) { u & x == 0 }
  predicate UpExact(u: bv32, v: bv32, x: bv32) { v == u + 1 <==> Clean(u, x) }
  predicate DownExact(u: bv32, v: bv32, x: bv32) { v == u - 1 <==> Clean(u, x) }

  lemma UpFit0(u: bv32, v: bv32)
    requires UpWord(u, v, 0x1FFFFFF, 0xFE000000)
    ensures UpFits(u, 0x1FFFFFF, 0x2000000)
  {}

  lemma UpFit1(u: bv32, v: bv32)
    requires UpWord(u, v, 0xFFFFFF, 0xFF000000)
    ensures UpFits(u, 0xFFFFFF, 0x1000000)
  {}

  lemma UpFit2(u: bv32, v: bv32)
    requires UpWord(u, v, 0xFFFFF, 0xFFF00000)
    ensures UpFits(u, 0xFFFFF, 0x100000)
  {}

  lemma UpFit3(u: bv32, v: bv32)
    requires UpWord(u, v, 0x1FFFF, 0xFFFE0000)
    ensures UpFits(u, 0x1FFFF, 0x20000)
  {}

  lemma UpFit4(u: bv32, v: bv32)
    requires UpWord(u, v, 0x7FFF, 0xFFFF8000)
    ensures UpFits(u, 0x7FFF, 0x8000)
  {}

  lemma UpFit5(u: bv32, v: bv32)
    requires UpWord(u, v, 0x1FFF, 0xFFFF8000)
    ensures UpFits(u, 0x1FFF, 0x2000)
  {}

  lemma UpFit6(u: bv32, v: bv32)
    requires UpWord(u, v, 0x3FF, 0xFFFFFC00)
    ensures UpFits(u, 0x3FF, 0x400)
  {}

  lemma UpFit7(u: bv32, v: bv32)
    requires UpWord(u, v, 0x7F, 0xFFFFFF80)
    ensures UpFits(u, 0x7F, 0x80)
  {}

  lemma UpFit(u: bv32, v: bv32, t: nat, m: bv32, c: bv32, p: bv32, x: bv32, l: bv32)
    requires Masks(t, m, c, p, x, l) && UpWord(u, v, m, c)
    ensures UpFits(u, m, l)
  {
    if t == 0 { UpFit0(u, v); }
    else if t == 1 { UpFit1(u, v); }
    else if t == 2 { UpFit2(u, v); }
    else if t == 3 { UpFit3(u, v); }
    else if t == 4 { UpFit4(u, v); }
    else if t == 5 { UpFit5(u, v); }
    else if t == 6 { UpFit6(u, v); }
    else { UpFit7(u, v); }
  }

  lemma UpMoves0(u: bv32, v: bv32)
    requires UpWord(u, v, 0x1FFFFFF, 0xFE000000)
    ensures UpField(u, v, 0x1FFFFFF)
    ensures SamePrefix(u, v, 0x80000000)
  {}

  lemma UpMoves1(u: bv32, v: bv32)
    requires UpWord(u, v, 0xFFFFFF, 0xFF000000)
    ensures UpField(u, v, 0xFFFFFF)
    ensures SamePrefix(u, v, 0xC0000000)
  {}

  lemma UpMoves2(u: bv32, v: bv32)
    requires UpWord(u, v, 0xFFFFF, 0xFFF00000)
    ensures UpField(u, v, 0xFFFFF)
    ensures SamePrefix(u, v, 0xE0000000)
  {}

  lemma UpMoves3(u: bv32, v: bv32)
    requires UpWord(u, v, 0x1FFFF, 0xFFFE0000)
    ensures UpField(u, v, 0x1FFFF)
    ensures SamePrefix(u, v, 0xF0000000)
  {}

  lemma UpMoves4(u: bv32, v: bv32)
    requires UpWord(u, v, 0x7FFF, 0xFFFF8000)
    ensures UpField(u, v, 0x7FFF)
    ensures SamePrefix(u, v, 0xF8000000)
  {}

  lemma UpMoves5(u: bv32, v: bv32)
    requires UpWord(u, v, 0x1FFF, 0xFFFF8000)
    ensures UpField(u, v, 0x1FFF)
    ensures SamePrefix(u, v, 0xFC000000)
  {}

  lemma UpMoves6(u: bv32, v: bv32)
    requires UpWord(u, v, 0x3FF, 0xFFFFFC00)
    ensures UpField(u, v, 0x3FF)
    ensures SamePrefix(u, v, 0xFE000000)
  {}

  lemma UpMoves7(u: bv32, v: bv32)
    requires UpWord(u, v, 0x7F, 0xFFFFFF80)
    ensures UpField(u, v, 0x7F)
    ensures SamePrefix(u, v, 0xFF000000)
  {}

  lemma UpMoves(u: bv32, v: bv32, t: nat, m: bv32, c: bv32, p: bv32, x: bv32, l: bv32)
    requires Masks(t, m, c, p, x, l) && UpWord(u, v, m, c)
    ensures UpField(u, v, m)
    ensures SamePrefix(u, v, p)
  {
    if t == 0 { UpMoves0(u, v); }
    else if t == 1 { UpMoves1(u, v); }
    else if t == 2 { UpMoves2(u, v); }
    else if t == 3 { UpMoves3(u, v); }
    else if t == 4 { UpMoves4(u, v); }
    else if t == 5 { UpMoves5(u, v); }
    else if t == 6 { UpMoves6(u, v); }
    else { UpMoves7(u, v); }
  }

  lemma UpLands0(u: bv32, v: bv32)
    requires UpWord(u, v, 0x1FFFFFF, 0xFE000000)
    ensures Clean(v, 0)
    ensures UpExact(u, v, 0)
  {}

  lemma UpLands1(u: bv32, v: bv32)
    requires UpWord(u, v, 0xFFFFFF, 0xFF000000)
    ensures Clean(v, 0)
    ensures UpExact(u, v, 0)
  {}

  lemma UpLands2(u: bv32, v: bv32)
    requires UpWord(u, v, 0xFFFFF, 0xFFF00000)
    ensures Clean(v, 0)
    ensures UpExact(u, v, 0)
  {}

  lemma UpLands3(u: bv32, v: bv32)
    requires UpWord(u, v, 0x1FFFF, 0xFFFE0000)
    ensures Clean(v, 0)
    ensures UpExact(u, v, 0)
  {}

  lemma UpLands4(u: bv32, v: bv32)
    requires UpWord(u, v, 0x7FFF, 0xFFFF8000)
    ensures Clean(v, 0)
    ensures UpExact(u, v, 0)
  {}

  lemma UpLands5(u: bv32, v: bv32)
    requires UpWord(u, v, 0x1FFF, 0xFFFF8000)
    ensures Clean(v, 0x6000)
    ensures UpExact(u, v, 0x6000)
  {}

  lemma UpLands6(u: bv32, v: bv32)
    requires UpWord(u, v, 0x3FF, 0xFFFFFC00)
    ensures Clean(v, 0)
    ensures UpExact(u, v, 0)
  {}

  lemma UpLands7(u: bv32, v: bv32)
    requires UpWord(u, v, 0x7F, 0xFFFFFF80)
    ensures Clean(v, 0)
    ensures UpExact(u, v, 0)
  {}

  lemma UpLands(u: bv32, v: bv32, t: nat, m: bv32, c: bv32, p: bv32, x: bv32, l: bv32)
    requires Masks(t, m, c, p, x, l) && UpWord(u, v, m, c)
    ensures Clean(v, x)
    ensures UpExact(u, v, x)
  {
    if t == 0 { UpLands0(u, v); }
    else if t == 1 { UpLands1(u, v); }
    else if t == 2 { UpLands2(u, v); }
    else if t == 3 { UpLands3(u, v); }
    else if t == 4 { UpLands4(u, v); }
    else if t == 5 { UpLands5(u, v); }
    else if t == 6 { UpLands6(u, v); }
    else { UpLands7(u, v); }
  }

  lemma DownFit0(u: bv32, v: bv32)
    requires DownWord(u, v, 0x1FFFFFF, 0xFE000000)
    ensures DownFits(u, 0x1FFFFFF, 0x2000000)
  {}

  lemma DownFit1(u: bv32, v: bv32)
    requires DownWord(u, v, 0xFFFFFF, 0xFF000000)
    ensures DownFits(u, 0xFFFFFF, 0x1000000)
  {}

  lemma DownFit2(u: bv32, v: bv32)
    requires DownWord(u, v, 0xFFFFF, 0xFFF00000)
    ensures DownFits(u, 0xFFFFF, 0x100000)
  {}

  lemma DownFit3(u: bv32, v: bv32)
    requires DownWord(u, v, 0x1FFFF, 0xFFFE0000)
    ensures DownFits(u, 0x1FFFF, 0x20000)
  {}

  lemma DownFit4(u: bv32, v: bv32)
    requires DownWord(u, v, 0x7FFF, 0xFFFF8000)
    ensures DownFits(u, 0x7FFF, 0x8000)
  {}

  lemma DownFit5(u: bv32, v: bv32)
    requires DownWord(u, v, 0x1FFF, 0xFFFF8000)
    ensures DownFits(u, 0x1FFF, 0x2000)
  {}

  lemma DownFit6(u: bv32, v: bv32)
    requires DownWord(u, v, 0x3FF, 0xFFFFFC00)
    ensures DownFits(u, 0x3FF, 0x400)
  {}

  lemma DownFit7(u: bv32, v: bv32)
    requires DownWord(u, v, 0x7F, 0xFFFFFF80)
    ensures DownFits(u, 0x7F, 0x80)
  {}

  lemma DownFit(u: bv32, v: bv32, t: nat, m: bv32, c: bv32, p: bv32, x: bv32, l: bv32)
    requires Masks(t, m, c, p, x, l) && DownWord(u, v, m, c)
    ensures DownFits(u, m, l)
  {
    if t == 0 { DownFit0(u, v); }
    else if t == 1 { DownFit1(u, v); }
    else if t == 2 { DownFit2(u, v); }
    else if t == 3 { DownFit3(u, v); }
    else if t == 4 { DownFit4(u, v); }
    else if t == 5 { DownFit5(u, v); }
    else if t == 6 { DownFit6(u, v); }
    else { DownFit7(u, v); }
  }

  lemma DownMoves0(u: bv32, v: bv32)
    requires DownWord(u, v, 0x1FFFFFF, 0xFE000000)
    ensures DownField(u, v, 0x1FFFFFF)
    ensures SamePrefix(u, v, 0x80000000)
  {}

  lemma DownMoves1(u: bv32, v: bv32)
    requires DownWord(u, v, 0xFFFFFF, 0xFF000000)
    ensures DownField(u, v, 0xFFFFFF)
    ensures SamePrefix(u, v, 0xC0000000)
  {}

  lemma DownMoves2(u: bv32, v: bv32)
    requires DownWord(u, v, 0xFFFFF, 0xFFF00000)
    ensures DownField(u, v, 0xFFFFF)
    ensures SamePrefix(u, v, 0xE0000000)
  {}

  lemma DownMoves3(u: bv32, v: bv32)
    requires DownWord(u, v, 0x1FFFF, 0xFFFE0000)
    ensures DownField(u, v, 0x1FFFF)
    ensures SamePrefix(u, v, 0xF0000000)
  {}

  lemma DownMoves4(u: bv32, v: bv32)
    requires DownWord(u, v, 0x7FFF, 0xFFFF8000)
    ensures DownField(u, v, 0x7FFF)
    ensures SamePrefix(u, v, 0xF8000000)
  {}

  lemma DownMoves5(u: bv32, v: bv32)
    requires DownWord(u, v, 0x1FFF, 0xFFFF8000)
    ensures DownField(u, v, 0x1FFF)
    ensures SamePrefix(u, v, 0xFC000000)
  {}

  lemma DownMoves6(u: bv32, v: bv32)
    requires DownWord(u, v, 0x3FF, 0xFFFFFC00)
    ensures DownField(u, v, 0x3FF)
    ensures SamePrefix(u, v, 0xFE000000)
  {}

  lemma DownMoves7(u: bv32, v: bv32)
    requires DownWord(u, v, 0x7F, 0xFFFFFF80)
    ensures DownField(u, v, 0x7F)
    ensures SamePrefix(u, v, 0xFF000000)
  {}

  lemma DownMoves(u: bv32, v: bv32, t: nat, m: bv32, c: bv32, p: bv32, x: bv32, l: bv32)
    requires Masks(t, m, c, p, x, l) && DownWord(u, v, m, c)
    ensures DownField(u, v, m)
    ensures SamePrefix(u, v, p)
  {
    if t == 0 { DownMoves0(u, v); }
    else if t == 1 { DownMoves1(u, v); }
    else if t == 2 { DownMoves2(u, v); }
    else if t == 3 { DownMoves3(u, v); }
    else if t == 4 { DownMoves4(u, v); }
    else if t == 5 { DownMoves5(u, v); }
    else if t == 6 { DownMoves6(u, v); }
    else { DownMoves7(u, v); }
  }

  lemma DownLands0(u: bv32, v: bv32)
    requires DownWord(u, v, 0x1FFFFFF, 0xFE000000)
    ensures Clean(v, 0)
    ensures DownExact(u, v, 0)
  {}

  lemma DownLands1(u: bv32, v: bv32)
    requires DownWord(u, v, 0xFFFFFF, 0xFF000000)
    ensures Clean(v, 0)
    ensures DownExact(u, v, 0)
  {}

  lemma DownLands2(u: bv32, v: bv32)
    requires DownWord(u, v, 0xFFFFF, 0xFFF00000)
    ensures Clean(v, 0)
    ensures DownExact(u, v, 0)
  {}

  lemma DownLands3(u: bv32, v: bv32)
    requires DownWord(u, v, 0x1FFFF, 0xFFFE0000)
    ensures Clean(v, 0)
    ensures DownExact(u, v, 0)
  {}

  lemma DownLands4(u: bv32, v: bv32)
    requires DownWord(u, v, 0x7FFF, 0xFFFF8000)
    ensures Clean(v, 0)
    ensures DownExact(u, v, 0)
  {}

  lemma DownLands5(u: bv32, v: bv32)
    requires DownWord(u, v, 0x1FFF, 0xFFFF8000)
    ensures Clean(v, 0x6000)
    ensures DownExact(u, v, 0x6000)
  {}

  lemma DownLands6(u: bv32, v: bv32)
    requires DownWord(u, v, 0x3FF, 0xFFFFFC00)
    ensures Clean(v, 0)
    ensures DownExact(u, v, 0)
  {}

  lemma DownLands7(u: bv32, v: bv32)
    requires DownWord(u, v, 0x7F, 0xFFFFFF80)
    ensures Clean(v, 0)
    ensures DownExact(u, v, 0)
  {}

  lemma DownLands(u: bv32, v: bv32, t: nat, m: bv32, c: bv32, p: bv32, x: bv32, l: bv32)
    requires Masks(t, m, c, p, x, l) && DownWord(u, v, m, c)
    ensures Clean(v, x)
    ensures DownExact(u, v, x)
  {
    if t == 0 { DownLands0(u, v); }
    else if t == 1 { DownLands1(u, v); }
    else if t == 2 { DownLands2(u, v); }
    else if t == 3 { DownLands3(u, v); }
    else if t == 4 { DownLands4(u, v); }
    else if t == 5 { DownLands5(u, v); }
    else if t == 6 { DownLands6(u, v); }
    else { DownLands7(u, v); }
  }

  lemma TopFails(u: bv32, t: nat, m: bv32, c: bv32, p: bv32, x: bv32, l: bv32)
    requires Masks(t, m, c, p, x, l) && u & m == m
    ensures !UpFits(u, m, l)
  {
    match t {
      case 0 => case 1 => case 2 => case 3 => case 4 => case 5 => case 6 => case _ =>
    }
  }

  lemma BottomFails(u: bv32, t: nat, m: bv32, c: bv32, p: bv32, x: bv32, l: bv32)
    requires Masks(t, m, c, p, x, l) && u & m == 0
    ensures !DownFits(u, m, l)
  {
    match t {
      case 0 => case 1 => case 2 => case 3 => case 4 => case 5 => case 6 => case _ =>
    }
  }

  lemma AddrByMask(u: bv32, t: nat)
    requires t < 8 && GetNetIdType(u) == t
    ensures GetNwkAddr11(u) == u & AddrMask(t)
  {
    AddrIsSuffix(u, t);
  }

  lemma IncrementIs(u: bv32, t: nat)
    requires t < 8 && GetNetIdType(u) == t
    ensures IncrementSpec(u) == Change(u, NwkAddrLimit11(t), NwkAddrClear11(t), (u & AddrMask(t)) + 1)
  {
    AddrByMask(u, t);
  }

  lemma DecrementIs(u: bv32, t: nat)
    requires t < 8 && GetNetIdType(u) == t
    ensures DecrementSpec(u) == Change(u, NwkAddrLimit11(t), NwkAddrClear11(t), (u & AddrMask(t)) - 1)
  {
    AddrByMask(u, t);
  }

  lemma ChangeUp(u: bv32, v: bv32, m: bv32, c: bv32, l: bv32)
    requires UpWord(u, v, m, c) && UpFits(u, m, l)
    ensures Change(u, l, c, (u & m) + 1) == (CODE_OK, v)
  {}

  lemma ChangeTop(u: bv32, m: bv32, c: bv32, l: bv32)
    requires !UpFits(u, m, l)
    ensures Change(u, l, c, (u & m) + 1) == (ERR_CODE_ADDR_OUT_OF_RANGE, u)
  {}

  lemma IncrementStep(u: bv32, v: bv32, t: nat, m: bv32, c: bv32, p: bv32, x: bv32, l: bv32)
    requires Masks(t, m, c, p, x, l) && GetNetIdType(u) == t && UpWord(u, v, m, c)
    ensures IncrementSpec(u) == (CODE_OK, v)
  {
    IncrementIs(u, t);
    UpFit(u, v, t, m, c, p, x, l);
    ChangeUp(u, v, m, c, l);
  }

  lemma IncrementStops(u: bv32, t: nat, m: bv32, c: bv32, p: bv32, x: bv32, l: bv32)
    requires Masks(t, m, c, p, x, l) && GetNetIdType(u) == t && u & m == m
    ensures IncrementSpec(u) == (ERR_CODE_ADDR_OUT_OF_RANGE, u)
  {
    IncrementIs(u, t);
    TopFails(u, t, m, c, p, x, l);
    ChangeTop(u, m, c, l);
  }

  lemma ChangeDown(u: bv32, v: bv32, m: bv32, c: bv32, l: bv32)
    requires DownWord(u, v, m, c) && DownFits(u, m, l)
    ensures Change(u, l, c, (u & m) - 1) == (CODE_OK, v)
  {}

  lemma ChangeBottom(u: bv32, m: bv32, c: bv32, l: bv32)
    requires !DownFits(u, m, l)
    ensures Change(u, l, c, (u & m) - 1) == (ERR_CODE_ADDR_OUT_OF_RANGE, u)
  {}

  lemma DecrementStep(u: bv32, v: bv32, t: nat, m: bv32, c: bv32, p: bv32, x: bv32, l: bv32)
    requires Masks(t, m, c, p, x, l) && GetNetIdType(u) == t && DownWord(u, v, m, c)
    ensures DecrementSpec(u) == (CODE_OK, v)
  {
    DecrementIs(u, t);
    DownFit(u, v, t, m, c, p, x, l);
    ChangeDown(u, v, m, c, l);
  }

  lemma DecrementStops(u: bv32, t: nat, m: bv32, c: bv32, p: bv32, x: bv32, l: bv32)
    requires Masks(t, m, c, p, x, l) && GetNetIdType(u) == t && u & m == 0
    ensures DecrementSpec(u) == (ERR_CODE_ADDR_OUT_OF_RANGE, u)
  {
    DecrementIs(u, t);
    BottomFails(u, t, m, c, p, x, l);
    ChangeBottom(u, m, c, l);
  }

  /** The type of a word depends on its prefix only. */
  lemma PrefixGivesType(u: bv32, v: bv32, t: nat)
    requires t < 8 && GetNetIdType(u) == t && SamePrefix(u, v, PrefixMask(t))
    ensures GetNetIdType(v) == t
  {
    TypeIsPrefix(u, t);
    TypeIsPrefix(v, t);
  }

  lemma AddrMovesUp(u: bv32, v: bv32, t: nat)
    requires t < 8 && GetNetIdType(u) == t && GetNetIdType(v) == t && UpField(u, v, AddrMask(t))
    ensures GetNwkAddr11(v) == GetNwkAddr11(u) + 1
  {
    AddrByMask(u, t);
    AddrByMask(v, t);
  }

  lemma AddrMovesDown(u: bv32, v: bv32, t: nat)
    requires t < 8 && GetNetIdType(u) == t && GetNetIdType(v) == t && DownField(u, v, AddrMask(t))
    ensures GetNwkAddr11(v) == GetNwkAddr11(u) - 1
  {
    AddrByMask(u, t);
    AddrByMask(v, t);
  }

  lemma UpNeighbour(u: bv32, v: bv32, t: nat, m: bv32, c: bv32, p: bv32, x: bv32, l: bv32)
    requires Masks(t, m, c, p, x, l) && GetNetIdType(u) == t && UpWord(u, v, m, c)
    ensures GetNetIdType(v) == t
    ensures GetNwkAddr11(v) == GetNwkAddr11(u) + 1
  {
    UpMoves(u, v, t, m, c, p, x, l);
    PrefixGivesType(u, v, t);
    AddrMovesUp(u, v, t);
  }

  lemma DownNeighbour(u: bv32, v: bv32, t: nat, m: bv32, c: bv32, p: bv32, x: bv32, l: bv32)
    requires Masks(t, m, c, p, x, l) && GetNetIdType(u) == t && DownWord(u, v, m, c)
    ensures GetNetIdType(v) == t
    ensures GetNwkAddr11(v) == GetNwkAddr11(u) - 1
  {
    DownMoves(u, v, t, m, c, p, x, l);
    PrefixGivesType(u, v, t);
    AddrMovesDown(u, v, t);
  }

  predicate AtLast(u: bv32, t: nat)
    requires t < 8
  {
    u & AddrMask(t) == AddrMask(t)
  }

  predicate AtFirst(u: bv32, t: nat)
    requires t < 8
  {
    u & AddrMask(t) == 0
  }

  lemma FieldNotZero(u: bv32, t: nat, m: bv32, c: bv32, p: bv32, x: bv32, l: bv32)
    requires Masks(t, m, c, p, x, l) && u & m != m
    ensures (u & m) + 1 != 0
  {
    match t {
      case 0 => case 1 => case 2 => case 3 => case 4 => case 5 => case 6 => case _ =>
    }
  }

  lemma SumNotZero(u: bv32, v: bv32, m: bv32)
    requires UpField(u, v, m) && (u & m) + 1 != 0
    ensures v & m != 0
  {}

  lemma NotFirstAfter(u: bv32, v: bv32, t: nat, m: bv32, c: bv32, p: bv32, x: bv32, l: bv32)
    requires Masks(t, m, c, p, x, l) && UpWord(u, v, m, c)
    ensures v & m != 0
  {
    UpMoves(u, v, t, m, c, p, x, l);
    FieldNotZero(u, t, m, c, p, x, l);
    SumNotZero(u, v, m);
  }

  /** `r` is a successful step up from the word `u` of type `t`. */
  predicate StepUp(u: bv32, r: (int, bv32), t: nat)
    requires t < 8
  {
    && r.0 == CODE_OK && GetNetIdType(r.1) == t && GetNwkAddr11(r.1) == GetNwkAddr11(u) + 1
    && UpExact(u, r.1, Gap(t)) && Clean(r.1, Gap(t)) && !AtFirst(r.1, t)
  }

  predicate StepDown(u: bv32, r: (int, bv32), t: nat)
    requires t < 8
  {
    && r.0 == CODE_OK && GetNetIdType(r.1) == t && GetNwkAddr11(r.1) == GetNwkAddr11(u) - 1
    && DownExact(u, r.1, Gap(t)) && Clean(r.1, Gap(t))
  }

  lemma IncrementMoves(u: bv32, v: bv32, t: nat, m: bv32, c: bv32, p: bv32, x: bv32, l: bv32)
    requires Masks(t, m, c, p, x, l) && GetNetIdType(u) == t && UpWord(u, v, m, c)
    ensures StepUp(u, IncrementSpec(u), t)
  {
    IncrementStep(u, v, t, m, c, p, x, l);
    UpNeighbour(u, v, t, m, c, p, x, l);
    UpLands(u, v, t, m, c, p, x, l);
    NotFirstAfter(u, v, t, m, c, p, x, l);
  }

  lemma DecrementMoves(u: bv32, v: bv32, t: nat, m: bv32, c: bv32, p: bv32, x: bv32, l: bv32)
    requires Masks(t, m, c, p, x, l) && GetNetIdType(u) == t && DownWord(u, v, m, c)
    ensures StepDown(u, DecrementSpec(u), t)
  {
    DecrementStep(u, v, t, m, c, p, x, l);
    DownNeighbour(u, v, t, m, c, p, x, l);
    DownLands(u, v, t, m, c, p, x, l);
  }

  lemma IncrementAtLast(u: bv32, t: nat)
    requires t < 8 && GetNetIdType(u) == t && AtLast(u, t)
    ensures IncrementSpec(u) == (ERR_CODE_ADDR_OUT_OF_RANGE, u)
  {
    IncrementStops(u, t, AddrMask(t), NwkAddrClear11(t), PrefixMask(t), Gap(t), NwkAddrLimit11(t));
  }

  lemma IsUpWord(u: bv32, m: bv32, c: bv32)
    requires u & m != m
    ensures UpWord(u, (u & c) | ((u & m) + 1), m, c)
  {}

  lemma IsDownWord(u: bv32, m: bv32, c: bv32)
    requires u & m != 0
    ensures DownWord(u, (u & c) | ((u & m) - 1), m, c)
  {}

  lemma IncrementInside(u: bv32, t: nat)
    requires t < 8 && GetNetIdType(u) == t && !AtLast(u, t)
    ensures StepUp(u, IncrementSpec(u), t)
  {
    var m, c := AddrMask(t), NwkAddrClear11(t);
    IsUpWord(u, m, c);
    IncrementMoves(u, (u & c) | ((u & m) + 1), t, m, c, PrefixMask(t), Gap(t), NwkAddrLimit11(t));
  }

  lemma DecrementAtFirst(u: bv32, t: nat)
    requires t < 8 && GetNetIdType(u) == t && AtFirst(u, t)
    ensures DecrementSpec(u) == (ERR_CODE_ADDR_OUT_OF_RANGE, u)
  {
    DecrementStops(u, t, AddrMask(t), NwkAddrClear11(t), PrefixMask(t), Gap(t), NwkAddrLimit11(t));
  }

  lemma DecrementInside(u: bv32, t: nat)
    requires t < 8 && GetNetIdType(u) == t && !AtFirst(u, t)
    ensures StepDown(u, DecrementSpec(u), t)
  {
    var m, c := AddrMask(t), NwkAddrClear11(t);
    IsDownWord(u, m, c);
    DecrementMoves(u, (u & c) | ((u & m) - 1), t, m, c, PrefixMask(t), Gap(t), NwkAddrLimit11(t));
  }

  /** `increment` fails exactly at the last address; elsewhere it is a step up. */
  lemma IncrementExact(u: bv32, t: nat)
    requires t < 8 && GetNetIdType(u) == t
    ensures AtLast(u, t) ==> IncrementSpec(u) == (ERR_CODE_ADDR_OUT_OF_RANGE, u)
    ensures !AtLast(u, t) ==> StepUp(u, IncrementSpec(u), t)
  {
    if AtLast(u, t) { IncrementAtLast(u, t); } else { IncrementInside(u, t); }
  }

  /** `decrement` fails exactly at the first address; elsewhere it is a step down. */
  lemma DecrementExact(u: bv32, t: nat)
    requires t < 8 && GetNetIdType(u) == t
    ensures AtFirst(u, t) ==> DecrementSpec(u) == (ERR_CODE_ADDR_OUT_OF_RANGE, u)
    ensures !AtFirst(u, t) ==> StepDown(u, DecrementSpec(u), t)
  {
    if AtFirst(u, t) { DecrementAtFirst(u, t); } else { DecrementInside(u, t); }
  }

  lemma PlusMinus(u: bv32)
    ensures (u + 1) - 1 == u
  {}

  lemma DecrementAfter(u: bv32, v: bv32, t: nat)
    requires t < 8 && GetNetIdType(v) == t && !AtFirst(v, t) && Clean(v, Gap(t))
    ensures DecrementSpec(v) == (CODE_OK, v - 1) && Clean(v - 1, Gap(t))
  {
    DecrementInside(v, t);
  }

  /** `decrement` undoes `increment`, except that on type 5 the two wiped bits are lost. */
  lemma DecrementUndoesIncrement(u: bv32, t: nat)
    requires t < 8 && GetNetIdType(u) == t && !AtLast(u, t)
    ensures DecrementSpec(IncrementSpec(u).1) == (CODE_OK, u) <==> Clean(u, Gap(t))
  {
    var v := IncrementSpec(u).1;
    IncrementInside(u, t);
    DecrementAfter(u, v, t);
    if Clean(u, Gap(t)) { PlusMinus(u); }
  }

  // ---------- all addresses of a network ----------

  /** The word after `n` calls of `increment`. */
  function After(u: bv32, n: bv32): bv32
    decreases n
  {
    if n == 0 then u else IncrementSpec(After(u, n - 1)).1
  }

  predicate Inside(n: bv32, m: bv32) { n <= m }

  lemma Inside0(n: bv32)
    requires n != 0 && Inside(n, 0x1FFFFFF)
    ensures Inside(n - 1, 0x1FFFFFF)
    ensures n - 1 != 0x1FFFFFF
  {}

  lemma Inside1(n: bv32)
    requires n != 0 && Inside(n, 0xFFFFFF)
    ensures Inside(n - 1, 0xFFFFFF)
    ensures n - 1 != 0xFFFFFF
  {}

  lemma Inside2(n: bv32)
    requires n != 0 && Inside(n, 0xFFFFF)
    ensures Inside(n - 1, 0xFFFFF)
    ensures n - 1 != 0xFFFFF
  {}

  lemma Inside3(n: bv32)
    requires n != 0 && Inside(n, 0x1FFFF)
    ensures Inside(n - 1, 0x1FFFF)
    ensures n - 1 != 0x1FFFF
  {}

  lemma Inside4(n: bv32)
    requires n != 0 && Inside(n, 0x7FFF)
    ensures Inside(n - 1, 0x7FFF) ensures n - 1 != 0x7FFF
  {}

  lemma Inside5(n: bv32)
    requires n != 0 && Inside(n, 0x1FFF)
    ensures Inside(n - 1, 0x1FFF) ensures n - 1 != 0x1FFF
  {}

  lemma Inside6(n: bv32)
    requires n != 0 && Inside(n, 0x3FF)
    ensures Inside(n - 1, 0x3FF) ensures n - 1 != 0x3FF
  {}

  lemma Inside7(n: bv32)
    requires n != 0 && Inside(n, 0x7F)
    ensures Inside(n - 1, 0x7F) ensures n - 1 != 0x7F
  {}

  lemma PredecessorInside(n: bv32, t: nat, m: bv32, c: bv32, p: bv32, x: bv32, l: bv32)
    requires Masks(t, m, c, p, x, l) && n != 0 && Inside(n, m)
    ensures Inside(n - 1, m)
    ensures n - 1 != m
  {
    if t == 0 { Inside0(n); }
    else if t == 1 { Inside1(n); }
    else if t == 2 { Inside2(n); }
    else if t == 3 { Inside3(n); }
    else if t == 4 { Inside4(n); }
    else if t == 5 { Inside5(n); }
    else if t == 6 { Inside6(n); }
    else { Inside7(n); }
  }

  /** `u` is a word of type `t` whose address is `n`, clear where the address setter clears. */
  predicate Holds(u: bv32, t: nat, n: bv32) {
    t < 8 && GetNetIdType(u) == t && u & AddrMask(t) == n && Clean(u, Gap(t))
  }

  predicate Counted(b: bv32, t: nat, n: bv32, w: bv32) {
    After(b, n) == w && Holds(w, t, n)
  }

  lemma CountOne(u: bv32, t: nat, n: bv32)
    requires Holds(u, t, n) && n != AddrMask(t)
    ensures IncrementSpec(u) == (CODE_OK, u + 1) && Holds(u + 1, t, n + 1)
  {
    IncrementInside(u, t);
    AddrByMask(u, t);
    AddrByMask(u + 1, t);
  }

  lemma Smaller(n: bv32)
    requires n != 0
    ensures n - 1 < n
  {}

  /** A mark by which the step fact below is used for one number only. */
  predicate Visit(k: bv32) { true }

  /** Induction on a counter. */
  lemma {:induction false} CountUp(P: bv32 -> bool, n: bv32)
    requires P(0)
    requires forall k {:trigger Visit(k)} :: Visit(k) && k != 0 && P(k - 1) ==> P(k)
    ensures P(n)
    decreases n
  {
    if n != 0 {
      Smaller(n);
      CountUp(P, n - 1);
      assert Visit(n);
    }
  }

  function Plus(b: bv32, k: bv32): bv32 { b + k }

  lemma MinusPlus(k: bv32)
    ensures k == (k - 1) + 1
  {}

  lemma SumNext(b: bv32, k: bv32)
    ensures Plus(b, k) == Plus(b, k - 1) + 1
  {}

  lemma PlusNext(b: bv32, j: bv32, k: bv32)
    requires j == k - 1
    ensures k == j + 1
    ensures Plus(b, k) == Plus(b, j) + 1
  {
    MinusPlus(k);
    SumNext(b, k);
  }

  lemma PlusZero(b: bv32)
    ensures Plus(b, 0) == b
  {}

  lemma AfterNext(b: bv32, j: bv32, k: bv32)
    requires k != 0 && j == k - 1
    ensures After(b, k) == IncrementSpec(After(b, j)).1
  {}

  lemma FieldClosed(t: nat, m: bv32, j: bv32, k: bv32)
    requires t < 8 && m == AddrMask(t) && Inside(k, m) && k != 0 && j == k - 1
    ensures Inside(j, m)
    ensures j != m
  {
    PredecessorInside(k, t, m, NwkAddrClear11(t), PrefixMask(t), Gap(t), NwkAddrLimit11(t));
  }

  lemma CountFrom(b: bv32, t: nat, j: bv32, w: bv32, k: bv32, v: bv32)
    requires Counted(b, t, j, w) && j != AddrMask(t) && k == j + 1 && v == w + 1
    requires After(b, k) == IncrementSpec(After(b, j)).1
    ensures Counted(b, t, k, v)
  {
    CountOne(w, t, j);
  }

  /** As far as the address field goes, `k` increments add `k` to the word. */
  predicate CountedTo(b: bv32, t: nat, k: bv32) {
    t < 8 && Inside(k, AddrMask(t)) ==> Counted(b, t, k, Plus(b, k))
  }

  lemma CountStep(b: bv32, t: nat, j: bv32, k: bv32)
    requires k != 0 && j == k - 1 && CountedTo(b, t, j)
    ensures CountedTo(b, t, k)
  {
    if t < 8 && Inside(k, AddrMask(t)) {
      FieldClosed(t, AddrMask(t), j, k);
      PlusNext(b, j, k);
      AfterNext(b, j, k);
      CountFrom(b, t, j, Plus(b, j), k, Plus(b, k));
    }
  }

  lemma CountNone(b: bv32, t: nat)
    requires Holds(b, t, 0)
    ensures CountedTo(b, t, 0)
  {
    PlusZero(b);
  }

  /** `n` increments from address 0 of a clean word add `n` to the word. */
  lemma EnumerateClean(b: bv32, t: nat, n: bv32)
    requires Holds(b, t, 0)
    ensures CountedTo(b, t, n)
  {
    CountNone(b, t);
    forall k: bv32 | k != 0 && CountedTo(b, t, k - 1) ensures CountedTo(b, t, k) {
      CountStep(b, t, k - 1, k);
    }
    CountUp(k => CountedTo(b, t, k), n);
  }

  // The first increment wipes the bits of type 5 that the address setter clears.

  function Cleaned(u: bv32, t: nat): bv32 { if t == 5 then u & 0xFFFF9FFF else u }

  /** Address 0 in both words, and the same bits outside of what the address setter clears. */
  predicate Alike(u: bv32, w: bv32, m: bv32, c: bv32) { u & m == 0 && w & m == 0 && u & c == w & c }

  lemma CleanedGap(u: bv32, w: bv32)
    requires w == u & 0xFFFF9FFF
    ensures Clean(w, 0x6000)
  {}

  lemma CleanedAlike(u: bv32, w: bv32)
    requires w == u & 0xFFFF9FFF && u & 0x1FFF == 0
    ensures Alike(u, w, 0x1FFF, 0xFFFF8000)
  {}

  lemma CleanedPrefix(u: bv32, w: bv32)
    requires w == u & 0xFFFF9FFF
    ensures SamePrefix(u, w, 0xFC000000)
  {}

  lemma NoGap(u: bv32)
    ensures Clean(u, 0)
  {}

  lemma CleanedMasks(u: bv32, w: bv32, t: nat, m: bv32, c: bv32, p: bv32, x: bv32, l: bv32)
    requires Masks(t, m, c, p, x, l) && u & m == 0 && w == Cleaned(u, t)
    ensures Alike(u, w, m, c)
    ensures Clean(w, x)
    ensures SamePrefix(u, w, p)
  {
    if t == 5 {
      CleanedGap(u, w);
      CleanedAlike(u, w);
      CleanedPrefix(u, w);
    } else {
      NoGap(w);
    }
  }

  lemma MaskNotZero(t: nat, m: bv32, c: bv32, p: bv32, x: bv32, l: bv32)
    requires Masks(t, m, c, p, x, l)
    ensures m != 0
  {}

  lemma UpFromZero(u: bv32, v: bv32, m: bv32, c: bv32)
    requires u & m == 0 && m != 0 && v == (u & c) | 1
    ensures UpWord(u, v, m, c)
  {}

  lemma SameStep(u: bv32, w: bv32, t: nat, m: bv32, c: bv32, p: bv32, x: bv32, l: bv32)
    requires Masks(t, m, c, p, x, l) && GetNetIdType(u) == t && GetNetIdType(w) == t && Alike(u, w, m, c)
    ensures IncrementSpec(u) == IncrementSpec(w)
  {
    var v := (u & c) | 1;
    MaskNotZero(t, m, c, p, x, l);
    UpFromZero(u, v, m, c);
    UpFromZero(w, v, m, c);
    IncrementStep(u, v, t, m, c, p, x, l);
    IncrementStep(w, v, t, m, c, p, x, l);
  }

  lemma CleanedStart(u: bv32, w: bv32, t: nat, m: bv32, c: bv32, p: bv32, x: bv32, l: bv32)
    requires Masks(t, m, c, p, x, l) && GetNetIdType(u) == t && u & m == 0 && w == Cleaned(u, t)
    ensures Holds(w, t, 0)
    ensures IncrementSpec(u) == IncrementSpec(w)
  {
    CleanedMasks(u, w, t, m, c, p, x, l);
    PrefixGivesType(u, w, t);
    SameStep(u, w, t, m, c, p, x, l);
  }

  /** From the first step on both words go the same way. */
  predicate Met(u: bv32, w: bv32, k: bv32) {
    k != 0 ==> After(u, k) == After(w, k)
  }

  lemma MetStep(u: bv32, w: bv32, j: bv32, k: bv32)
    requires IncrementSpec(u) == IncrementSpec(w) && k != 0 && j == k - 1 && Met(u, w, j)
    ensures Met(u, w, k)
  {
    AfterNext(u, j, k);
    AfterNext(w, j, k);
  }

  lemma MetEverywhere(u: bv32, w: bv32, n: bv32)
    requires IncrementSpec(u) == IncrementSpec(w)
    ensures Met(u, w, n)
  {
    forall k: bv32 | k != 0 && Met(u, w, k - 1) ensures Met(u, w, k) {
      MetStep(u, w, k - 1, k);
    }
    CountUp(k => Met(u, w, k), n);
  }

  /** `n` increments from address 0 of any word, `n` not 0, lead to the word without the wiped bits, plus `n`. */
  lemma Enumerate(u: bv32, t: nat, n: bv32)
    requires t < 8 && GetNetIdType(u) == t && u & AddrMask(t) == 0
    ensures n != 0 && Inside(n, AddrMask(t)) ==> Counted(u, t, n, Plus(Cleaned(u, t), n))
  {
    var w := Cleaned(u, t);
    CleanedStart(u, w, t, AddrMask(t), NwkAddrClear11(t), PrefixMask(t), Gap(t), NwkAddrLimit11(t));
    MetEverywhere(u, w, n);
    EnumerateClean(w, t, n);
  }
}
