/**
 The device address object (lorawan-types.cpp).  Its one field is the 32-bit word; every operation
 writes it in place and reports a code.
 */
module DeviceAddresses {
  import opened DevAddr
  import opened AddressSteps
  import opened NetworkBlocks

  /** Result code and word left by `set`; a failure keeps the fields already written. */
  function SetSpec(u: bv32, t: nat, id: bv32, addr: bv32): (int, bv32) {
    if t >= 8 then (ERR_CODE_TYPE_OUT_OF_RANGE, u)
    else if id >= NwkIdLimit11(t) then (ERR_CODE_NWK_OUT_OF_RANGE, SetNetIdTypeSpec(u, t))
    else SetNwkAddrSpec(SetNwkIdSpec11(SetNetIdTypeSpec(u, t), t, id), t, addr)
  }

  lemma AddrWritten(v: bv32, t: nat, addr: bv32)
    requires t < 8
    ensures addr < NwkAddrLimit11(t) ==> SetNwkAddrSpec(v, t, addr) == (CODE_OK, SetNwkAddrSpec11(v, t, addr))
    ensures !(addr < NwkAddrLimit11(t)) ==> SetNwkAddrSpec(v, t, addr) == (ERR_CODE_ADDR_OUT_OF_RANGE, v)
  {}

  lemma SetInRange(u: bv32, t: nat, id: bv32, addr: bv32)
    requires InRange11(t, id, addr)
    ensures SetSpec(u, t, id, addr) == (CODE_OK, SetSpec11(u, t, id, addr))
  {
    AddrWritten(SetNwkIdSpec11(SetNetIdTypeSpec(u, t), t, id), t, addr);
  }

  lemma SetOutOfRange(u: bv32, t: nat, id: bv32, addr: bv32)
    requires !InRange11(t, id, addr)
    ensures SetSpec(u, t, id, addr).0 != CODE_OK
  {
    if t < 8 { AddrWritten(SetNwkIdSpec11(SetNetIdTypeSpec(u, t), t, id), t, addr); }
  }

  /** A successful `set` leaves nothing of the old word, and it succeeds exactly on fields in range. */
  lemma SetDeterminesWord(u: bv32, t: nat, id: bv32, addr: bv32)
    ensures SetSpec(u, t, id, addr).0 == CODE_OK <==> InRange11(t, id, addr)
    ensures InRange11(t, id, addr) ==> SetSpec(u, t, id, addr) == (CODE_OK, Assembled(t, id, addr))
  {
    if InRange11(t, id, addr) {
      SetInRange(u, t, id, addr);
      SetDetermines(u, t, id, addr);
    } else {
      SetOutOfRange(u, t, id, addr);
    }
  }

  lemma MemberInRange(t: nat, id: bv32, addr: bv32)
    requires Member(t, id, addr)
    ensures InRange11(t, id, addr)
  {
    match t {
      case 0 => case 1 => case 2 => case 3 => case 4 => case 5 => case 6 => case _ =>
    }
  }

  /** A NetID: the type is the top three of its 24 bits. */
  datatype NetId = NetId(networkType: nat, bits: bv32)

  predicate ValidNetId(n: NetId) {
    n.networkType < 8 && n.bits < 0x200000
  }

  /** `NETID::getNwkId`. */
  function NwkId(n: NetId): bv32
    requires n.networkType < 8
  {
    n.bits & NwkIdMask(n.networkType)
  }

  lemma MaskBounds(b: bv32, t: nat)
    requires t < 8
    ensures b & NwkIdMask(t) <= NwkIdMask(t)
  {
    match t {
      case 0 => case 1 => case 2 => case 3 => case 4 => case 5 => case 6 => case _ =>
    }
  }

  /** A NetID yields addresses of its network only, from the first to the last. */
  lemma NwkIdMember(n: NetId)
    requires ValidNetId(n)
    ensures Member(n.networkType, NwkId(n), 0) && Member(n.networkType, NwkId(n), AddrMask(n.networkType))
  {
    MaskBounds(n.bits, n.networkType);
  }

  /** First and last address of the network of a NetID. */
  function FirstAddress(n: NetId): bv32
    requires ValidNetId(n)
  {
    Assembled(n.networkType, NwkId(n), 0)
  }

  function LastAddress(n: NetId): bv32
    requires ValidNetId(n)
  {
    Assembled(n.networkType, NwkId(n), AddrMask(n.networkType))
  }

  /** The low `k` bits. */
  function LowBits(a: bv32, k: bv6): bv32
    requires k <= 32
  {
    (a << (32 - k)) >> (32 - k)
  }

  /** The bits of a NetID that addresses show; on type 5 the two lowest are lost. */
  function ShownBits(t: nat, bits: bv32): bv32
    requires t < 8
  {
    match t {
      case 0 => LowBits(bits, 6)
      case 1 => LowBits(bits, 6)
      case 2 => LowBits(bits, 9)
      case 3 => LowBits(bits, 10)
      case 4 => LowBits(bits, 11)
      case 5 => LowBits(bits, 13) - LowBits(bits, 2)
      case 6 => LowBits(bits, 15)
      case _ => LowBits(bits, 17)
    }
  }

  predicate ShowsBits(t: nat, bits: bv32)
    requires t < 8
  {
    Visible(t, bits & NwkIdMask(t)) == ShownBits(t, bits)
  }

  predicate IsMask(bits: bv32, k: bv6, mask: bv32)
    requires k <= 32
  {
    LowBits(bits, k) == bits & mask
  }

  lemma LowBits2(bits: bv32) ensures IsMask(bits, 2, 3) {}
  lemma LowBits6(bits: bv32) ensures IsMask(bits, 6, 0x3F) {}
  lemma LowBits9(bits: bv32) ensures IsMask(bits, 9, 0x1FF) {}
  lemma LowBits10(bits: bv32) ensures IsMask(bits, 10, 0x3FF) {}
  lemma LowBits11(bits: bv32) ensures IsMask(bits, 11, 0x7FF) {}
  lemma LowBits13(bits: bv32) ensures IsMask(bits, 13, 0x1FFF) {}
  lemma LowBits15(bits: bv32) ensures IsMask(bits, 15, 0x7FFF) {}
  lemma LowBits17(bits: bv32) ensures IsMask(bits, 17, 0x1FFFF) {}

  lemma TwoBitsOff(bits: bv32)
    ensures (bits & 0x1FFF) - (bits & 3) == bits & 0x1FFF & 0x1FFC
  {}

  lemma ShowsBits0(bits: bv32)
    ensures ShowsBits(0, bits)
  {
    LowBits6(bits);
  }

  lemma ShowsBits1(bits: bv32)
    ensures ShowsBits(1, bits)
  {
    LowBits6(bits);
  }

  lemma ShowsBits2(bits: bv32)
    ensures ShowsBits(2, bits)
  {
    LowBits9(bits);
  }

  lemma ShowsBits3(bits: bv32)
    ensures ShowsBits(3, bits)
  {
    LowBits10(bits);
  }

  lemma ShowsBits4(bits: bv32)
    ensures ShowsBits(4, bits)
  {
    LowBits11(bits);
  }

  lemma ShowsBits5(bits: bv32)
    ensures ShowsBits(5, bits)
  {
    LowBits13(bits);
    LowBits2(bits);
    TwoBitsOff(bits);
  }

  lemma ShowsBits6(bits: bv32)
    ensures ShowsBits(6, bits)
  {
    LowBits15(bits);
  }

  lemma ShowsBits7(bits: bv32)
    ensures ShowsBits(7, bits)
  {
    LowBits17(bits);
  }

  lemma AllShowBits(t: nat, bits: bv32)
    requires t < 8
    ensures ShowsBits(t, bits)
  {
    match t {
      case 0 => ShowsBits0(bits);
      case 1 => ShowsBits1(bits);
      case 2 => ShowsBits2(bits);
      case 3 => ShowsBits3(bits);
      case 4 => ShowsBits4(bits);
      case 5 => ShowsBits5(bits);
      case 6 => ShowsBits6(bits);
      case _ => ShowsBits7(bits);
    }
  }

  lemma WordsTell(t: nat, id: bv32, a: bv32, x: bv32, w: bv32, s: nat, other: bv32, b: bv32, y: bv32, v: bv32)
    requires Member(t, id, a) && x == Visible(t, id) && w == Assembled(t, id, a)
    requires Member(s, other, b) && y == Visible(s, other) && v == Assembled(s, other, b)
    requires t == s ==> a == b
    ensures w == v <==> t == s && x == y
  {
    BlocksDisjoint(t, id, a, s, other, b);
  }

  lemma NumberShown(n: NetId)
    requires ValidNetId(n)
    ensures Visible(n.networkType, NwkId(n)) == ShownBits(n.networkType, n.bits)
  {
    AllShowBits(n.networkType, n.bits);
  }

  /**
   Two NetIDs have the same first address exactly when their types are the same and their bits agree in the
   identifier, as far as addresses show it.
   */
  lemma FirstAddressTells(n: NetId, m: NetId)
    requires ValidNetId(n) && ValidNetId(m)
    ensures FirstAddress(n) == FirstAddress(m)
       <==> n.networkType == m.networkType && ShownBits(n.networkType, n.bits) == ShownBits(m.networkType, m.bits)
  {
    NwkIdMember(n);
    NwkIdMember(m);
    NumberShown(n);
    NumberShown(m);
    WordsTell(n.networkType, NwkId(n), 0, ShownBits(n.networkType, n.bits), FirstAddress(n),
              m.networkType, NwkId(m), 0, ShownBits(m.networkType, m.bits), FirstAddress(m));
  }

  /** So do their last addresses. */
  lemma LastAddressTells(n: NetId, m: NetId)
    requires ValidNetId(n) && ValidNetId(m)
    ensures LastAddress(n) == LastAddress(m)
       <==> n.networkType == m.networkType && ShownBits(n.networkType, n.bits) == ShownBits(m.networkType, m.bits)
  {
    var t, s := n.networkType, m.networkType;
    NwkIdMember(n);
    NwkIdMember(m);
    NumberShown(n);
    NumberShown(m);
    WordsTell(t, NwkId(n), AddrMask(t), ShownBits(t, n.bits), LastAddress(n),
              s, NwkId(m), AddrMask(s), ShownBits(s, m.bits), LastAddress(m));
  }

  /**
   Walking from the first address of any NetID, size() increments lead to the last one, which is the
   first word plus size(), and the next increment fails there.
   */
  lemma NetworkWalk(n: NetId)
    requires ValidNetId(n)
    ensures After(FirstAddress(n), AddrMask(n.networkType)) == LastAddress(n)
    ensures LastAddress(n) == Plus(FirstAddress(n), AddrMask(n.networkType))
    ensures IncrementSpec(LastAddress(n)) == (ERR_CODE_ADDR_OUT_OF_RANGE, LastAddress(n))
  {
    NwkIdMember(n);
    Enumeration(n.networkType, NwkId(n), AddrMask(n.networkType));
    EnumerationEnds(n.networkType, NwkId(n), AddrMask(n.networkType));
  }

  /** Networks of types other than 5 whose type or identifier differ have no address in common. */
  lemma NetworksDisjoint(n: NetId, m: NetId, a: bv32, b: bv32)
    requires ValidNetId(n) && ValidNetId(m) && n.networkType != 5 && m.networkType != 5
    requires n.networkType != m.networkType || NwkId(n) != NwkId(m)
    requires Member(n.networkType, NwkId(n), a) && Member(m.networkType, NwkId(m), b)
    ensures Assembled(n.networkType, NwkId(n), a) != Assembled(m.networkType, NwkId(m), b)
  {
    BlocksDisjoint(n.networkType, NwkId(n), a, m.networkType, NwkId(m), b);
  }

  class DeviceAddress {
    var u: bv32

    constructor (word: bv32)
      ensures u == word
    {
      u := word;
    }

    method SetNetIdType(t: nat) returns (r: int)
      modifies this
      ensures r == (if t < 8 then CODE_OK else ERR_CODE_TYPE_OUT_OF_RANGE)
      ensures u == if t < 8 then SetNetIdTypeSpec(old(u), t) else old(u)
    {
      if t >= 8 { return ERR_CODE_TYPE_OUT_OF_RANGE; }
      u := SetNetIdTypeSpec(u, t);
      r := CODE_OK;
    }

    method SetNwkId(t: nat, value: bv32) returns (r: int)
      modifies this
      ensures r == (if t < 8 && value < NwkIdLimit11(t) then CODE_OK else ERR_CODE_NWK_OUT_OF_RANGE)
      ensures u == if r == CODE_OK then SetNwkIdSpec11(old(u), t, value) else old(u)
    {
      if t >= 8 || value >= NwkIdLimit11(t) { return ERR_CODE_NWK_OUT_OF_RANGE; }
      u := SetNwkIdSpec11(u, t, value);
      r := CODE_OK;
    }

    method SetNwkAddr(t: nat, value: bv32) returns (r: int)
      modifies this
      ensures (r, u) == SetNwkAddrSpec(old(u), t, value)
    {
      if t >= 8 || value >= NwkAddrLimit11(t) { return ERR_CODE_ADDR_OUT_OF_RANGE; }
      u := SetNwkAddrSpec11(u, t, value);
      r := CODE_OK;
    }

    method Set(t: nat, id: bv32, addr: bv32) returns (r: int)
      modifies this
      ensures (r, u) == SetSpec(old(u), t, id, addr)
    {
      r := SetNetIdType(t);
      if r != CODE_OK { return; }
      r := SetNwkId(t, id);
      if r != CODE_OK { return; }
      r := SetNwkAddr(t, addr);
    }

    method SetMinAddress(n: NetId) returns (r: int)
      requires ValidNetId(n)
      modifies this
      ensures r == CODE_OK && u == FirstAddress(n)
    {
      NwkIdMember(n);
      MemberInRange(n.networkType, NwkId(n), 0);
      SetDeterminesWord(u, n.networkType, NwkId(n), 0);
      r := Set(n.networkType, NwkId(n), 0);
    }

    method SetMaxAddress(n: NetId) returns (r: int)
      requires ValidNetId(n)
      modifies this
      ensures r == CODE_OK && u == LastAddress(n)
    {
      NwkIdMember(n);
      MemberInRange(n.networkType, NwkId(n), AddrMask(n.networkType));
      SetDeterminesWord(u, n.networkType, NwkId(n), AddrMask(n.networkType));
      r := Set(n.networkType, NwkId(n), AddrMask(n.networkType));
    }

    method SetAddr(value: bv32) returns (r: int)
      modifies this
      ensures (r, u) == SetAddrSpec(old(u), value)
    {
      var t := GetNetIdType(u);
      r := SetNwkAddr(t, value);
    }

    method Increment() returns (r: int)
      modifies this
      ensures (r, u) == IncrementSpec(old(u))
    {
      var a := GetNwkAddr11(u);
      r := SetAddr(a + 1);
    }

    method Decrement() returns (r: int)
      modifies this
      ensures (r, u) == DecrementSpec(old(u))
    {
      var a := GetNwkAddr11(u);
      r := SetAddr(a - 1);
    }

    /** Number of addresses above the first one; 0 for an invalid type. */
    method Size() returns (n: bv32)
      ensures GetNetIdType(u) < 8 ==> n == AddrMask(GetNetIdType(u))
      ensures GetNetIdType(u) == 8 ==> n == 0
    {
      var t := GetNetIdType(u);
      if t >= 8 { return 0; }
      n := (1 << DevAddrBits(t)) - 1;
      BitsOfMask(t);
    }
  }

  function DevAddrBits(t: nat): bv6
    requires t < 8
  {
    match t {
      case 0 => 25 case 1 => 24 case 2 => 20 case 3 => 17
      case 4 => 15 case 5 => 13 case 6 => 10 case _ => 7
    }
  }

  lemma BitsOfMask(t: nat)
    requires t < 8
    ensures (1 << DevAddrBits(t)) - 1 == AddrMask(t)
  {
    match t {
      case 0 => case 1 => case 2 => case 3 => case 4 => case 5 => case 6 => case _ =>
    }
  }
}
