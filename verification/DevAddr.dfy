/**
 Device addresses (lorawan-types.cpp): a 32-bit word split into a unary type prefix, a network
 identifier and a network address, after LoRaWAN Backend Interfaces 1.0, chapter 13.

 The program has two layouts, 1.0 and 1.1.  Each keeps its own setters, getters and limits, and so
 does the model.  The public operations use layout 1.1.
 */
module DevAddr {

  const CODE_OK := 0
  const ERR_CODE_TYPE_OUT_OF_RANGE := -5112
  const ERR_CODE_NWK_OUT_OF_RANGE := -5113
  const ERR_CODE_ADDR_OUT_OF_RANGE := -5114
  const INVALID_ID: bv32 := 0xFFFFFFFF

  // ---------- reading the fields ----------

  /** The stored bytes; byte 3 is the most significant. */
  function C0(u: bv32): bv32 { u & 0xFF }
  function C1(u: bv32): bv32 { (u >> 8) & 0xFF }
  function C2(u: bv32): bv32 { (u >> 16) & 0xFF }
  function C3(u: bv32): bv32 { u >> 24 }

  /** The type that the most significant byte spells: 0..7, or 8 for an invalid address. */
  function TypeOfByte(p: bv32): (t: nat)
    ensures t <= 8
  {
    if p == 0xFE then 7
    else if p >> 1 == 0x7E then 6
    else if p >> 2 == 0x3E then 5
    else if p >> 3 == 0x1E then 4
    else if p >> 4 == 0x0E then 3
    else if p >> 5 == 6 then 2
    else if p >> 6 == 2 then 1
    else if p >> 7 == 0 then 0
    else 8
  }

  function GetNetIdType(u: bv32): (t: nat)
    ensures t <= 8
  {
    TypeOfByte(C3(u))
  }

  // The fields of a word, read as those of type `t`.

  function IdBits10(u: bv32, t: nat): bv32 {
    match t {
      case 0 => (C3(u) & 0x7F) >> 1
      case 1 => C3(u) & 0x3F
      case 2 => ((C3(u) & 0x1F) << 4) | (C2(u) >> 4)
      case 3 => ((C3(u) & 0x0F) << 6) | (C2(u) >> 2)
      case 4 => ((C3(u) & 7) << 8) | C2(u)
      case 5 => ((C3(u) & 3) << 11) | (C2(u) << 3) | (C1(u) >> 5)
      case 6 => ((C3(u) & 1) << 14) | (C2(u) << 6) | (C1(u) >> 2)
      case 7 => (C2(u) << 9) | (C1(u) << 1) | (C0(u) >> 7)
      case _ => INVALID_ID
    }
  }

  function GetNwkId10(u: bv32): bv32 { IdBits10(u, GetNetIdType(u)) }

  /** For type 4 the low bit is taken from byte 0, as the program does. */
  function IdBits11(u: bv32, t: nat): bv32 {
    match t {
      case 0 => (C3(u) & 0x7F) >> 1
      case 1 => C3(u) & 0x3F
      case 2 => ((C3(u) & 0x1F) << 4) | (C2(u) >> 4)
      case 3 => ((C3(u) & 0x0F) << 7) | (C2(u) >> 1)
      case 4 => ((C3(u) & 7) << 9) | (C2(u) << 1) | (C0(u) >> 7)
      case 5 => ((C3(u) & 3) << 11) | (C2(u) << 3) | (C1(u) >> 5)
      case 6 => ((C3(u) & 1) << 14) | (C2(u) << 6) | (C1(u) >> 2)
      case 7 => (C2(u) << 9) | (C1(u) << 1) | (C0(u) >> 7)
      case _ => INVALID_ID
    }
  }

  function GetNwkId11(u: bv32): bv32 { IdBits11(u, GetNetIdType(u)) }

  function AddrBits10(u: bv32, t: nat): bv32 {
    match t {
      case 0 => ((C3(u) & 1) << 24) | (C2(u) << 16) | (C1(u) << 8) | C0(u)
      case 1 => (C2(u) << 16) | (C1(u) << 8) | C0(u)
      case 2 => ((C2(u) & 0x0F) << 16) | (C1(u) << 8) | C0(u)
      case 3 => ((C2(u) & 3) << 16) | (C1(u) << 8) | C0(u)
      case 4 => (C1(u) << 8) | C0(u)
      case 5 => ((C1(u) & 0x1F) << 8) | C0(u)
      case 6 => ((C1(u) & 3) << 8) | C0(u)
      case 7 => C0(u) & 0x7F
      case _ => INVALID_ID
    }
  }

  function GetNwkAddr10(u: bv32): bv32 { AddrBits10(u, GetNetIdType(u)) }

  function AddrBits11(u: bv32, t: nat): bv32 {
    match t {
      case 0 => ((C3(u) & 1) << 24) | (C2(u) << 16) | (C1(u) << 8) | C0(u)
      case 1 => (C2(u) << 16) | (C1(u) << 8) | C0(u)
      case 2 => ((C2(u) & 0x0F) << 16) | (C1(u) << 8) | C0(u)
      case 3 => ((C2(u) & 1) << 16) | (C1(u) << 8) | C0(u)
      case 4 => ((C1(u) & 0x7F) << 8) | C0(u)
      case 5 => ((C1(u) & 0x1F) << 8) | C0(u)
      case 6 => ((C1(u) & 3) << 8) | C0(u)
      case 7 => C0(u) & 0x7F
      case _ => INVALID_ID
    }
  }

  function GetNwkAddr11(u: bv32): bv32 { AddrBits11(u, GetNetIdType(u)) }

  // ---------- writing the fields ----------

  /** The type prefix is written into byte 3 only. */
  function SetNetIdTypeSpec(u: bv32, t: nat): bv32
    requires t < 8
  {
    match t {
      case 0 => u & 0x7FFFFFFF
      case 1 => (u & 0x3FFFFFFF) | 0x80000000
      case 2 => (u & 0x1FFFFFFF) | 0xC0000000
      case 3 => (u & 0x0FFFFFFF) | 0xE0000000
      case 4 => (u & 0x07FFFFFF) | 0xF0000000
      case 5 => (u & 0x03FFFFFF) | 0xF8000000
      case 6 => (u & 0x01FFFFFF) | 0xFC000000
      case _ => (u & 0x00FFFFFF) | 0xFE000000
    }
  }

  /** First value too large for the network identifier field. */
  function NwkIdLimit10(t: nat): bv32
    requires t < 8
  {
    match t {
      case 0 => 0x40 case 1 => 0x40 case 2 => 0x200 case 3 => 0x400
      case 4 => 0x800 case 5 => 0x2000 case 6 => 0x8000 case _ => 0x20000
    }
  }

  function NwkIdLimit11(t: nat): bv32
    requires t < 8
  {
    match t {
      case 0 => 0x40 case 1 => 0x40 case 2 => 0x200 case 3 => 0x800
      case 4 => 0x1000 case 5 => 0x2000 case 6 => 0x8000 case _ => 0x20000
    }
  }

  function SetNwkIdSpec10(u: bv32, t: nat, value: bv32): bv32
    requires t < 8
  {
    match t {
      case 0 => (u & 0x81FFFFFF) | (value << 25)
      case 1 => (u & 0xC0FFFFFF) | (value << 24)
      case 2 => (u & 0xE00FFFFF) | (value << 20)
      case 3 => (u & 0xF003FFFF) | (value << 18)
      case 4 => (u & 0xF800FFFF) | (value << 16)
      case 5 => (u & 0xFC007FFF) | (value << 13)
      case 6 => (u & 0xFE0003FF) | (value << 10)
      case _ => (u & 0xFF00007F) | (value << 7)
    }
  }

  function SetNwkIdSpec11(u: bv32, t: nat, value: bv32): bv32
    requires t < 8
  {
    match t {
      case 0 => (u & 0x81FFFFFF) | (value << 25)
      case 1 => (u & 0xC0FFFFFF) | (value << 24)
      case 2 => (u & 0xE00FFFFF) | (value << 20)
      case 3 => (u & 0xF001FFFF) | (value << 18)
      case 4 => (u & 0xF8007FFF) | (value << 16)
      case 5 => (u & 0xFC007FFF) | (value << 13)
      case 6 => (u & 0xFE0003FF) | (value << 10)
      case _ => (u & 0xFF00007F) | (value << 7)
    }
  }

  /** First value too large for the network address field. */
  function NwkAddrLimit10(t: nat): bv32
    requires t < 8
  {
    match t {
      case 0 => 0x2000000 case 1 => 0x1000000 case 2 => 0x100000 case 3 => 0x40000
      case 4 => 0x10000 case 5 => 0x2000 case 6 => 0x400 case _ => 0x80
    }
  }

  function NwkAddrLimit11(t: nat): bv32
    requires t < 8
  {
    match t {
      case 0 => 0x2000000 case 1 => 0x1000000 case 2 => 0x100000 case 3 => 0x20000
      case 4 => 0x8000 case 5 => 0x2000 case 6 => 0x400 case _ => 0x80
    }
  }

  /** The masks with which the address setters clear the old address. */
  function NwkAddrClear10(t: nat): bv32
    requires t < 8
  {
    match t {
      case 0 => 0xFE000000 case 1 => 0xFF000000 case 2 => 0xFFF00000 case 3 => 0xFFFC0000
      case 4 => 0xFFFF0000 case 5 => 0xFFFF8000 case 6 => 0xFFFFFC00 case _ => 0xFFFFFF80
    }
  }

  function NwkAddrClear11(t: nat): bv32
    requires t < 8
  {
    match t {
      case 0 => 0xFE000000 case 1 => 0xFF000000 case 2 => 0xFFF00000 case 3 => 0xFFFE0000
      case 4 => 0xFFFF8000 case 5 => 0xFFFF8000 case 6 => 0xFFFFFC00 case _ => 0xFFFFFF80
    }
  }

  function SetNwkAddrSpec10(u: bv32, t: nat, value: bv32): bv32
    requires t < 8
  {
    (u & NwkAddrClear10(t)) | value
  }

  function SetNwkAddrSpec11(u: bv32, t: nat, value: bv32): bv32
    requires t < 8
  {
    (u & NwkAddrClear11(t)) | value
  }

  /** The word left by setting type, network identifier and network address on a word holding `u`. */
  function SetSpec10(u: bv32, t: nat, id: bv32, addr: bv32): bv32
    requires t < 8
  {
    SetNwkAddrSpec10(SetNwkIdSpec10(SetNetIdTypeSpec(u, t), t, id), t, addr)
  }

  function SetSpec11(u: bv32, t: nat, id: bv32, addr: bv32): bv32
    requires t < 8
  {
    SetNwkAddrSpec11(SetNwkIdSpec11(SetNetIdTypeSpec(u, t), t, id), t, addr)
  }

  // ---------- the word that is built ----------

  /** Type prefix, then the identifier at its place, then the address. */
  function Assembled(t: nat, id: bv32, addr: bv32): bv32
    requires t < 8
  {
    match t {
      case 0 => (id << 25) | addr
      case 1 => 0x80000000 | (id << 24) | addr
      case 2 => 0xC0000000 | (id << 20) | addr
      case 3 => 0xE0000000 | (id << 18) | addr
      case 4 => 0xF0000000 | (id << 16) | addr
      case 5 => 0xF8000000 | ((id << 13) & 0xFFFF8000) | addr
      case 6 => 0xFC000000 | (id << 10) | addr
      case _ => 0xFE000000 | (id << 7) | addr
    }
  }

  predicate InRange10(t: nat, id: bv32, addr: bv32) {
    t < 8 && id < NwkIdLimit10(t) && addr < NwkAddrLimit10(t)
  }

  predicate InRange11(t: nat, id: bv32, addr: bv32) {
    t < 8 && id < NwkIdLimit11(t) && addr < NwkAddrLimit11(t)
  }

  /** Setting all three fields determines every bit, whatever the word held before. */
  predicate Determined10(u: bv32, t: nat, id: bv32, addr: bv32) {
    InRange10(t, id, addr) ==> SetSpec10(u, t, id, addr) == Assembled(t, id, addr)
  }

  predicate Determined11(u: bv32, t: nat, id: bv32, addr: bv32) {
    InRange11(t, id, addr) ==> SetSpec11(u, t, id, addr) == Assembled(t, id, addr)
  }

  // One lemma per type: with the type fixed every statement is about masks and shifts alone.

  lemma Set10Type0(u: bv32, id: bv32, addr: bv32) ensures Determined10(u, 0, id, addr) {}
  lemma Set11Type0(u: bv32, id: bv32, addr: bv32) ensures Determined11(u, 0, id, addr) {}
  lemma Set10Type1(u: bv32, id: bv32, addr: bv32) ensures Determined10(u, 1, id, addr) {}
  lemma Set11Type1(u: bv32, id: bv32, addr: bv32) ensures Determined11(u, 1, id, addr) {}
  lemma Set10Type2(u: bv32, id: bv32, addr: bv32) ensures Determined10(u, 2, id, addr) {}
  lemma Set11Type2(u: bv32, id: bv32, addr: bv32) ensures Determined11(u, 2, id, addr) {}
  lemma Set10Type3(u: bv32, id: bv32, addr: bv32) ensures Determined10(u, 3, id, addr) {}
  lemma Set11Type3(u: bv32, id: bv32, addr: bv32) ensures Determined11(u, 3, id, addr) {}
  lemma Set10Type4(u: bv32, id: bv32, addr: bv32) ensures Determined10(u, 4, id, addr) {}
  lemma Set11Type4(u: bv32, id: bv32, addr: bv32) ensures Determined11(u, 4, id, addr) {}
  lemma Set10Type5(u: bv32, id: bv32, addr: bv32) ensures Determined10(u, 5, id, addr) {}
  lemma Set11Type5(u: bv32, id: bv32, addr: bv32) ensures Determined11(u, 5, id, addr) {}
  lemma Set10Type6(u: bv32, id: bv32, addr: bv32) ensures Determined10(u, 6, id, addr) {}
  lemma Set11Type6(u: bv32, id: bv32, addr: bv32) ensures Determined11(u, 6, id, addr) {}
  lemma Set10Type7(u: bv32, id: bv32, addr: bv32) ensures Determined10(u, 7, id, addr) {}
  lemma Set11Type7(u: bv32, id: bv32, addr: bv32) ensures Determined11(u, 7, id, addr) {}

  lemma SetDetermines(u: bv32, t: nat, id: bv32, addr: bv32)
    requires t < 8
    ensures Determined10(u, t, id, addr) && Determined11(u, t, id, addr)
  {
    match t {
      case 0 => Set10Type0(u, id, addr); Set11Type0(u, id, addr);
      case 1 => Set10Type1(u, id, addr); Set11Type1(u, id, addr);
      case 2 => Set10Type2(u, id, addr); Set11Type2(u, id, addr);
      case 3 => Set10Type3(u, id, addr); Set11Type3(u, id, addr);
      case 4 => Set10Type4(u, id, addr); Set11Type4(u, id, addr);
      case 5 => Set10Type5(u, id, addr); Set11Type5(u, id, addr);
      case 6 => Set10Type6(u, id, addr); Set11Type6(u, id, addr);
      case _ => Set10Type7(u, id, addr); Set11Type7(u, id, addr);
    }
  }

  // ---------- the type is a prefix, the address is a suffix ----------

  function AddrMask(t: nat): bv32
    requires t < 8
  {
    match t {
      case 0 => 0x1FFFFFF case 1 => 0xFFFFFF case 2 => 0xFFFFF case 3 => 0x1FFFF
      case 4 => 0x7FFF case 5 => 0x1FFF case 6 => 0x3FF case _ => 0x7F
    }
  }

  function PrefixMask(t: nat): bv32
    requires t < 8
  {
    match t {
      case 0 => 0x80000000 case 1 => 0xC0000000 case 2 => 0xE0000000 case 3 => 0xF0000000
      case 4 => 0xF8000000 case 5 => 0xFC000000 case 6 => 0xFE000000 case _ => 0xFF000000
    }
  }

  function PrefixValue(t: nat): bv32
    requires t < 8
  {
    match t {
      case 0 => 0x0 case 1 => 0x80000000 case 2 => 0xC0000000 case 3 => 0xE0000000
      case 4 => 0xF0000000 case 5 => 0xF8000000 case 6 => 0xFC000000 case _ => 0xFE000000
    }
  }

  predicate HasType(u: bv32, t: nat) {
    t < 8 && u & PrefixMask(t) == PrefixValue(t)
  }

  // A byte spells a type exactly when its leading bits are the type's prefix.

  lemma ByteSpells0(p: bv32)
    requires p < 0x100
    ensures TypeOfByte(p) == 0 <==> p & 0x80 == 0x0
  {}

  lemma ByteSpells1(p: bv32)
    requires p < 0x100
    ensures TypeOfByte(p) == 1 <==> p & 0xC0 == 0x80
  {}

  lemma ByteSpells2(p: bv32)
    requires p < 0x100
    ensures TypeOfByte(p) == 2 <==> p & 0xE0 == 0xC0
  {}

  lemma ByteSpells3(p: bv32)
    requires p < 0x100
    ensures TypeOfByte(p) == 3 <==> p & 0xF0 == 0xE0
  {}

  lemma ByteSpells4(p: bv32)
    requires p < 0x100
    ensures TypeOfByte(p) == 4 <==> p & 0xF8 == 0xF0
  {}

  lemma ByteSpells5(p: bv32)
    requires p < 0x100
    ensures TypeOfByte(p) == 5 <==> p & 0xFC == 0xF8
  {}

  lemma ByteSpells6(p: bv32)
    requires p < 0x100
    ensures TypeOfByte(p) == 6 <==> p & 0xFE == 0xFC
  {}

  lemma ByteSpells7(p: bv32)
    requires p < 0x100
    ensures TypeOfByte(p) == 7 <==> p & 0xFF == 0xFE
  {}

  /** The type is a prefix of the word. */
  predicate PrefixTells(u: bv32, t: nat) {
    GetNetIdType(u) == t <==> HasType(u, t)
  }

  lemma TopByte0(u: bv32)
    ensures u >> 24 < 0x100
    ensures (u >> 24) & 0x80 == 0x0 <==> u & 0x80000000 == 0x0
  {}

  lemma TopByte1(u: bv32)
    ensures u >> 24 < 0x100
    ensures (u >> 24) & 0xC0 == 0x80 <==> u & 0xC0000000 == 0x80000000
  {}

  lemma TopByte2(u: bv32)
    ensures u >> 24 < 0x100
    ensures (u >> 24) & 0xE0 == 0xC0 <==> u & 0xE0000000 == 0xC0000000
  {}

  lemma TopByte3(u: bv32)
    ensures u >> 24 < 0x100
    ensures (u >> 24) & 0xF0 == 0xE0 <==> u & 0xF0000000 == 0xE0000000
  {}

  lemma TopByte4(u: bv32)
    ensures u >> 24 < 0x100
    ensures (u >> 24) & 0xF8 == 0xF0 <==> u & 0xF8000000 == 0xF0000000
  {}

  lemma TopByte5(u: bv32)
    ensures u >> 24 < 0x100
    ensures (u >> 24) & 0xFC == 0xF8 <==> u & 0xFC000000 == 0xF8000000
  {}

  lemma TopByte6(u: bv32)
    ensures u >> 24 < 0x100
    ensures (u >> 24) & 0xFE == 0xFC <==> u & 0xFE000000 == 0xFC000000
  {}

  lemma TopByte7(u: bv32)
    ensures u >> 24 < 0x100
    ensures (u >> 24) & 0xFF == 0xFE <==> u & 0xFF000000 == 0xFE000000
  {}

  lemma PrefixTells0(u: bv32)
    ensures PrefixTells(u, 0)
  {
    TopByte0(u);
    ByteSpells0(u >> 24);
  }

  lemma PrefixTells1(u: bv32)
    ensures PrefixTells(u, 1)
  {
    TopByte1(u);
    ByteSpells1(u >> 24);
  }

  lemma PrefixTells2(u: bv32)
    ensures PrefixTells(u, 2)
  {
    TopByte2(u);
    ByteSpells2(u >> 24);
  }

  lemma PrefixTells3(u: bv32)
    ensures PrefixTells(u, 3)
  {
    TopByte3(u);
    ByteSpells3(u >> 24);
  }

  lemma PrefixTells4(u: bv32)
    ensures PrefixTells(u, 4)
  {
    TopByte4(u);
    ByteSpells4(u >> 24);
  }

  lemma PrefixTells5(u: bv32)
    ensures PrefixTells(u, 5)
  {
    TopByte5(u);
    ByteSpells5(u >> 24);
  }

  lemma PrefixTells6(u: bv32)
    ensures PrefixTells(u, 6)
  {
    TopByte6(u);
    ByteSpells6(u >> 24);
  }

  lemma PrefixTells7(u: bv32)
    ensures PrefixTells(u, 7)
  {
    TopByte7(u);
    ByteSpells7(u >> 24);
  }

  lemma TypeIsPrefix(u: bv32, t: nat)
    requires t < 8
    ensures PrefixTells(u, t)
  {
    match t {
      case 0 => PrefixTells0(u);
      case 1 => PrefixTells1(u);
      case 2 => PrefixTells2(u);
      case 3 => PrefixTells3(u);
      case 4 => PrefixTells4(u);
      case 5 => PrefixTells5(u);
      case 6 => PrefixTells6(u);
      case _ => PrefixTells7(u);
    }
  }

  lemma SetTypeTells(u: bv32, t: nat)
    requires t < 8
    ensures HasType(SetNetIdTypeSpec(u, t), t)
  {
    match t {
      case 0 => case 1 => case 2 => case 3 => case 4 => case 5 => case 6 => case _ =>
    }
  }

  predicate IsSuffix(u: bv32, t: nat)
    requires t < 8
  {
    AddrBits11(u, t) == u & AddrMask(t)
  }

  lemma AddrSuffix0(u: bv32)
    ensures IsSuffix(u, 0)
  {}

  lemma AddrSuffix1(u: bv32)
    ensures IsSuffix(u, 1)
  {}

  lemma AddrSuffix2(u: bv32)
    ensures IsSuffix(u, 2)
  {}

  lemma AddrSuffix3(u: bv32)
    ensures IsSuffix(u, 3)
  {}

  lemma AddrSuffix4(u: bv32)
    ensures IsSuffix(u, 4)
  {}

  lemma AddrSuffix5(u: bv32)
    ensures IsSuffix(u, 5)
  {}

  lemma AddrSuffix6(u: bv32)
    ensures IsSuffix(u, 6)
  {}

  lemma AddrSuffix7(u: bv32)
    ensures IsSuffix(u, 7)
  {}

  lemma AddrIsSuffix(u: bv32, t: nat)
    requires t < 8
    ensures IsSuffix(u, t)
  {
    match t {
      case 0 => AddrSuffix0(u);
      case 1 => AddrSuffix1(u);
      case 2 => AddrSuffix2(u);
      case 3 => AddrSuffix3(u);
      case 4 => AddrSuffix4(u);
      case 5 => AddrSuffix5(u);
      case 6 => AddrSuffix6(u);
      case _ => AddrSuffix7(u);
    }
  }
}
