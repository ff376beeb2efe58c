/**
 The received frame in memory (lorawan-packet-storage.cpp, lorawan-packet-storage.h): 263 bytes of
 packed frame followed by the payload size, a 32-bit integer.  Loading a buffer, the accessors, and
 `decode`.
 */
module MessageStorage {
  import opened Bytes
  import opened PayloadCipher

  const FRAME_SIZE := 263
  const STORAGE_SIZE := 267

  type Raw = r: seq<Byte> | |r| == STORAGE_SIZE
    witness seq(STORAGE_SIZE, _ => 0)

  // ---------- fields ----------

  function Mtype(r: Raw): nat { r[0] / 32 }

  predicate IsUplink(r: Raw) { Mtype(r) == 2 || Mtype(r) == 4 }

  predicate IsDownlink(r: Raw) { Mtype(r) == 3 || Mtype(r) == 5 }

  predicate IsData(r: Raw) { IsUplink(r) || IsDownlink(r) }

  function FoptsLen(r: Raw): (n: nat)
    ensures n <= 15
  {
    r[5] % 16
  }

  function Fcnt(r: Raw): nat { Le16(r[6], r[7]) }

  function Fopts(r: Raw): seq<Byte> { r[8..8 + FoptsLen(r)] }

  function Fport(r: Raw): Byte { r[8 + FoptsLen(r)] }

  function PayloadStart(r: Raw): nat { 8 + FoptsLen(r) + 1 }

  /** The signed 32-bit number in the last four bytes. */
  function PayloadSize(r: Raw): int {
    var u := Le16(r[263], r[264]) + 65536 * Le16(r[265], r[266]);
    if u < 0x80000000 then u else u - 0x1_0000_0000
  }

  /** Negative sizes are those with the top bit set. */
  lemma SizeIsSigned(r: Raw)
    ensures PayloadSize(r) < 0 <==> r[266] >= 128
    ensures PayloadSize(r) >= -0x8000_0000
    ensures r[263..] == [255, 255, 255, 255] ==> PayloadSize(r) == -1
  {
    if r[263..] == [255, 255, 255, 255] {
      assert r[263] == r[263..][0] && r[264] == r[263..][1] && r[265] == r[263..][2] && r[266] == r[263..][3];
    }
  }

  function WithPayloadSize(r: Raw, n: nat): Raw {
    r[..263] + [n % 256, n / 256 % 256, n / 65536 % 256, n / 16777216 % 256]
  }

  // ---------- loading ----------

  /** The size that `setSize` derives for a data frame of `size` bytes with `f` bytes of FOpts. */
  function DerivedSize(size: nat, f: nat): (n: nat)
    ensures n < 0x8000_0000
  {
    var d := ToInt32(size - 1 - 7 - f - 4);
    if d > 1 then d - 1 else if d < 0 then 0 else d
  }

  lemma SmallDerivedSize(size: nat, f: nat)
    requires size <= 265 && f <= 15
    ensures DerivedSize(size, f) == if size > f + 13 then size - f - 13 else if size == f + 13 then 1 else 0
  {}

  function Clamp(n: nat): (m: nat)
    ensures m <= 265
  {
    if n > STORAGE_SIZE - 2 then STORAGE_SIZE - 2 else n
  }

  /** The storage after the bytes were copied, before the size is set. */
  function Copied(r: Raw, buffer: seq<Byte>): Raw {
    buffer[..Clamp(|buffer|)] + r[Clamp(|buffer|)..]
  }

  /** Only data frames get a size. */
  function Resized(r: Raw, size: nat): Raw {
    if IsData(r) then WithPayloadSize(r, DerivedSize(size, FoptsLen(r))) else r
  }

  function Loaded(r: Raw, buffer: seq<Byte>): Raw {
    Resized(Copied(r, buffer), Clamp(|buffer|))
  }

  /** The payload of a data frame lies inside the packed frame. */
  predicate Sound(r: Raw) {
    IsData(r) ==> PayloadStart(r) + PayloadSize(r) <= FRAME_SIZE
  }

  /** The payload of a data frame lies inside the storage. */
  predicate InStorage(r: Raw) {
    IsData(r) ==> PayloadStart(r) + PayloadSize(r) <= STORAGE_SIZE
  }

  lemma LoadedIsSound(r: Raw, buffer: seq<Byte>)
    ensures Sound(Loaded(r, buffer))
  {
    var c := Copied(r, buffer);
    if IsData(c) {
      SmallDerivedSize(Clamp(|buffer|), FoptsLen(c));
      SizeIsRead(c, DerivedSize(Clamp(|buffer|), FoptsLen(c)));
    }
  }

  lemma SizeIsRead(r: Raw, n: nat)
    requires n < 0x8000_0000
    ensures PayloadSize(WithPayloadSize(r, n)) == n
    ensures WithPayloadSize(r, n)[..263] == r[..263]
    ensures Mtype(WithPayloadSize(r, n)) == Mtype(r) && FoptsLen(WithPayloadSize(r, n)) == FoptsLen(r)
  {
    var w := WithPayloadSize(r, n);
    FourBytes(n);
    assert w[263] == n % 256 && w[264] == n / 256 % 256 && w[265] == n / 65536 % 256 && w[266] == n / 16777216 % 256;
  }

  lemma FourBytes(n: nat)
    requires n < 0x8000_0000
    ensures Le16(n % 256, n / 256 % 256) + 65536 * Le16(n / 65536 % 256, n / 16777216 % 256) == n
  {
    var a := n / 256;
    var b := a / 256;
    var c := b / 256;
    ByteUp(n, a, b);
    ByteUp(n / 256, b, c);
    TopByte(n, c);
    assert n == 256 * a + n % 256 && a == 256 * b + a % 256 && b == 256 * c + b % 256;
  }

  lemma ByteUp(n: nat, a: nat, b: nat)
    requires a == n / 256 && b == a / 256
    ensures n / 65536 == b
  {}

  lemma TopByte(n: nat, c: nat)
    requires c == n / 256 / 256 / 256 && n < 0x8000_0000
    ensures n / 16777216 == c < 256
  {}

  // ---------- the split ----------

  /** The pieces the accessors name, then a tail of four bytes. */
  function Pieces(r: Raw, tail: seq<Byte>): seq<Byte>
    requires 0 <= PayloadSize(r) && PayloadStart(r) + PayloadSize(r) <= FRAME_SIZE
  {
    r[..8] + Fopts(r) + [Fport(r)] + r[PayloadStart(r)..PayloadStart(r) + PayloadSize(r)] + tail
  }

  /** What of a buffer is stored. */
  function Cut(buffer: seq<Byte>): (c: seq<Byte>)
    ensures |c| == if |buffer| < 265 then |buffer| else 265
  {
    buffer[..Clamp(|buffer|)]
  }

  lemma LoadedFrame(r: Raw, buffer: seq<Byte>)
    requires IsData(Copied(r, buffer))
    ensures var l, f, n := Loaded(r, buffer), FoptsLen(Copied(r, buffer)), |Cut(buffer)|;
            && IsData(l) && FoptsLen(l) == f && PayloadSize(l) == DerivedSize(n, f)
            && forall i :: 0 <= i < n && i < FRAME_SIZE ==> l[i] == buffer[i]
  {
    var c := Copied(r, buffer);
    var n := DerivedSize(Clamp(|buffer|), FoptsLen(c));
    SizeIsRead(c, n);
    forall i | 0 <= i < |Cut(buffer)| && i < FRAME_SIZE ensures WithPayloadSize(c, n)[i] == buffer[i] {
      assert WithPayloadSize(c, n)[..263][i] == c[..263][i];
    }
  }

  /**
   Whatever is loaded, a data frame is exactly header, FOpts, FPort, payload and a tail of four bytes if
   and only if it has at least one byte of payload.
   */
  lemma SplitExact(r: Raw, buffer: seq<Byte>)
    requires IsData(Copied(r, buffer))
    ensures var l, c, f := Loaded(r, buffer), Cut(buffer), FoptsLen(Copied(r, buffer));
            && IsData(l) && FoptsLen(l) == f && Sound(l) && 0 <= PayloadSize(l)
            && (|c| >= 14 + f <==> |c| >= 4 && c == Pieces(l, c[|c| - 4..]))
  {
    var l, c, f := Loaded(r, buffer), Cut(buffer), FoptsLen(Copied(r, buffer));
    var n := |c|;
    LoadedIsSound(r, buffer);
    LoadedFrame(r, buffer);
    SmallDerivedSize(n, f);
    if n >= 14 + f {
      PiecesJoin(l, c, f);
    } else if n >= 4 {
      assert |Pieces(l, c[n - 4..])| == 9 + f + PayloadSize(l) + 4;
    }
  }

  /** The size of a frame with a payload is stored in the first of the four size bytes. */
  lemma SizeInFirstByte(r: Raw, buffer: seq<Byte>)
    requires IsData(Copied(r, buffer)) && |Cut(buffer)| >= 14 + Copied(r, buffer)[5] % 16
    ensures Loaded(r, buffer)[FRAME_SIZE..] == [|Cut(buffer)| - 13 - Copied(r, buffer)[5] % 16, 0, 0, 0]
  {
    SmallDerivedSize(|Cut(buffer)|, Copied(r, buffer)[5] % 16);
  }

  lemma PiecesJoin(l: Raw, c: seq<Byte>, f: nat)
    requires 14 + f <= |c| <= 265 && f == FoptsLen(l) && PayloadSize(l) == |c| - 13 - f
    requires forall i :: 0 <= i < |c| && i < FRAME_SIZE ==> l[i] == c[i]
    ensures PayloadStart(l) + PayloadSize(l) <= FRAME_SIZE && c == Pieces(l, c[|c| - 4..])
  {
    var n := |c|;
    assert l[..n - 4] == c[..n - 4];
    FourPieces(l, f, n - 4);
    assert c == c[..n - 4] + c[n - 4..];
  }

  lemma FourPieces(l: Raw, f: nat, n: nat)
    requires 9 + f <= n <= |l|
    ensures l[..8] + l[8..8 + f] + [l[8 + f]] + l[9 + f..n] == l[..n]
  {
    assert l[..8] + l[8..8 + f] == l[..8 + f];
    assert l[..8 + f] + [l[8 + f]] == l[..9 + f];
  }

  // ---------- decoding ----------

  function SessionOf(r: Raw, aes: Block -> Block, addr: Addr): Session {
    Session(aes, if IsUplink(r) then 0 else 1, addr, Fcnt(r))
  }

  predicate Deciphers(r: Raw) {
    PayloadSize(r) > 0 && IsData(r)
  }

  function Decoded(r: Raw, aes: Block -> Block, addr: Addr): (d: Raw)
    requires InStorage(r)
  {
    if Deciphers(r) then Encrypted(SessionOf(r, aes, addr), r, PayloadStart(r), PayloadSize(r)) else r
  }

  /** A loaded frame is decoded exactly if it is a data frame of at least 13 bytes and its FOpts. */
  lemma DecodesIff(r: Raw, buffer: seq<Byte>)
    ensures Deciphers(Loaded(r, buffer))
       <==> IsData(Loaded(r, buffer)) && (IsData(Copied(r, buffer)) ==> |Cut(buffer)| >= 13 + Copied(r, buffer)[5] % 16)
  {
    var c := Copied(r, buffer);
    if IsData(c) {
      LoadedFrame(r, buffer);
      SmallDerivedSize(|Cut(buffer)|, c[5] % 16);
    }
  }

  /** Decoding changes payload bytes only: header, FOpts, FPort, tail and the stored size stay. */
  lemma DecodeTouchesPayloadOnly(r: Raw, aes: Block -> Block, addr: Addr, j: nat)
    requires Sound(r) && j < STORAGE_SIZE
    ensures Deciphers(r) && PayloadStart(r) <= j < PayloadStart(r) + PayloadSize(r) ==>
              Decoded(r, aes, addr)[j] == Xor(r[j], KeyByte(SessionOf(r, aes, addr), j - PayloadStart(r)))
    ensures !(Deciphers(r) && PayloadStart(r) <= j < PayloadStart(r) + PayloadSize(r)) ==>
              Decoded(r, aes, addr)[j] == r[j]
  {
    if Deciphers(r) { CounterMode(SessionOf(r, aes, addr), r, PayloadStart(r), PayloadSize(r), j); }
  }

  /** The block for keystream block `i` of a frame: its counter bytes are those of the frame. */
  predicate IsFrameBlock(a: Block, r: Raw, addr: Addr, i: nat) {
    && a[..5] == [1, 0, 0, 0, 0] && a[6..10] == addr && a[10] == r[6] && a[11] == r[7]
    && a[12..15] == [0, 0, 0] && a[15] == i % 256
    && (r[0] / 32 == 2 || r[0] / 32 == 4 ==> a[5] == 0) && (r[0] / 32 == 3 || r[0] / 32 == 5 ==> a[5] == 1)
  }

  lemma FrameBlockIs(a: Block, r: Raw, aes: Block -> Block, addr: Addr, i: nat)
    requires IsData(r) && IsFrameBlock(a, r, addr, i)
    ensures IsBlock(a, SessionOf(r, aes, addr), i)
  {
    assert a[0] == a[..5][0] && a[1] == a[..5][1] && a[2] == a[..5][2] && a[3] == a[..5][3] && a[4] == a[..5][4];
    assert a[6] == a[6..10][0] && a[7] == a[6..10][1] && a[8] == a[6..10][2] && a[9] == a[6..10][3];
    assert a[12] == a[12..15][0] && a[13] == a[12..15][1] && a[14] == a[12..15][2];
  }

  /** Byte `j` of the payload, behind header, FOpts and FPort, meets the cipher's answer to the frame's block. */
  lemma DecodeKeystream(r: Raw, aes: Block -> Block, addr: Addr, j: nat, a: Block)
    requires Sound(r) && 2 <= r[0] / 32 <= 5 && j < PayloadSize(r) && IsFrameBlock(a, r, addr, j / 16 + 1)
    ensures Decoded(r, aes, addr)[9 + r[5] % 16 + j] == Xor(r[9 + r[5] % 16 + j], aes(a)[j % 16])
  {
    FrameBlockIs(a, r, aes, addr, j / 16 + 1);
    Keystream(SessionOf(r, aes, addr), r, PayloadStart(r), PayloadSize(r), j, a);
  }

  lemma DecodeKeepsFields(r: Raw, aes: Block -> Block, addr: Addr)
    requires Sound(r)
    ensures var d := Decoded(r, aes, addr);
            && d[..PayloadStart(r)] == r[..PayloadStart(r)] && d[FRAME_SIZE..] == r[FRAME_SIZE..]
            && PayloadSize(d) == PayloadSize(r) && PayloadStart(d) == PayloadStart(r)
            && (Deciphers(d) <==> Deciphers(r)) && SessionOf(d, aes, addr) == SessionOf(r, aes, addr)
  {
    var d := Decoded(r, aes, addr);
    forall j | 0 <= j < PayloadStart(r) || FRAME_SIZE <= j < STORAGE_SIZE ensures d[j] == r[j] {
      DecodeTouchesPayloadOnly(r, aes, addr, j);
    }
  }

  /** Decoding twice restores the frame. */
  lemma DecodeTwice(r: Raw, aes: Block -> Block, addr: Addr)
    requires Sound(r)
    ensures Sound(Decoded(r, aes, addr)) && Decoded(Decoded(r, aes, addr), aes, addr) == r
  {
    DecodeKeepsFields(r, aes, addr);
    if Deciphers(r) { EncryptTwice(SessionOf(r, aes, addr), r, PayloadStart(r), PayloadSize(r)); }
  }

  /** A data frame of at most 263 bytes with a byte of payload. */
  predicate IsPlain(plain: seq<Byte>) {
    14 <= |plain| <= FRAME_SIZE && 64 <= plain[0] < 192 && |plain| >= 14 + plain[5] % 16
  }

  function PlainSession(plain: seq<Byte>, aes: Block -> Block, addr: Addr): Session
    requires IsPlain(plain)
  {
    Session(aes, if plain[0] / 32 == 2 || plain[0] / 32 == 4 then 0 else 1, addr, Le16(plain[6], plain[7]))
  }

  /** What the sender puts on the air: the payload part of the frame is encrypted. */
  function OnAir(plain: seq<Byte>, aes: Block -> Block, addr: Addr): (s: seq<Byte>)
    requires IsPlain(plain)
    ensures |s| == |plain|
  {
    Encrypted(PlainSession(plain, aes, addr), plain, 9 + plain[5] % 16, |plain| - 13 - plain[5] % 16)
  }

  /** Encryption leaves the bytes in front of the payload and behind it. */
  lemma AirOutside(plain: seq<Byte>, aes: Block -> Block, addr: Addr, j: nat)
    requires IsPlain(plain) && j < |plain| && (j < 9 + plain[5] % 16 || j >= |plain| - 4)
    ensures OnAir(plain, aes, addr)[j] == plain[j]
  {
    CounterMode(PlainSession(plain, aes, addr), plain, 9 + plain[5] % 16, |plain| - 13 - plain[5] % 16, j);
  }

  /** The loaded frame is the one on the air, with the sender's session and payload. */
  lemma AirLoaded(r: Raw, plain: seq<Byte>, aes: Block -> Block, addr: Addr)
    requires IsPlain(plain)
    ensures var l, air := Loaded(r, OnAir(plain, aes, addr)), OnAir(plain, aes, addr);
            && Sound(l) && Deciphers(l) && SessionOf(l, aes, addr) == PlainSession(plain, aes, addr)
            && PayloadStart(l) == 9 + plain[5] % 16 && PayloadSize(l) == |plain| - 13 - plain[5] % 16
            && forall j :: 0 <= j < |plain| ==> l[j] == air[j]
  {
    var air := OnAir(plain, aes, addr);
    AirOutside(plain, aes, addr, 0);
    AirOutside(plain, aes, addr, 5);
    AirOutside(plain, aes, addr, 6);
    AirOutside(plain, aes, addr, 7);
    assert Copied(r, air)[0] == air[0] && Copied(r, air)[5] == air[5];
    LoadedIsSound(r, air);
    LoadedFrame(r, air);
    SmallDerivedSize(|air|, plain[5] % 16);
  }

  /** Loading a frame from the air and decoding it gives back every byte the sender had. */
  lemma DecodeRecovers(r: Raw, plain: seq<Byte>, aes: Block -> Block, addr: Addr)
    requires IsPlain(plain)
    ensures var l := Loaded(r, OnAir(plain, aes, addr));
            Sound(l) && Decoded(l, aes, addr)[..|plain|] == plain
  {
    var air := OnAir(plain, aes, addr);
    var l := Loaded(r, air);
    var e, start, size := PlainSession(plain, aes, addr), 9 + plain[5] % 16, |plain| - 13 - plain[5] % 16;
    AirLoaded(r, plain, aes, addr);
    forall j | 0 <= j < |plain| ensures Decoded(l, aes, addr)[j] == plain[j] {
      DecodedBack(e, plain, air, l, start, size, j);
    }
  }

  /** A byte that was combined with the keystream twice is the old one. */
  lemma DecodedBack(e: Session, plain: seq<Byte>, air: seq<Byte>, l: Raw, start: nat, size: nat, j: nat)
    requires start + size <= |plain| <= |l| && size <= 256 && j < |plain|
    requires air == Encrypted(e, plain, start, size) && l[j] == air[j]
    ensures Encrypted(e, l, start, size)[j] == plain[j]
  {
    CounterMode(e, plain, start, size, j);
    CounterMode(e, l, start, size, j);
    if start <= j < start + size { XorTwice(plain[j], KeyByte(e, j - start)); }
  }

  // ---------- the object ----------

  class Message {
    var raw: array<Byte>

    ghost predicate Valid()
      reads this
    {
      raw.Length == STORAGE_SIZE
    }

    ghost function Contents(): Raw
      reads this, raw
      requires Valid()
    {
      raw[..]
    }

    constructor ()
      ensures Valid() && fresh(raw) && Contents() == seq(STORAGE_SIZE, _ => 0)
    {
      raw := new Byte[STORAGE_SIZE](_ => 0);
    }

    /** `setSize`, for any size. */
    method SetSize(size: nat)
      requires Valid()
      modifies raw
      ensures Contents() == Resized(old(Contents()), size)
    {
      var mtype := raw[0] / 32;
      if 2 <= mtype <= 5 {
        var payloadSize := ToInt32(size - 1 - 7 - raw[5] % 16 - 4);
        if payloadSize > 1 { payloadSize := payloadSize - 1; }
        if payloadSize < 0 { payloadSize := 0; }
        raw[263], raw[264] := payloadSize % 256, payloadSize / 256 % 256;
        raw[265], raw[266] := payloadSize / 65536 % 256, payloadSize / 16777216 % 256;
      }
    }

    /** Load a received buffer; too long a buffer is cut. */
    method Load(buffer: seq<Byte>)
      requires Valid()
      modifies raw
      ensures Contents() == Loaded(old(Contents()), buffer)
    {
      var size := |buffer|;
      if size > STORAGE_SIZE - 2 { size := STORAGE_SIZE - 2; }
      forall i | 0 <= i < size { raw[i] := buffer[i]; }
      assert raw[..] == Copied(old(raw[..]), buffer);
      SetSize(size);
    }

    /** Decrypt the payload in place; false when there is nothing to decrypt. */
    method Decode(aes: Block -> Block, addr: Addr) returns (ok: bool)
      requires Valid() && InStorage(Contents())
      modifies raw
      ensures ok == Deciphers(old(Contents()))
      ensures Contents() == Decoded(old(Contents()), aes, addr)
    {
      ghost var r := raw[..];
      var payloadSize := PayloadSize(raw[..]);
      if payloadSize > 0 {
        var mtype := raw[0] / 32;
        var direction := if mtype == 2 || mtype == 4 then 0 else 1;
        if 2 <= mtype <= 5 {
          assert Mtype(r) == mtype && FoptsLen(r) == raw[5] % 16;
          var e := Session(aes, direction, addr, Le16(raw[6], raw[7]));
          EncryptPayload(raw, 8 + raw[5] % 16 + 1, payloadSize, e);
          return true;
        }
      }
      return false;
    }
  }
}
