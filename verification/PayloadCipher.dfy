/**
 Payload encryption in counter mode (helper/aes-helper.cpp), after section 4.3.3 of the LoRaWAN 1.1
 specification.  AES under a fixed key is a parameter: any function from blocks to blocks.
 */
module PayloadCipher {
  import opened Bytes

  type Block = b: seq<Byte> | |b| == 16
    witness [0, 0, 0, 0, 0, 0, 0, 0, 0, 0, 0, 0, 0, 0, 0, 0]

  type Addr = a: seq<Byte> | |a| == 4
    witness [0, 0, 0, 0]

  /** All that the keystream depends on. */
  datatype Session = Session(aes: Block -> Block, direction: Byte, addr: Addr, counter: nat)

  // ---------- the keystream ----------

  /** Block A_i of the specification; only the low 16 bits of the frame counter and the low 8 of `i` enter. */
  function CounterBlock(e: Session, i: nat): Block {
    [1, 0, 0, 0, 0, e.direction] + e.addr + [e.counter % 256, e.counter / 256 % 256, 0, 0, 0, i % 256]
  }

  function KeyBlock(e: Session, i: nat): Block {
    e.aes(CounterBlock(e, i))
  }

  /** Byte `j` of AES(A_1), AES(A_2), ... */
  function KeyByte(e: Session, j: nat): Byte {
    KeyBlock(e, j / 16 + 1)[j % 16]
  }

  /** Counter blocks are equal exactly when direction, address, 16-bit counter and block number are. */
  lemma CounterBlocksDistinct(e: Session, f: Session, i: nat, j: nat)
    ensures CounterBlock(e, i) == CounterBlock(f, j)
       <==> e.direction == f.direction && e.addr == f.addr && e.counter % 65536 == f.counter % 65536
            && i % 256 == j % 256
  {
    var a, b := CounterBlock(e, i), CounterBlock(f, j);
    assert a[6..10] == e.addr && b[6..10] == f.addr;
    LowHalf(e.counter);
    LowHalf(f.counter);
    assert a[5] == e.direction && a[10] == e.counter % 256 && a[11] == e.counter / 256 % 256 && a[15] == i % 256;
    assert b[5] == f.direction && b[10] == f.counter % 256 && b[11] == f.counter / 256 % 256 && b[15] == j % 256;
  }

  lemma LowHalf(c: nat)
    ensures c % 65536 == 256 * (c / 256 % 256) + c % 256
  {
    var h := c / 256;
    LowWord(h / 256, 256 * (h % 256) + c % 256);
    assert c == 65536 * (h / 256) + (256 * (h % 256) + c % 256);
  }

  lemma LowWord(q: nat, x: nat)
    requires x < 65536
    ensures (65536 * q + x) % 65536 == x
  {}

  // ---------- what the loop computes ----------

  /** `n` bytes of `s` are combined into `p` from position `at` on. */
  function XorAt(p: seq<Byte>, at: nat, s: Block, n: nat): (r: seq<Byte>)
    requires n <= 16
    ensures |r| == |p|
  {
    seq(|p|, j requires 0 <= j < |p| => if at <= j < at + n then XorByte(p[j], s[j - at]) else p[j])
  }

  function BlockCount(size: nat): nat {
    (size + 15) / 16
  }

  /** Bytes handled by block `k`, counted from 0. */
  function BlockSize(size: nat, k: nat): (n: nat)
    ensures n <= 16
  {
    if size - 16 * k >= 16 then 16 else if size - 16 * k > 0 then size - 16 * k else 0
  }

  /** Where block `k` lands: the program's index has 8 bits, so it is taken modulo 256. */
  function BlockStart(k: nat): (b: nat)
    ensures b <= 240 && b <= 16 * k && (k < 16 ==> b == 16 * k)
  {
    16 * (k % 16)
  }

  lemma InBlock(j: nat, k: nat)
    ensures 16 * k <= j < 16 * k + 16 <==> j / 16 == k
    ensures j / 16 == k ==> j % 16 == j - 16 * k
  {}

  /** `p` after `k` blocks of the payload of `size` bytes at `start`. */
  function Stage(e: Session, p: seq<Byte>, start: nat, size: nat, k: nat): (r: seq<Byte>)
    ensures |r| == |p|
  {
    if k == 0 then p
    else
      XorAt(Stage(e, p, start, size, k - 1), start + BlockStart(k - 1), KeyBlock(e, k), BlockSize(size, k - 1))
  }

  /** The loop counts down a signed 32-bit number; from 2^31 on the size is cut, to nothing if that is negative. */
  function LoopSize(size: nat): (n: nat)
    ensures n <= size && (size < 0x8000_0000 ==> n == size)
  {
    if ToInt32(size) > 0 then ToInt32(size) else 0
  }

  function Encrypted(e: Session, p: seq<Byte>, start: nat, size: nat): (r: seq<Byte>)
    requires start + size <= |p|
    ensures |r| == |p|
  {
    Stage(e, p, start, LoopSize(size), BlockCount(LoopSize(size)))
  }

  /** All that `k` blocks combine into byte `j` of the payload. */
  function Mask(e: Session, size: nat, j: nat, k: nat): Byte {
    if k == 0 then 0
    else
      var b := BlockStart(k - 1);
      if b <= j < b + BlockSize(size, k - 1) then XorByte(Mask(e, size, j, k - 1), KeyBlock(e, k)[j - b])
      else Mask(e, size, j, k - 1)
  }

  lemma {:induction false} StageByByte(e: Session, p: seq<Byte>, start: nat, size: nat, k: nat, j: nat)
    requires start + size <= |p| && j < |p|
    ensures Stage(e, p, start, size, k)[j]
         == if start <= j < start + size then Xor(p[j], Mask(e, size, j - start, k)) else p[j]
  {
    if k == 0 {
      XorZero(p[j]);
    } else {
      StageByByte(e, p, start, size, k - 1, j);
      var b := BlockStart(k - 1);
      if start + b <= j < start + b + BlockSize(size, k - 1) {
        XorAssoc(p[j], Mask(e, size, j - start, k - 1), KeyBlock(e, k)[j - start - b]);
      }
    }
  }

  lemma LastBlock(size: nat, j: nat, k: nat)
    requires size <= 256 && j < size
    ensures BlockStart(k) <= j < BlockStart(k) + BlockSize(size, k) <==> 16 * k <= j < 16 * k + 16
  {}

  lemma {:induction false} ShortMask(e: Session, size: nat, j: nat, k: nat)
    requires size <= 256 && j < size
    ensures Mask(e, size, j, k) == if j / 16 < k then KeyByte(e, j) else 0
  {
    if k > 0 {
      ShortMask(e, size, j, k - 1);
      InBlock(j, k - 1);
      LastBlock(size, j, k - 1);
      if j / 16 == k - 1 { ZeroXor(KeyByte(e, j)); }
    }
  }

  /** Exclusive or of the first `n` keystream bytes, as far as their position is `j` modulo 256. */
  function Folded(e: Session, j: nat, n: nat): Byte {
    if n == 0 then 0
    else if (n - 1) % 256 == j then XorByte(Folded(e, j, n - 1), KeyByte(e, n - 1))
    else Folded(e, j, n - 1)
  }

  lemma {:induction false} FoldsNothing(e: Session, j: nat, low: nat, high: nat)
    requires low <= high && forall i :: low <= i < high ==> i % 256 != j
    ensures Folded(e, j, high) == Folded(e, j, low)
  {
    if low < high {
      assert (high - 1) % 256 != j;
      FoldsNothing(e, j, low, high - 1);
    }
  }

  /** Position in block `k` (counted from 0) that the 8-bit index takes for `j`. */
  lemma OneInBlock(j: nat, k: nat, i: nat)
    requires j < 256 && 16 * k <= i < 16 * k + 16
    ensures i % 256 == j <==> j - BlockStart(k) == i - 16 * k
  {
    LowByte(k / 16, BlockStart(k) + (i - 16 * k));
    assert i == 256 * (k / 16) + (BlockStart(k) + (i - 16 * k));
  }

  lemma LowByte(q: nat, x: nat)
    requires x < 256
    ensures (256 * q + x) % 256 == x
  {}

  lemma FoldsBlock(e: Session, size: nat, j: nat, k: nat)
    requires j < 256 && 16 * k < size
    ensures var b, high := BlockStart(k), 16 * k + BlockSize(size, k);
            Folded(e, j, high) == if b <= j < b + BlockSize(size, k) then
              XorByte(Folded(e, j, 16 * k), KeyBlock(e, k + 1)[j - b]) else Folded(e, j, 16 * k)
  {
    var b, low, high := BlockStart(k), 16 * k, 16 * k + BlockSize(size, k);
    forall i | low <= i < high ensures i % 256 == j <==> j - b == i - low { OneInBlock(j, k, i); }
    if b <= j < b + BlockSize(size, k) {
      var i := low + (j - b);
      FoldsNothing(e, j, low, i);
      FoldsNothing(e, j, i + 1, high);
      InBlock(i, k);
    } else {
      FoldsNothing(e, j, low, high);
    }
  }

  lemma {:induction false} MaskFolds(e: Session, size: nat, j: nat, k: nat)
    requires j < 256 && k <= BlockCount(size)
    ensures Mask(e, size, j, k) == Folded(e, j, if 16 * k < size then 16 * k else size)
  {
    if k > 0 {
      MaskFolds(e, size, j, k - 1);
      FoldsBlock(e, size, j, k - 1);
    }
  }

  lemma {:induction false} NothingFar(e: Session, size: nat, j: nat, k: nat)
    requires j >= 256
    ensures Mask(e, size, j, k) == 0
  {
    if k > 0 { NothingFar(e, size, j, k - 1); }
  }

  // ---------- what the source promises ----------

  /** A payload of at most 256 bytes is combined with the keystream byte by byte, and nothing else changes. */
  lemma CounterMode(e: Session, p: seq<Byte>, start: nat, size: nat, j: nat)
    requires start + size <= |p| && size <= 256 && j < |p|
    ensures Encrypted(e, p, start, size)[j]
         == if start <= j < start + size then Xor(p[j], KeyByte(e, j - start)) else p[j]
  {
    StageByByte(e, p, start, size, BlockCount(size), j);
    if start <= j < start + size { ShortMask(e, size, j - start, BlockCount(size)); }
  }

  /** The fields of the block from which keystream block `i` is made, numbered from 1. */
  predicate IsBlock(a: Block, e: Session, i: nat) {
    && a[0] == 1 && a[1] == a[2] == a[3] == a[4] == 0 && a[5] == e.direction
    && a[6] == e.addr[0] && a[7] == e.addr[1] && a[8] == e.addr[2] && a[9] == e.addr[3]
    && Le16(a[10], a[11]) == e.counter % 65536
    && a[12] == a[13] == a[14] == 0 && a[15] == i % 256
  }

  lemma BlockIs(a: Block, e: Session, i: nat)
    ensures IsBlock(a, e, i) <==> a == CounterBlock(e, i)
  {
    var b := CounterBlock(e, i);
    LowHalf(e.counter);
    assert b[6] == e.addr[0] && b[7] == e.addr[1] && b[8] == e.addr[2] && b[9] == e.addr[3];
    assert IsBlock(b, e, i);
    if IsBlock(a, e, i) {
      Le16Tells(a[10], a[11], b[10], b[11]);
      forall j | 0 <= j < 16 ensures a[j] == b[j] {}
    }
  }

  /**
   The keystream, for every cipher: byte `j` of the payload meets byte j % 16 of the cipher's answer to the
   block with number j / 16 + 1, direction, address and the low 16 bits of the counter in their places.
   */
  lemma Keystream(e: Session, p: seq<Byte>, start: nat, size: nat, j: nat, a: Block)
    requires start + size <= |p| && size <= 256 && j < size && IsBlock(a, e, j / 16 + 1)
    ensures Encrypted(e, p, start, size)[start + j] == Xor(p[start + j], e.aes(a)[j % 16])
  {
    CounterMode(e, p, start, size, start + j);
    BlockIs(a, e, j / 16 + 1);
  }

  /** A cipher that returns its input, on a payload of zeros, shows the blocks it was called with. */
  lemma CipherInput(e: Session, p: seq<Byte>, start: nat, size: nat, k: nat)
    requires start + size <= |p| && size <= 256 && 16 * k + 16 <= size
    requires (forall a: Block :: e.aes(a) == a) && forall j :: start <= j < start + size ==> p[j] == 0
    ensures IsBlock(Encrypted(e, p, start, size)[start + 16 * k..start + 16 * k + 16], e, k + 1)
  {
    var r, a, at := Encrypted(e, p, start, size), CounterBlock(e, k + 1), start + 16 * k;
    BlockIs(a, e, k + 1);
    forall i | 0 <= i < 16 ensures r[at..at + 16][i] == a[i] {
      InBlock(16 * k + i, k);
      Keystream(e, p, start, size, 16 * k + i, a);
      ZeroXor(a[i]);
    }
    assert r[at..at + 16] == a;
  }

  /** Encryption is its own inverse, for every size. */
  lemma EncryptTwice(e: Session, p: seq<Byte>, start: nat, size: nat)
    requires start + size <= |p|
    ensures Encrypted(e, Encrypted(e, p, start, size), start, size) == p
  {
    var q, c := Encrypted(e, p, start, size), LoopSize(size);
    var n := BlockCount(c);
    forall j | 0 <= j < |p| ensures Encrypted(e, q, start, size)[j] == p[j] {
      StageByByte(e, p, start, c, n, j);
      StageByByte(e, q, start, c, n, j);
      if start <= j < start + c { XorTwice(p[j], Mask(e, c, j - start, n)); }
    }
  }

  /**
   A payload of any size: each of its first 256 bytes meets all the keystream bytes, up to the size, that
   lie a multiple of 256 behind it.
   */
  lemma LongPayload(e: Session, p: seq<Byte>, start: nat, size: nat, j: nat)
    requires start + size <= |p| && j < 256 && j < LoopSize(size)
    ensures Encrypted(e, p, start, size)[start + j] == Xor(p[start + j], Folded(e, j, LoopSize(size)))
  {
    var c := LoopSize(size);
    StageByByte(e, p, start, c, BlockCount(c), start + j);
    MaskFolds(e, c, j, BlockCount(c));
  }

  /** Because of the 8-bit index the bytes of a payload after the first 256 are left in clear. */
  lemma TailInClear(e: Session, p: seq<Byte>, start: nat, size: nat, j: nat)
    requires start + size <= |p| && start + 256 <= j < |p|
    ensures Encrypted(e, p, start, size)[j] == p[j]
  {
    var c := LoopSize(size);
    StageByByte(e, p, start, c, BlockCount(c), j);
    NothingFar(e, c, j - start, BlockCount(c));
    XorZero(p[j]);
  }

  /** Byte `j` is combined with its keystream byte if it is one of the payload, and kept otherwise. */
  predicate CipheredAt(e: Session, p: seq<Byte>, start: nat, size: nat, j: nat)
    requires start + size <= |p| && j < |p|
  {
    Encrypted(e, p, start, size)[j] == if start <= j < start + size then Xor(p[j], KeyByte(e, j - start)) else p[j]
  }

  predicate CiphersFully(e: Session, p: seq<Byte>, start: nat, size: nat)
    requires start + size <= |p|
  {
    forall j :: 0 <= j < |p| ==> CipheredAt(e, p, start, size, j)
  }

  /** The keystream property holds for every cipher and buffer if and only if the size is at most 256. */
  lemma CounterModeIffShort(size: nat)
    ensures (forall e: Session, p: seq<Byte>, start: nat :: start + size <= |p| ==> CiphersFully(e, p, start, size))
       <==> size <= 256
  {
    if size <= 256 {
      forall e: Session, p: seq<Byte>, start: nat | start + size <= |p| ensures CiphersFully(e, p, start, size) {
        forall j | 0 <= j < |p| ensures CipheredAt(e, p, start, size, j) { CounterMode(e, p, start, size, j); }
      }
    } else {
      LongIsNotCiphered(size);
    }
  }

  /** A constant cipher without zeros leaves byte 256 of a payload of zeros as it is. */
  lemma LongIsNotCiphered(size: nat)
    requires size > 256
    ensures exists e: Session, p: seq<Byte>, start: nat :: start + size <= |p| && !CiphersFully(e, p, start, size)
  {
    var block: Block := [1, 1, 1, 1, 1, 1, 1, 1, 1, 1, 1, 1, 1, 1, 1, 1];
    var e := Session((a: Block) => block, 0, [0, 0, 0, 0], 0);
    var p: seq<Byte> := seq(size, _ => 0);
    TailInClear(e, p, 0, size, 256);
    ZeroXor(KeyByte(e, 256));
    assert KeyByte(e, 256) == 1;
    assert !CipheredAt(e, p, 0, size, 256);
    assert !CiphersFully(e, p, 0, size);
  }

  // ---------- the program ----------

  method XorInto(buf: array<Byte>, at: nat, s: Block, n: nat)
    requires n <= 16 && at + n <= buf.Length
    modifies buf
    ensures buf[..] == XorAt(old(buf[..]), at, s, n)
  {
    for i := 0 to n
      invariant forall j :: 0 <= j < buf.Length ==>
                              buf[j] == if at <= j < at + i then XorByte(old(buf[j]), s[j - at]) else old(buf[j])
    {
      buf[at + i] := XorByte(buf[at + i], s[i]);
    }
  }

  lemma BlocksDone(size: nat, k: nat)
    requires 16 * k <= size < 16 * k + 16
    ensures BlockCount(size) == if size == 16 * k then k else k + 1
  {}

  lemma NextIndex(k: nat)
    ensures (BlockStart(k) + 16) % 256 == BlockStart(k + 1)
  {
    assert (k + 1) % 16 == if k % 16 == 15 then 0 else k % 16 + 1;
  }

  lemma NextCounter(k: nat)
    ensures (k % 65536 + 1) % 65536 == (k + 1) % 65536
  {}

  function FixedPart(e: Session): (a: seq<Byte>)
    ensures |a| == 15
  {
    [1, 0, 0, 0, 0, e.direction] + e.addr + [e.counter % 256, e.counter / 256 % 256, 0, 0, 0]
  }

  /** The block A as the program keeps it: 15 fixed bytes and the low byte of a 16-bit counter. */
  lemma ProgramBlock(e: Session, k: nat, ctr: nat)
    requires ctr == (k + 1) % 65536
    ensures FixedPart(e) + [ctr % 256] == CounterBlock(e, k + 1)
  {
    assert ctr % 256 == (k + 1) % 256;
  }

  /** One turn of the loop, and the part after it: set the counter, encrypt the block, combine `n` bytes. */
  method CryptBlock(buf: array<Byte>, bufferIndex: nat, e: Session, a: seq<Byte>, ctr: nat, n: nat,
                    start: nat, ghost p: seq<Byte>, ghost size: nat, ghost k: nat)
    requires a == FixedPart(e) && ctr == (k + 1) % 65536 && bufferIndex == BlockStart(k)
    requires n == BlockSize(size, k) && start + bufferIndex + n <= buf.Length
    requires buf[..] == Stage(e, p, start, size, k)
    modifies buf
    ensures buf[..] == Stage(e, p, start, size, k + 1)
  {
    ProgramBlock(e, k, ctr);
    var s := e.aes(a + [ctr % 256]);
    XorInto(buf, start + bufferIndex, s, n);
  }

  /** The 8-bit index and the 16-bit counter move on. */
  method NextBlock(bufferIndex: nat, ctr: nat, ghost k: nat) returns (nextIndex: nat, nextCtr: nat)
    requires bufferIndex == BlockStart(k) && ctr == (k + 1) % 65536
    ensures nextIndex == BlockStart(k + 1) && nextCtr == (k + 2) % 65536
  {
    NextIndex(k);
    NextCounter(k + 1);
    nextIndex := (bufferIndex + 16) % 256;
    nextCtr := (ctr + 1) % 65536;
  }

  /** `encryptPayload` on the `payloadSize` bytes at `start`. */
  method EncryptPayload(buf: array<Byte>, start: nat, payloadSize: nat, e: Session)
    requires start + payloadSize <= buf.Length
    modifies buf
    ensures buf[..] == Encrypted(e, old(buf[..]), start, payloadSize)
  {
    var a := FixedPart(e);
    var size := ToInt32(payloadSize);
    var ctr := 1;
    var bufferIndex := 0;
    ghost var k: nat, p, c := 0, buf[..], LoopSize(payloadSize);
    while size >= 16
      invariant size == ToInt32(payloadSize) - 16 * k
      invariant k > 0 ==> size >= 0
      invariant ctr == (k + 1) % 65536 && bufferIndex == BlockStart(k)
      invariant buf[..] == Stage(e, p, start, c, k)
    {
      CryptBlock(buf, bufferIndex, e, a, ctr, 16, start, p, c, k);
      bufferIndex, ctr := NextBlock(bufferIndex, ctr, k);
      size := size - 16;
      k := k + 1;
    }
    BlocksDone(c, k);
    if size > 0 {
      CryptBlock(buf, bufferIndex, e, a, ctr, size, start, p, c, k);
    }
  }
}
