/**
 The two 16-bit CRC loops of the gateway: `crc16xmodem` and `crc16modbus`.  Each loop is proved to
 compute the remainder of a polynomial division over GF(2), and the error-detection properties follow
 from that.

 A machine word is modelled as its bits, most significant first, with the operators of the loops
 (`^`, `<< 1`, `>> 1`, bit test, widening) written out on them.
 */
module Crc16 {

  // ---------- machine words ----------

  type Word16 = s: seq<bool> | |s| == 16 witness Zeros(16)
  type Octet = s: seq<bool> | |s| == 8 witness Zeros(8)

  function Zeros(n: nat): (s: seq<bool>)
    ensures |s| == n
  {
    seq(n, i => false)
  }

  /** Bitwise exclusive or; on polynomials over GF(2), addition. */
  function Plus(a: seq<bool>, b: seq<bool>): (s: seq<bool>)
    requires |a| == |b|
    ensures |s| == |a|
  {
    seq(|a|, i requires 0 <= i < |a| => a[i] != b[i])
  }

  function Reverse(a: seq<bool>): (s: seq<bool>)
    ensures |s| == |a|
  {
    seq(|a|, i requires 0 <= i < |a| => a[|a| - 1 - i])
  }

  function ShiftLeft(r: Word16): Word16 {
    r[1..] + [false]
  }

  function ShiftRight(r: Word16): Word16 {
    [false] + r[..15]
  }

  function Nibble(n: nat): (s: seq<bool>)
    requires n < 16
    ensures |s| == 4
  {
    [n / 8 % 2 == 1, n / 4 % 2 == 1, n / 2 % 2 == 1, n % 2 == 1]
  }

  /** The word with the given four hexadecimal digits. */
  function Hex(a: nat, b: nat, c: nat, d: nat): Word16
    requires a < 16 && b < 16 && c < 16 && d < 16
  {
    Nibble(a) + Nibble(b) + Nibble(c) + Nibble(d)
  }

  /** A byte string as a bit string, each byte in the order the register consumes it. */
  function Bits(data: seq<Octet>, msbFirst: bool): (s: seq<bool>)
    ensures |s| == 8 * |data|
  {
    if data == [] then [] else Bits(data[..|data| - 1], msbFirst) + ByteBits(data[|data| - 1], msbFirst)
  }

  function ByteBits(b: Octet, msbFirst: bool): Octet {
    if msbFirst then b else Reverse(b)
  }

  // ---------- polynomials over GF(2), most significant coefficient first ----------

  function Scale(b: bool, p: seq<bool>): (s: seq<bool>)
    ensures |s| == |p|
  {
    if b then p else Zeros(|p|)
  }

  /** The product of two polynomials, by Horner's rule on the coefficients of `q`. */
  function Times(q: seq<bool>, p: seq<bool>): (s: seq<bool>)
    requires |p| > 0
    ensures |s| == |q| + |p| - 1
  {
    if q == [] then Zeros(|p| - 1)
    else Plus(Times(q[..|q| - 1], p) + [false], Zeros(|q| - 1) + Scale(q[|q| - 1], p))
  }

  /** x^16 + x^12 + x^5 + 1 and x^16 + x^15 + x^2 + 1, without the leading term. */
  function XmodemPoly(): Word16 {
    Hex(1, 0, 2, 1)
  }

  function ModbusPoly(): Word16 {
    Hex(8, 0, 0, 5)
  }

  function Ones(): Word16 {
    Hex(15, 15, 15, 15)
  }

  /** M(x) * x^16 + I(x) * x^|M|, where I(x) is the initial register. */
  function Dividend(bits: seq<bool>, init: Word16): (s: seq<bool>)
    ensures |s| == |bits| + 16
  {
    Plus(bits + Zeros(16), init + Zeros(|bits|))
  }

  ghost predicate DividesWith(q: seq<bool>, bits: seq<bool>, init: Word16, rem: Word16, p: Word16) {
    && |q| == |bits|
    && Dividend(bits, init) == Plus(Times(q, [true] + p), Zeros(|bits|) + rem)
  }

  /** `rem` is a remainder (of degree below 16) of the dividend by x^16 + p(x). */
  ghost predicate IsRemainder(bits: seq<bool>, init: Word16, rem: Word16, p: Word16) {
    exists q :: DividesWith(q, bits, init, rem, p)
  }

  /** The CRC-16/XMODEM of `data`: the remainder, high order first, from a zero register. */
  ghost predicate IsXmodem(data: seq<Octet>, r: Word16) {
    IsRemainder(Bits(data, true), Zeros(16), r, XmodemPoly())
  }

  /** The CRC-16/MODBUS of `data`: the reflected remainder, from a register of ones. */
  ghost predicate IsModbus(data: seq<Octet>, r: Word16) {
    IsRemainder(Bits(data, false), Ones(), Reverse(r), ModbusPoly())
  }

  // ---------- the shift register, one bit at a time ----------

  function Shift(r: Word16, p: Word16): Word16 {
    Plus(ShiftLeft(r), Scale(r[0], p))
  }

  function ShiftN(r: Word16, p: Word16, n: nat): Word16 {
    if n == 0 then r else Shift(ShiftN(r, p, n - 1), p)
  }

  function FeedBit(r: Word16, m: bool, p: Word16): Word16 {
    Plus(ShiftLeft(r), Scale(r[0] != m, p))
  }

  /** The register after the message bits `bits` have been fed in, first bit first. */
  function Feed(r: Word16, bits: seq<bool>, p: Word16): Word16 {
    if bits == [] then r else FeedBit(Feed(r, bits[..|bits| - 1], p), bits[|bits| - 1], p)
  }

  // ---------- the two loops ----------

  /** `crc16xmodem`. */
  method Crc16Xmodem(data: array<Octet>) returns (r: Word16)
    ensures IsXmodem(data[..], r)
  {
    r := Zeros(16);
    for i := 0 to data.Length
      invariant r == Feed(Zeros(16), Bits(data[..i], true), XmodemPoly())
    {
      ghost var f := r;
      r := Plus(r, data[i] + Zeros(8));
      ghost var w := r;
      for j := 0 to 8
        invariant r == ShiftN(w, XmodemPoly(), j)
      {
        PlusZeros(ShiftLeft(r));
        r := if r[0] then Plus(ShiftLeft(r), Hex(1, 0, 2, 1)) else ShiftLeft(r);
      }
      FeedOneByte(Zeros(16), data[..i], data[i], true, XmodemPoly(), f);
      assert data[..i + 1] == data[..i] + [data[i]];
    }
    assert data[..data.Length] == data[..];
    RemainderExists(Zeros(16), Bits(data[..], true), XmodemPoly());
  }

  /** `crc16modbus`: the same division, with the register reflected and preset to ones. */
  method Crc16Modbus(data: array<Octet>) returns (r: Word16)
    ensures IsModbus(data[..], r)
  {
    r := Hex(15, 15, 15, 15);
    assert Reverse(r) == Ones();
    for i := 0 to data.Length
      invariant Reverse(r) == Feed(Ones(), Bits(data[..i], false), ModbusPoly())
    {
      ghost var f := Reverse(r);
      ReversePlus(r, Zeros(8) + data[i]);
      assert Reverse(Zeros(8) + data[i]) == Reverse(data[i]) + Zeros(8);
      r := Plus(r, Zeros(8) + data[i]);
      ghost var w := Reverse(r);
      for j := 0 to 8
        invariant Reverse(r) == ShiftN(w, ModbusPoly(), j)
      {
        ReflectedShift(r);
        if r[15] {
          r := Plus(ShiftRight(r), Hex(10, 0, 0, 1));
        } else {
          r := ShiftRight(r);
        }
      }
      FeedOneByte(Ones(), data[..i], data[i], false, ModbusPoly(), f);
      assert data[..i + 1] == data[..i] + [data[i]];
    }
    assert data[..data.Length] == data[..];
    RemainderExists(Ones(), Bits(data[..], false), ModbusPoly());
  }

  lemma PlusZeros(s: seq<bool>)
    ensures Plus(s, Zeros(|s|)) == s
  {}

  lemma ReversePlus(a: seq<bool>, b: seq<bool>)
    requires |a| == |b|
    ensures Reverse(Plus(a, b)) == Plus(Reverse(a), Reverse(b))
  {}

  lemma ReverseShift(r: Word16)
    ensures Reverse(ShiftRight(r)) == ShiftLeft(Reverse(r)) && Reverse(r)[0] == r[15]
  {}

  lemma ReversedPolynomial()
    ensures Reverse(Hex(10, 0, 0, 1)) == ModbusPoly()
  {}

  /** The right-shifting loop body is the left-shifting one seen through bit reversal. */
  lemma ReflectedShift(r: Word16)
    ensures Reverse(if r[15] then Plus(ShiftRight(r), Hex(10, 0, 0, 1)) else ShiftRight(r))
         == Shift(Reverse(r), ModbusPoly())
  {
    ReverseShift(r);
    ReversedPolynomial();
    ReversePlus(ShiftRight(r), Hex(10, 0, 0, 1));
    PlusZeros(ShiftLeft(Reverse(r)));
  }

  // ---------- bytes and bits ----------

  lemma {:induction false} FeedAppend(r: Word16, a: seq<bool>, b: seq<bool>, p: Word16)
    ensures Feed(r, a + b, p) == Feed(Feed(r, a, p), b, p)
  {
    if b == [] {
      assert a + b == a;
    } else {
      assert (a + b)[..|a + b| - 1] == a + b[..|b| - 1];
      FeedAppend(r, a, b[..|b| - 1], p);
    }
  }

  lemma FeedByte(r: Word16, data: seq<Octet>, b: Octet, msbFirst: bool, p: Word16)
    ensures Feed(r, Bits(data + [b], msbFirst), p) == Feed(Feed(r, Bits(data, msbFirst), p), ByteBits(b, msbFirst), p)
  {
    assert (data + [b])[..|data + [b]| - 1] == data;
    FeedAppend(r, Bits(data, msbFirst), ByteBits(b, msbFirst), p);
  }

  /** Injecting a word and shifting `n` times leaves the register owing the word's unread part. */
  lemma {:induction false} ShiftsOwe(r: Word16, w: Word16, n: nat, p: Word16)
    requires n <= 16
    ensures ShiftN(Plus(r, w), p, n) == Plus(Feed(r, w[..n], p), w[n..] + Zeros(n))
  {
    if n == 0 {
      assert w[0..] + Zeros(0) == w;
    } else {
      ShiftsOwe(r, w, n - 1, p);
      assert w[..n][..n - 1] == w[..n - 1];
      var f := Feed(r, w[..n - 1], p);
      var s := Plus(f, w[n - 1..] + Zeros(n - 1));
      assert s[0] == (f[0] != w[n - 1]);
      var left, right := Shift(s, p), Plus(FeedBit(f, w[n - 1], p), w[n..] + Zeros(n));
      forall i | 0 <= i < 16
        ensures left[i] == right[i]
      {
        assert i < 15 ==> (w[n - 1..] + Zeros(n - 1))[i + 1] == (w[n..] + Zeros(n))[i];
      }
    }
  }

  /** Feeding at most sixteen bits one by one equals injecting them all and then shifting. */
  lemma FeedAsShifts(r: Word16, bits: seq<bool>, p: Word16)
    requires |bits| <= 16
    ensures Feed(r, bits, p) == ShiftN(Plus(r, bits + Zeros(16 - |bits|)), p, |bits|)
  {
    var w: Word16 := bits + Zeros(16 - |bits|);
    assert w[..|bits|] == bits;
    ShiftsOwe(r, w, |bits|, p);
    var f := Feed(r, bits, p);
    assert w[|bits|..] + Zeros(|bits|) == Zeros(16);
    assert Plus(f, Zeros(16)) == f;
  }

  /** One round of the byte loop, in terms of the bits consumed so far. */
  lemma FeedOneByte(init: Word16, data: seq<Octet>, b: Octet, msbFirst: bool, p: Word16, f: Word16)
    requires f == Feed(init, Bits(data, msbFirst), p)
    ensures Feed(init, Bits(data + [b], msbFirst), p) == ShiftN(Plus(f, ByteBits(b, msbFirst) + Zeros(8)), p, 8)
  {
    FeedByte(init, data, b, msbFirst, p);
    FeedAsShifts(f, ByteBits(b, msbFirst), p);
  }

  // ---------- the register is the remainder ----------

  lemma DividendNext(bits: seq<bool>, m: bool, init: Word16, i: nat)
    requires i < |bits| + 17
    ensures Dividend(bits + [m], init)[i]
         == if i < |bits| + 16 then Dividend(bits, init)[i] != (i == |bits| && m) else false
  {}

  /** One more digit of the quotient, by Horner's rule. */
  lemma TimesNext(q: seq<bool>, t: bool, p: seq<bool>)
    requires |p| > 0
    ensures Times(q + [t], p) == Plus(Times(q, p) + [false], Zeros(|q|) + Scale(t, p))
  {
    assert (q + [t])[..|q|] == q;
  }

  /** Coefficient `i` of a product and a remainder behind `n` zeros. */
  lemma CoefficientOf(t: seq<bool>, n: nat, r: seq<bool>, i: nat)
    requires |t| == n + |r| && i < |t|
    ensures Plus(t, Zeros(n) + r)[i] == if i < n then t[i] else t[i] != r[i - n]
  {}

  lemma ShiftedCoefficient(t: seq<bool>, n: nat, b: bool, p: Word16, i: nat)
    requires |t| == n + 16 && i < n + 17
    ensures Plus(t + [false], Zeros(n) + Scale(b, [true] + p))[i]
         == if i < n then t[i] else if i == n then t[i] != b else (i < n + 16 && t[i]) != (b && p[i - n - 1])
  {}

  lemma FeedBitAt(r: Word16, m: bool, p: Word16, i: nat)
    requires i < 16
    ensures FeedBit(r, m, p)[i] == ((i < 15 && r[i + 1]) != ((r[0] != m) && p[i]))
  {}

  /** Coefficient `i` of quotient times divisor plus remainder, for one more bit. */
  lemma QuotientSide(t: seq<bool>, t2: seq<bool>, n: nat, b: bool, r: Word16, m: bool, p: Word16, i: nat)
    requires |t| == n + 16 && i < n + 17 && b == (r[0] != m) && |t2| == n + 17
    requires t2 == Plus(t + [false], Zeros(n) + Scale(b, [true] + p))
    ensures Plus(t2, Zeros(n + 1) + FeedBit(r, m, p))[i]
         == if i < n then t[i] else if i == n then t[i] != b
            else (i < n + 16 && t[i]) != (i < n + 16 && r[i - n])
  {
    ShiftedCoefficient(t, n, b, p, i);
    CoefficientOf(t2, n + 1, FeedBit(r, m, p), i);
    if i > n { FeedBitAt(r, m, p, i - n - 1); }
  }

  lemma DividendSide(d: seq<bool>, t: seq<bool>, n: nat, r: Word16, m: bool, i: nat)
    requires |t| == n + 16 && d == Plus(t, Zeros(n) + r) && i < n + 16
    ensures (d[i] != (i == n && m)) == if i < n then t[i] else if i == n then t[i] != (r[0] != m) else t[i] != r[i - n]
  {
    CoefficientOf(t, n, r, i);
  }

  /** Coefficient `i` after one more bit: dividend and quotient side agree. */
  lemma DivisionCoefficient(q: seq<bool>, bits: seq<bool>, m: bool, init: Word16, r: Word16, p: Word16, i: nat)
    requires DividesWith(q, bits, init, r, p) && i < |bits| + 17
    ensures Dividend(bits + [m], init)[i]
         == Plus(Times(q + [r[0] != m], [true] + p), Zeros(|bits| + 1) + FeedBit(r, m, p))[i]
  {
    var n, b, t := |bits|, r[0] != m, Times(q, [true] + p);
    DividendNext(bits, m, init, i);
    TimesNext(q, b, [true] + p);
    QuotientSide(t, Times(q + [b], [true] + p), n, b, r, m, p, i);
    if i < n + 16 { DividendSide(Dividend(bits, init), t, n, r, m, i); }
  }

  lemma DivisionStep(q: seq<bool>, bits: seq<bool>, m: bool, init: Word16, r: Word16, p: Word16)
    requires DividesWith(q, bits, init, r, p)
    ensures DividesWith(q + [r[0] != m], bits + [m], init, FeedBit(r, m, p), p)
  {
    var left := Dividend(bits + [m], init);
    var right := Plus(Times(q + [r[0] != m], [true] + p), Zeros(|bits| + 1) + FeedBit(r, m, p));
    forall i | 0 <= i < |bits| + 17
      ensures left[i] == right[i]
    {
      DivisionCoefficient(q, bits, m, init, r, p, i);
    }
  }

  /** The bit-serial register always holds a remainder of what has been fed in so far. */
  lemma {:induction false} RemainderExists(init: Word16, bits: seq<bool>, p: Word16)
    ensures IsRemainder(bits, init, Feed(init, bits, p), p)
  {
    if bits == [] {
      var q: seq<bool> := [];
      assert DividesWith(q, bits, init, Feed(init, bits, p), p);
    } else {
      var front, m := bits[..|bits| - 1], bits[|bits| - 1];
      RemainderExists(init, front, p);
      var r := Feed(init, front, p);
      var q :| DividesWith(q, front, init, r, p);
      DivisionStep(q, front, m, init, r, p);
      assert bits == front + [m];
    }
  }

  /** Q(x) * p(x) + R(x), the value a quotient and a remainder stand for. */
  function Recompose(q: seq<bool>, r: seq<bool>, p: seq<bool>): (s: seq<bool>)
    requires |p| > 0 && |r| == |p| - 1
    ensures |s| == |q| + |r|
  {
    Plus(Times(q, p), Zeros(|q|) + r)
  }

  /** Fold the last quotient digit into the remainder: one coefficient peels off the end. */
  lemma Peel(q: seq<bool>, r: seq<bool>, p: seq<bool>)
    requires |p| > 0 && |q| > 0 && |r| == |p| - 1
    ensures var s := Plus(Scale(q[|q| - 1], p), [false] + r);
            Recompose(q, r, p) == Recompose(q[..|q| - 1], s[..|r|], p) + [s[|r|]]
  {
    var n, d := |q| - 1, |r|;
    var s := Plus(Scale(q[n], p), [false] + r);
    var t := Times(q[..n], p);
    var left, right := Recompose(q, r, p), Recompose(q[..n], s[..d], p) + [s[d]];
    forall i | 0 <= i < n + 1 + d
      ensures left[i] == right[i]
    {
      assert Times(q, p)[i] == ((t + [false])[i] != (Zeros(n) + Scale(q[n], p))[i]);
      if i < n + d {
        assert right[i] == (t[i] != (Zeros(n) + s[..d])[i]);
      }
    }
  }

  /** Division by a monic polynomial is unique: quotient and remainder are both determined. */
  lemma {:induction false} DivisionUnique(q1: seq<bool>, r1: seq<bool>, q2: seq<bool>, r2: seq<bool>, p: seq<bool>)
    requires |p| > 0 && p[0]
    requires |q1| == |q2| && |r1| == |r2| == |p| - 1
    requires Recompose(q1, r1, p) == Recompose(q2, r2, p)
    ensures q1 == q2 && r1 == r2
    decreases |q1|
  {
    var n, d := |q1|, |p| - 1;
    if n == 0 {
      RecomposeEmpty(r1, p);
      RecomposeEmpty(r2, p);
    } else {
      var s1, s2 := Carried(q1, r1, p), Carried(q2, r2, p);
      PeelBoth(q1, r1, q2, r2, p);
      DivisionUnique(q1[..n - 1], s1[..d], q2[..n - 1], s2[..d], p);
      SameFrontAndLast(s1, s2);
      LeadingDigit(q1[n - 1], r1, q2[n - 1], r2, p);
      SameFrontAndLast(q1, q2);
    }
  }

  lemma SameFrontAndLast(a: seq<bool>, b: seq<bool>)
    requires |a| == |b| > 0 && a[..|a| - 1] == b[..|b| - 1] && a[|a| - 1] == b[|b| - 1]
    ensures a == b
  {
    assert a == a[..|a| - 1] + [a[|a| - 1]] && b == b[..|b| - 1] + [b[|b| - 1]];
  }

  /** Remainder and last quotient digit folded into a remainder one place longer. */
  function Carried(q: seq<bool>, r: seq<bool>, p: seq<bool>): (s: seq<bool>)
    requires |q| > 0 && |p| == |r| + 1
    ensures |s| == |p|
  {
    Plus(Scale(q[|q| - 1], p), [false] + r)
  }

  lemma PeelBoth(q1: seq<bool>, r1: seq<bool>, q2: seq<bool>, r2: seq<bool>, p: seq<bool>)
    requires |p| > 0 && |q1| == |q2| > 0 && |r1| == |r2| == |p| - 1
    requires Recompose(q1, r1, p) == Recompose(q2, r2, p)
    ensures var n, d, s1, s2 := |q1|, |p| - 1, Carried(q1, r1, p), Carried(q2, r2, p);
            Recompose(q1[..n - 1], s1[..d], p) == Recompose(q2[..n - 1], s2[..d], p) && s1[d] == s2[d]
  {
    var n, d, s1, s2 := |q1|, |p| - 1, Carried(q1, r1, p), Carried(q2, r2, p);
    Peel(q1, r1, p);
    Peel(q2, r2, p);
    LastAndFront(Recompose(q1[..n - 1], s1[..d], p), s1[d], Recompose(q2[..n - 1], s2[..d], p), s2[d]);
  }

  /** A monic divisor's top coefficient reveals the quotient digit, and then the remainder. */
  lemma LeadingDigit(b1: bool, r1: seq<bool>, b2: bool, r2: seq<bool>, p: seq<bool>)
    requires |p| > 0 && p[0] && |r1| == |r2| == |p| - 1
    requires Plus(Scale(b1, p), [false] + r1) == Plus(Scale(b2, p), [false] + r2)
    ensures b1 == b2 && r1 == r2
  {
    var s1, s2 := Plus(Scale(b1, p), [false] + r1), Plus(Scale(b2, p), [false] + r2);
    assert s1[0] == b1 && s2[0] == b2;
    forall i | 0 <= i < |r1|
      ensures r1[i] == r2[i]
    {
      assert s1[i + 1] == (Scale(b1, p)[i + 1] != r1[i]) && s2[i + 1] == (Scale(b2, p)[i + 1] != r2[i]);
    }
  }

  lemma RecomposeEmpty(r: seq<bool>, p: seq<bool>)
    requires |p| > 0 && |r| == |p| - 1
    ensures Recompose([], r, p) == r
  {}

  lemma LastAndFront(a: seq<bool>, x: bool, b: seq<bool>, y: bool)
    requires a + [x] == b + [y]
    ensures a == b && x == y
  {
    assert (a + [x])[..|a|] == a && (b + [y])[..|b|] == b;
    assert (a + [x])[|a|] == x && (b + [y])[|b|] == y;
  }

  /** The register is the remainder, and nothing else is. */
  lemma RemainderIsFeed(init: Word16, bits: seq<bool>, rem: Word16, p: Word16)
    ensures IsRemainder(bits, init, rem, p) <==> rem == Feed(init, bits, p)
  {
    RemainderExists(init, bits, p);
    var r := Feed(init, bits, p);
    if IsRemainder(bits, init, rem, p) {
      var q1 :| DividesWith(q1, bits, init, r, p);
      var q2 :| DividesWith(q2, bits, init, rem, p);
      DivisionUnique(q1, r, q2, rem, [true] + p);
    }
  }

  // ---------- linearity ----------

  /** Over equal-length messages the CRC is linear under XOR. */
  lemma {:induction false} FeedLinear(r: Word16, s: Word16, a: seq<bool>, b: seq<bool>, p: Word16)
    requires |a| == |b|
    ensures Feed(Plus(r, s), Plus(a, b), p) == Plus(Feed(r, a, p), Feed(s, b, p))
  {
    if a != [] {
      var n := |a| - 1;
      assert Plus(a, b)[..n] == Plus(a[..n], b[..n]);
      FeedLinear(r, s, a[..n], b[..n], p);
    }
  }

  // ---------- appended check value, burst errors ----------

  lemma PlusCancels(a: seq<bool>, b: seq<bool>, c: seq<bool>)
    requires |a| == |b| == |c|
    ensures Plus(a, c) == Plus(b, c) <==> a == b
  {
    if Plus(a, c) == Plus(b, c) {
      forall i | 0 <= i < |a|
        ensures a[i] == b[i]
      {
        assert Plus(a, c)[i] == (a[i] != c[i]) && Plus(b, c)[i] == (b[i] != c[i]);
      }
    }
  }

  /** With a constant term in the generator no step loses information. */
  lemma FeedBitInjective(r: Word16, s: Word16, m: bool, p: Word16)
    requires p[15]
    ensures FeedBit(r, m, p) == FeedBit(s, m, p) <==> r == s
  {
    var f, g := FeedBit(r, m, p), FeedBit(s, m, p);
    if f == g {
      assert f[15] == (r[0] != m) && g[15] == (s[0] != m);
      PlusCancels(r[1..] + [false], s[1..] + [false], Scale(r[0] != m, p));
      assert forall i | 1 <= i < 16 :: r[i] == (r[1..] + [false])[i - 1] && s[i] == (s[1..] + [false])[i - 1];
    }
  }

  lemma {:induction false} FeedInjective(r: Word16, s: Word16, bits: seq<bool>, p: Word16)
    requires p[15]
    ensures Feed(r, bits, p) == Feed(s, bits, p) <==> r == s
  {
    if bits != [] {
      var n := |bits| - 1;
      FeedInjective(r, s, bits[..n], p);
      FeedBitInjective(Feed(r, bits[..n], p), Feed(s, bits[..n], p), bits[n], p);
    }
  }

  lemma {:induction false} ShiftNInjective(r: Word16, s: Word16, p: Word16, n: nat)
    requires p[15]
    ensures ShiftN(r, p, n) == ShiftN(s, p, n) <==> r == s
  {
    if n > 0 {
      ShiftNInjective(r, s, p, n - 1);
      FeedBitInjective(ShiftN(r, p, n - 1), ShiftN(s, p, n - 1), false, p);
    }
  }

  /** Of two words of at most sixteen bits, fed from one state, equal states mean equal words. */
  lemma ShortWordsDistinguished(r: Word16, a: seq<bool>, b: seq<bool>, p: Word16)
    requires p[15]
    requires |a| == |b| <= 16
    ensures Feed(r, a, p) == Feed(r, b, p) <==> a == b
  {
    var z := Zeros(16 - |a|);
    FeedAsShifts(r, a, p);
    FeedAsShifts(r, b, p);
    ShiftNInjective(Plus(r, a + z), Plus(r, b + z), p, |a|);
    PlusCancels(a + z, b + z, r);
    assert Plus(r, a + z) == Plus(a + z, r) && Plus(r, b + z) == Plus(b + z, r);
    if a + z == b + z {
      assert (a + z)[..|a|] == a && (b + z)[..|b|] == b;
    }
  }

  /**
   Burst detection: two messages of equal length that differ, but only inside a window of at
   most sixteen consecutive bits, leave the register in different states.
   */
  lemma BurstDetected(r: Word16, head: seq<bool>, a: seq<bool>, b: seq<bool>, tail: seq<bool>, p: Word16)
    requires p[15]
    requires |a| == |b| <= 16 && a != b
    ensures Feed(r, head + a + tail, p) != Feed(r, head + b + tail, p)
  {
    FeedAppend(r, head + a, tail, p);
    FeedAppend(r, head + b, tail, p);
    FeedAppend(r, head, a, p);
    FeedAppend(r, head, b, p);
    var f := Feed(r, head, p);
    ShortWordsDistinguished(f, a, b, p);
    FeedInjective(Feed(f, a, p), Feed(f, b, p), tail, p);
  }

  /** Sixteen further bits clear the register exactly when they spell out the register itself. */
  lemma CheckValueClears(r: Word16, x: Word16, p: Word16)
    requires p[15]
    ensures Feed(r, x, p) == Zeros(16) <==> x == r
  {
    ShiftsOwe(r, r, 16, p);
    assert Plus(r, r) == Zeros(16);
    assert r[..16] == r && r[16..] + Zeros(16) == Zeros(16);
    assert Plus(Feed(r, r, p), Zeros(16)) == Feed(r, r, p);
    ShiftNZero(p, 16);
    ShortWordsDistinguished(r, x, r, p);
  }

  lemma {:induction false} ShiftNZero(p: Word16, n: nat)
    ensures ShiftN(Zeros(16), p, n) == Zeros(16)
  {
    if n > 0 { ShiftNZero(p, n - 1); }
  }

  // ---------- the same, about the two check values ----------

  lemma {:induction false} BitsAppend(a: seq<Octet>, b: seq<Octet>, msbFirst: bool)
    ensures Bits(a + b, msbFirst) == Bits(a, msbFirst) + Bits(b, msbFirst)
  {
    if b == [] {
      assert a + b == a;
    } else {
      var front, last := b[..|b| - 1], b[|b| - 1];
      assert (a + b)[..|a + b| - 1] == a + front && (a + b)[|a + b| - 1] == last;
      BitsAppend(a, front, msbFirst);
      JoinAssociates(Bits(a, msbFirst), Bits(front, msbFirst), ByteBits(last, msbFirst));
    }
  }

  lemma JoinAssociates(a: seq<bool>, b: seq<bool>, c: seq<bool>)
    ensures (a + b) + c == a + (b + c)
  {}

  lemma ReverseInjective(a: seq<bool>, b: seq<bool>)
    requires |a| == |b|
    ensures Reverse(a) == Reverse(b) ==> a == b
  {
    if Reverse(a) == Reverse(b) {
      assert forall i | 0 <= i < |a| :: Reverse(a)[|a| - 1 - i] == a[i] && Reverse(b)[|a| - 1 - i] == b[i];
    }
  }

  lemma {:induction false} BitsInjective(a: seq<Octet>, b: seq<Octet>, msbFirst: bool)
    requires |a| == |b|
    ensures Bits(a, msbFirst) == Bits(b, msbFirst) ==> a == b
  {
    if a != [] && Bits(a, msbFirst) == Bits(b, msbFirst) {
      var n := |a| - 1;
      AppendInjective(Bits(a[..n], msbFirst), ByteBits(a[n], msbFirst),
                      Bits(b[..n], msbFirst), ByteBits(b[n], msbFirst));
      BitsInjective(a[..n], b[..n], msbFirst);
      ReverseInjective(a[n], b[n]);
    }
  }

  lemma AppendInjective(a: seq<bool>, x: seq<bool>, b: seq<bool>, y: seq<bool>)
    requires |a| == |b| && a + x == b + y
    ensures a == b && x == y
  {
    assert (a + x)[..|a|] == a && (b + y)[..|b|] == b;
    assert (a + x)[|a|..] == x && (b + y)[|b|..] == y;
  }

  lemma PolynomialsHaveConstantTerm()
    ensures XmodemPoly()[15] && ModbusPoly()[15]
  {}

  /** The check value is a function of the message. */
  lemma CheckValuesUnique(data: seq<Octet>, r: Word16, s: Word16)
    ensures IsXmodem(data, r) && IsXmodem(data, s) ==> r == s
    ensures IsModbus(data, r) && IsModbus(data, s) ==> r == s
  {
    ReverseInjective(r, s);
    RemainderIsFeed(Zeros(16), Bits(data, true), r, XmodemPoly());
    RemainderIsFeed(Zeros(16), Bits(data, true), s, XmodemPoly());
    RemainderIsFeed(Ones(), Bits(data, false), Reverse(r), ModbusPoly());
    RemainderIsFeed(Ones(), Bits(data, false), Reverse(s), ModbusPoly());
  }

  /** Any damage confined to two consecutive bytes changes both check values. */
  lemma TwoByteErrorsDetected(head: seq<Octet>, a: seq<Octet>, b: seq<Octet>, tail: seq<Octet>, r: Word16, s: Word16)
    requires |a| == |b| <= 2 && a != b
    ensures IsXmodem(head + a + tail, r) && IsXmodem(head + b + tail, s) ==> r != s
    ensures IsModbus(head + a + tail, r) && IsModbus(head + b + tail, s) ==> r != s
  {
    PolynomialsHaveConstantTerm();
    TwoByteDamage(Zeros(16), head, a, b, tail, true, XmodemPoly());
    TwoByteDamage(Ones(), head, a, b, tail, false, ModbusPoly());
    RemainderIsFeed(Zeros(16), Bits(head + a + tail, true), r, XmodemPoly());
    RemainderIsFeed(Zeros(16), Bits(head + b + tail, true), s, XmodemPoly());
    RemainderIsFeed(Ones(), Bits(head + a + tail, false), Reverse(r), ModbusPoly());
    RemainderIsFeed(Ones(), Bits(head + b + tail, false), Reverse(s), ModbusPoly());
  }

  lemma TwoByteDamage(r: Word16, head: seq<Octet>, a: seq<Octet>, b: seq<Octet>, tail: seq<Octet>, msbFirst: bool,
                      p: Word16)
    requires p[15]
    requires |a| == |b| <= 2 && a != b
    ensures Feed(r, Bits(head + a + tail, msbFirst), p) != Feed(r, Bits(head + b + tail, msbFirst), p)
  {
    BitsAppend(head + a, tail, msbFirst);
    BitsAppend(head + b, tail, msbFirst);
    BitsAppend(head, a, msbFirst);
    BitsAppend(head, b, msbFirst);
    BitsInjective(a, b, msbFirst);
    BurstDetected(r, Bits(head, msbFirst), Bits(a, msbFirst), Bits(b, msbFirst), Bits(tail, msbFirst), p);
  }

  /** Two appended bytes bring the xmodem CRC to zero exactly when they are the CRC, high byte first. */
  lemma XmodemAppend(data: seq<Octet>, first: Octet, second: Octet, r: Word16)
    requires IsXmodem(data, r)
    ensures IsXmodem(data + [first, second], Zeros(16)) <==> first == r[..8] && second == r[8..]
  {
    AppendedCheck(Zeros(16), data, first, second, true, XmodemPoly(), r, first + second);
    assert r == r[..8] + r[8..];
    assert (first + second)[..8] == first && (first + second)[8..] == second;
  }

  /** Two appended bytes bring the modbus CRC to zero exactly when they are the CRC, low byte first. */
  lemma ModbusAppend(data: seq<Octet>, first: Octet, second: Octet, r: Word16)
    requires IsModbus(data, r)
    ensures IsModbus(data + [first, second], Zeros(16)) <==> first == r[8..] && second == r[..8]
  {
    AppendedCheck(Ones(), data, first, second, false, ModbusPoly(), Reverse(r), Reverse(first) + Reverse(second));
    assert Reverse(Zeros(16)) == Zeros(16);
    assert Reverse(first) + Reverse(second) == Reverse(second + first);
    ReverseInjective(r, second + first);
    assert r == r[..8] + r[8..];
    assert (second + first)[..8] == second && (second + first)[8..] == first;
  }

  lemma AppendedCheck(init: Word16, data: seq<Octet>, a: Octet, b: Octet, msbFirst: bool, p: Word16, rem: Word16,
                      w: Word16)
    requires p[15]
    requires IsRemainder(Bits(data, msbFirst), init, rem, p)
    requires w == ByteBits(a, msbFirst) + ByteBits(b, msbFirst)
    ensures IsRemainder(Bits(data + [a, b], msbFirst), init, Zeros(16), p) <==> rem == w
  {
    var f := Feed(init, Bits(data, msbFirst), p);
    RemainderIsFeed(init, Bits(data, msbFirst), rem, p);
    RemainderIsFeed(init, Bits(data + [a, b], msbFirst), Zeros(16), p);
    assert data + [a, b] == (data + [a]) + [b];
    FeedByte(init, data + [a], b, msbFirst, p);
    FeedByte(init, data, a, msbFirst, p);
    FeedAppend(f, ByteBits(a, msbFirst), ByteBits(b, msbFirst), p);
    CheckValueClears(f, w, p);
  }

  // ---------- the polynomials and two known texts ----------

  /** The coefficient of x^k, for k below 16. */
  predicate HasTerm(p: Word16, k: nat)
    requires k < 16
  {
    p[15 - k]
  }

  lemma PolynomialTerms(k: nat)
    requires k < 16
    ensures HasTerm(XmodemPoly(), k) <==> k == 12 || k == 5 || k == 0
    ensures HasTerm(ModbusPoly(), k) <==> k == 15 || k == 2 || k == 0
  {}

  lemma {:induction false} ZerosFed(n: nat, p: Word16)
    ensures Feed(Zeros(16), Zeros(n), p) == Zeros(16)
  {
    if n > 0 {
      assert Zeros(n)[..n - 1] == Zeros(n - 1);
      ZerosFed(n - 1, p);
    }
  }

  function Trues(n: nat): seq<bool> {
    seq(n, _ => true)
  }

  /** Ones fed into a register of ones push it out. */
  lemma {:induction false} OnesFed(n: nat, p: Word16)
    requires n <= 16
    ensures Feed(Ones(), Trues(n), p) == Trues(16 - n) + Zeros(n)
  {
    if n == 0 {
      assert Ones() == Trues(16) + Zeros(0);
    } else {
      var r := Trues(17 - n) + Zeros(n - 1);
      assert Trues(n)[..n - 1] == Trues(n - 1);
      OnesFed(n - 1, p);
      assert r[0];
      PlusZeros(ShiftLeft(r));
      assert ShiftLeft(r) == Trues(16 - n) + Zeros(n);
    }
  }

  lemma OneByteBits(b: Octet, msbFirst: bool)
    ensures Bits([b], msbFirst) == ByteBits(b, msbFirst)
  {
    assert Bits([b], msbFirst) == Bits([], msbFirst) + ByteBits(b, msbFirst);
  }

  lemma LastBitFed(p: Word16)
    ensures Feed(Zeros(16), Zeros(7) + [true], p) == p
  {
    assert (Zeros(7) + [true])[..7] == Zeros(7);
    ZerosFed(7, p);
    assert Plus(ShiftLeft(Zeros(16)), Scale(true, p)) == p;
  }

  lemma OneIsLastBit()
    ensures Nibble(0) + Nibble(1) == Zeros(7) + [true]
  {}

  /** The check value of the text of one byte 01 is 1021 hexadecimal. */
  lemma XmodemOfOne()
    ensures IsXmodem([Nibble(0) + Nibble(1)], Hex(1, 0, 2, 1))
  {
    var b: Octet := Nibble(0) + Nibble(1);
    OneByteBits(b, true);
    OneIsLastBit();
    LastBitFed(XmodemPoly());
    RemainderIsFeed(Zeros(16), Bits([b], true), XmodemPoly(), XmodemPoly());
  }

  lemma SevenOnesFed(p: Word16)
    ensures Feed(Ones(), Trues(7) + [false], p) == Plus(Trues(8) + Zeros(8), p)
  {
    assert (Trues(7) + [false])[..7] == Trues(7);
    OnesFed(7, p);
    assert ShiftLeft(Trues(9) + Zeros(7)) == Trues(8) + Zeros(8);
  }

  lemma Reversed7F()
    ensures Reverse(Nibble(7) + Nibble(15)) == Trues(7) + [false]
  {}

  lemma ReversedA0FE()
    ensures Reverse(Hex(10, 0, 15, 14)) == Plus(Trues(8) + Zeros(8), ModbusPoly())
  {}

  /** The check value of the text of one byte 7F is A0FE hexadecimal. */
  lemma ModbusOf7F()
    ensures IsModbus([Nibble(7) + Nibble(15)], Hex(10, 0, 15, 14))
  {
    var b: Octet := Nibble(7) + Nibble(15);
    OneByteBits(b, false);
    Reversed7F();
    SevenOnesFed(ModbusPoly());
    ReversedA0FE();
    RemainderIsFeed(Ones(), Bits([b], false), Reverse(Hex(10, 0, 15, 14)), ModbusPoly());
  }
}
