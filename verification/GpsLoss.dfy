/**
 Which frames of the GPS stream are lost (gw-dev/usb/rak2287.cpp, `gpsRunner`): those longer than 114
 bytes when they start at the wrong place, and those that a frame inside them overtakes.
 */
module GpsLoss {
  import opened Bytes
  import opened NmeaSentence
  import opened GpsFraming
  import opened GpsStream

  // ---------- runs ----------

  lemma {:induction false} NothingFound(parse: Parser, b: seq<Byte>, rd: nat, end: nat)
    requires end <= rd <= |b| && forall p :: rd <= p < |b| ==> parse(b[p..]) == 0
    ensures Frames(parse, b, rd) == [] && LastEnd(parse, b, rd, end) == end
    decreases |b| - rd
  {
    if rd < |b| { NothingFound(parse, b, rd + 1, end); }
  }

  lemma RunNext(parse: Parser, before: seq<seq<Byte>>, chunk: seq<Byte>)
    ensures Run(parse, before + [chunk]) == Step(parse, Run(parse, before), chunk)
  {
    assert (before + [chunk])[..|before|] == before;
  }

  // ---------- long frames ----------

  /** The byte `x` starts no frame. */
  ghost predicate NoStart(parse: Parser, x: Byte) {
    forall w :: w != [] && w[0] == x ==> parse(w) == 0
  }

  /** `g` is a frame, and no proper piece of it starts with one. */
  predicate Solitary(parse: Parser, g: seq<Byte>) {
    parse(g) == |g| && forall p, q :: 0 <= p <= q <= |g| && q - p < |g| ==> parse(g[p..q]) == 0
  }

  /** Reads of one byte each. */
  function Singles(s: seq<Byte>): (r: seq<seq<Byte>>)
    ensures Reads(r)
  {
    seq(|s|, i requires 0 <= i < |s| => [s[i]])
  }

  lemma {:induction false} SinglesConcat(s: seq<Byte>)
    ensures Concat(Singles(s)) == s
  {
    if s != [] {
      assert Singles(s)[1..] == Singles(s[1..]);
      SinglesConcat(s[1..]);
    }
  }

  lemma SinglesNext(parse: Parser, s: seq<Byte>, r: nat)
    requires r < |s|
    ensures Run(parse, Singles(s[..r + 1])) == Step(parse, Run(parse, Singles(s[..r])), [s[r]])
  {
    assert Singles(s[..r + 1]) == Singles(s[..r]) + [[s[r]]];
    RunNext(parse, Singles(s[..r]), [s[r]]);
  }

  /** Seven bytes that start no frame, and a frame. */
  function Delayed(x: Byte, g: seq<Byte>): seq<Byte> {
    [x, x, x, x, x, x, x] + g
  }

  /** Only the whole frame at offset 7 is found in pieces of `s`. */
  ghost predicate QuietPieces(parse: Parser, s: seq<Byte>) {
    forall from, to :: 0 <= from <= to <= |s| && (from > 7 || to < |s|) ==> Quiet(parse, s[from..to])
  }

  lemma StartIsQuiet(parse: Parser, x: Byte, s: seq<Byte>, g: seq<Byte>, a: nat, to: nat)
    requires NoStart(parse, x) && Solitary(parse, g) && |s| == 7 + |g| && g == s[7..]
    requires forall i :: 0 <= i < 7 ==> s[i] == x
    requires a < to <= |s| && (a != 7 || to < |s|)
    ensures parse(s[a..to]) == 0
  {
    if a < 7 {
      assert s[a..to][0] == x;
    } else {
      PieceOfTail(s, g, a, to);
      assert parse(g[a - 7..to - 7]) == 0;
    }
  }

  lemma PieceOfTail(s: seq<Byte>, g: seq<Byte>, a: nat, to: nat)
    requires |s| >= 7 && g == s[7..] && 7 <= a <= to <= |s|
    ensures s[a..to] == g[a - 7..to - 7]
  {}

  lemma PieceOfPiece(s: seq<Byte>, from: nat, to: nat, p: nat)
    requires from + p <= to <= |s|
    ensures s[from..to][p..] == s[from + p..to]
  {}

  lemma PieceIsQuiet(parse: Parser, x: Byte, s: seq<Byte>, g: seq<Byte>, from: nat, to: nat)
    requires NoStart(parse, x) && Solitary(parse, g) && |s| == 7 + |g| && g == s[7..]
    requires forall i :: 0 <= i < 7 ==> s[i] == x
    requires from <= to <= |s| && (from > 7 || to < |s|)
    ensures Quiet(parse, s[from..to])
  {
    forall p | 0 <= p < to - from ensures parse(s[from..to][p..]) == 0 {
      PieceOfPiece(s, from, to, p);
      StartIsQuiet(parse, x, s, g, from + p, to);
    }
  }

  lemma PiecesAreQuiet(parse: Parser, x: Byte, s: seq<Byte>, g: seq<Byte>)
    requires NoStart(parse, x) && Solitary(parse, g) && |s| == 7 + |g| && g == s[7..]
    requires forall i :: 0 <= i < 7 ==> s[i] == x
    ensures QuietPieces(parse, s)
  {
    forall from, to | 0 <= from <= to <= |s| && (from > 7 || to < |s|) ensures Quiet(parse, s[from..to]) {
      PieceIsQuiet(parse, x, s, g, from, to);
    }
  }

  /** Nothing was accepted in `r` bytes, and from byte 121 on the first eight bytes are gone. */
  predicate Late(st: Stream, r: nat) {
    && st.accepted == []
    && (if r <= BUFFER_SIZE - MIN_MSG_SIZE then |st.buffer| == r else |st.buffer| <= r - MIN_MSG_SIZE)
  }

  lemma QuietStep(parse: Parser, st: Stream, c: Byte)
    requires Quiet(parse, st.buffer + [c])
    ensures Step(parse, st, [c]) == Stream(st.received + [c], Trimmed(st.buffer + [c]), st.accepted)
  {
    var full := st.buffer + [c];
    NothingFound(parse, full, 0, 0);
    assert full[0..] == full;
    assert st.accepted + Shifted([], Base(st)) == st.accepted;
  }

  lemma LateStep(parse: Parser, st: Stream, c: Byte, r: nat)
    requires Late(st, r) && |st.buffer| <= BUFFER_SIZE - MIN_MSG_SIZE && Quiet(parse, st.buffer + [c])
    ensures Late(Step(parse, st, [c]), r + 1)
  {
    QuietStep(parse, st, c);
  }

  lemma BufferIsPiece(b: seq<Byte>, s: seq<Byte>, r: nat)
    requires r < |s| && IsSuffix(b, s[..r])
    ensures |b| <= r && b + [s[r]] == s[r - |b|..r + 1]
  {}

  lemma {:induction false} LateRun(parse: Parser, s: seq<Byte>, r: nat)
    requires QuietPieces(parse, s) && |s| > 7 + LONGEST_FRAME && r <= |s|
    ensures Late(Run(parse, Singles(s[..r])), r)
  {
    if r > 0 {
      var k := r - 1;
      var st := Run(parse, Singles(s[..k]));
      LateRun(parse, s, k);
      StreamIsSafe(parse, Singles(s[..k]));
      SinglesConcat(s[..k]);
      SinglesNext(parse, s, k);
      BufferIsPiece(st.buffer, s, k);
      LateStep(parse, st, s[k], k);
    }
  }

  /**
   Every frame of more than 114 bytes that holds no other frame is lost when it starts at offset 7 and
   the bytes come one by one.
   */
  lemma LongFrameLost(parse: Parser, x: Byte, g: seq<Byte>)
    requires NoStart(parse, x) && Solitary(parse, g) && |g| > LONGEST_FRAME
    ensures var s, chunks := Delayed(x, g), Singles(Delayed(x, g));
            && Concat(chunks) == s && HoldsFrame(parse, s, Span(7, 7 + |g|)) && Run(parse, chunks).accepted == []
  {
    LongFrameLostIn(parse, x, Delayed(x, g), g);
  }

  lemma LongFrameLostIn(parse: Parser, x: Byte, s: seq<Byte>, g: seq<Byte>)
    requires NoStart(parse, x) && Solitary(parse, g) && |g| > LONGEST_FRAME
    requires |s| == 7 + |g| && g == s[7..] && forall i :: 0 <= i < 7 ==> s[i] == x
    ensures Concat(Singles(s)) == s && HoldsFrame(parse, s, Span(7, 7 + |g|)) && Run(parse, Singles(s)).accepted == []
  {
    SinglesConcat(s);
    PiecesAreQuiet(parse, x, s, g);
    LateToTheEnd(parse, s);
    HeldAtSeven(parse, s, g);
  }

  lemma HeldAtSeven(parse: Parser, s: seq<Byte>, g: seq<Byte>)
    requires g != [] && parse(g) == |g| && |s| == 7 + |g| && g == s[7..]
    ensures HoldsFrame(parse, s, Span(7, 7 + |g|))
  {
    assert s[7..7 + |g|] == g;
  }

  lemma LateToTheEnd(parse: Parser, s: seq<Byte>)
    requires QuietPieces(parse, s) && |s| > 7 + LONGEST_FRAME
    ensures Run(parse, Singles(s)).accepted == []
  {
    LateRun(parse, s, |s|);
    assert s[..|s|] == s;
  }

  // UBX messages of every length above 114 that hold no other frame.

  /** Class and identifier 0 and a payload of ones. */
  function LongMessage(k: nat): seq<Byte>
    requires k < 65536
  {
    UbxMessage(0, 0, seq(k, _ => 0xFF))
  }

  predicate IsLong(g: seq<Byte>, k: nat) {
    && 100 < k && |g| == 8 + k && g[..4] == [UBX_SYNC, UBX_SYNC2, 0, 0] && Le16(g[4], g[5]) == k
    && forall i :: 6 <= i < 6 + k ==> g[i] == 0xFF
  }

  lemma LongMessageIs(k: nat)
    requires 100 < k < 65536
    ensures IsLong(LongMessage(k), k) && UbxFrame(LongMessage(k)) == 8 + k
  {
    var p := seq(k, _ => 0xFF);
    UbxFound(0, 0, p, []);
    assert LongMessage(k) + [] == LongMessage(k);
  }

  lemma NoOtherUbx(g: seq<Byte>, k: nat, p: nat, q: nat)
    requires IsLong(g, k) && p <= q <= |g| && q - p < |g|
    ensures UbxFrame(g[p..q]) == 0
  {
    assert k < 65536;
    var w := g[p..q];
    assert g[..4][2] == 0 && g[..4][3] == 0;
    if |w| >= 8 && w[0] == UBX_SYNC && w[1] == UBX_SYNC2 {
      assert p == 0 || p == 4;
      assert Le16(w[4], w[5]) == if p == 0 then k else 65535;
    }
  }

  /** A '*' with two bytes and more behind it that may be digits. */
  predicate HasStar(w: seq<Byte>) {
    exists j :: 0 < j < |w| - 3 && w[j] == STAR && w[j + 2] != 0xFF
  }

  lemma StarOfSentence(s: seq<Byte>, text: seq<Byte>, rest: seq<Byte>)
    requires Fits(text, rest) && s == Sentence(text, rest)
    ensures |text| + 4 < |s| && s[1 + |text|] == STAR && s[3 + |text|] != 0xFF
  {}

  lemma SentenceHasStar(w: seq<Byte>)
    requires w != [] && w[0] == NMEA_SYNC
    ensures FrameAt(w) > 0 ==> HasStar(w)
  {
    if FrameAt(w) > 0 {
      OnlyNmeaFound(w);
      var text: seq<Byte>, rest: seq<Byte> :|
        Fits(text, rest) && IsLine(text, rest) && w[..FrameAt(w)] == Sentence(text, rest);
      StarOfSentence(w[..FrameAt(w)], text, rest);
      assert w[1 + |text|] == STAR && w[1 + |text| + 2] != 0xFF;
    }
  }

  lemma NoStarInLong(g: seq<Byte>, k: nat, p: nat, q: nat)
    requires IsLong(g, k) && p <= q <= |g|
    ensures !HasStar(g[p..q])
  {
    var w := g[p..q];
    assert g[..4][0] == g[0] && g[..4][1] == g[1] && g[..4][2] == g[2] && g[..4][3] == g[3];
    forall j | 0 < j < |w| - 3 ensures w[j] != STAR || w[j + 2] == 0xFF {
      assert w[j] == g[p + j] && w[j + 2] == g[p + j + 2];
    }
  }

  lemma NoSentence(g: seq<Byte>, k: nat, p: nat, q: nat)
    requires IsLong(g, k) && p < q <= |g| && g[p] == NMEA_SYNC
    ensures FrameAt(g[p..q]) == 0
  {
    SentenceHasStar(g[p..q]);
    NoStarInLong(g, k, p, q);
  }

  lemma NoOtherFrame(g: seq<Byte>, k: nat, p: nat, q: nat)
    requires IsLong(g, k) && p <= q <= |g| && q - p < |g|
    ensures FrameAt(g[p..q]) == 0
  {
    NoOtherUbx(g, k, p, q);
    if p < q && g[p] == NMEA_SYNC { NoSentence(g, k, p, q); }
  }

  lemma LongMessageIsSolitary(k: nat)
    requires 100 < k < 65536
    ensures Solitary(GpsParser(), LongMessage(k)) && |LongMessage(k)| == 8 + k
  {
    var g := LongMessage(k);
    LongMessageIs(k);
    assert FrameAt(g) == |g|;
    forall p, q | 0 <= p <= q <= |g| && q - p < |g| ensures FrameAt(g[p..q]) == 0 {
      NoOtherFrame(g, k, p, q);
    }
  }

  /** Some reads lose a frame of `n` bytes: no accepted frame meets it. */
  ghost predicate Loses(n: nat) {
    exists chunks: seq<seq<Byte>>, f: Span ::
      && Reads(chunks) && HoldsFrame(GpsParser(), Concat(chunks), f) && f.to - f.from == n
      && !Hit(Run(GpsParser(), chunks).accepted, f)
  }

  lemma LosesSolitary(g: seq<Byte>)
    requires Solitary(GpsParser(), g) && |g| > LONGEST_FRAME
    ensures Loses(|g|)
  {
    assert NoStart(GpsParser(), 0);
    LongFrameLost(GpsParser(), 0, g);
    LosesBy(Singles(Delayed(0, g)), Span(7, 7 + |g|));
  }

  lemma LosesBy(chunks: seq<seq<Byte>>, f: Span)
    requires Reads(chunks) && HoldsFrame(GpsParser(), Concat(chunks), f) && Run(GpsParser(), chunks).accepted == []
    ensures Loses(f.to - f.from)
  {
    assert !Hit(Run(GpsParser(), chunks).accepted, f);
  }

  /** The bound is exact: frames of `n` bytes can be lost if and only if `n` is above 114 and such frames exist. */
  lemma LossIffLong(n: nat)
    ensures Loses(n) <==> 114 < n <= 65543
  {
    if LONGEST_FRAME < n <= 65543 {
      LongMessageIsSolitary(n - 8);
      LosesSolitary(LongMessage(n - 8));
    }
    LibraryParser();
    forall chunks: seq<seq<Byte>>, f: Span
      | Reads(chunks) && HoldsFrame(GpsParser(), Concat(chunks), f) && f.to - f.from == n
      ensures n <= 65543 && (n <= LONGEST_FRAME ==> Hit(Run(GpsParser(), chunks).accepted, f))
    {
      FrameSize(Concat(chunks)[f.from..f.to]);
      if n <= LONGEST_FRAME { NoFrameLost(GpsParser(), chunks, f); }
    }
  }

  // ---------- a frame inside a frame ----------

  lemma OneFound(parse: Parser, b: seq<Byte>)
    requires |b| > 1 && parse(b) == 0 && parse(b[1..]) == |b| - 1
    ensures Frames(parse, b, 0) == [Span(1, |b|)] && LastEnd(parse, b, 0, 0) == |b|
  {
    assert b[0..] == b;
    assert Frames(parse, b, 1) == [Span(1, |b|)] + Frames(parse, b, |b|);
  }

  lemma FirstRead(parse: Parser, a: seq<Byte>)
    requires 0 < |a| <= MIN_MSG_SIZE && Quiet(parse, a)
    ensures Step(parse, Stream([], [], []), a) == Stream(a, a, [])
  {
    NothingFound(parse, a, 0, 0);
    assert [] + a == a && a[0..] == a;
  }

  lemma SecondRead(parse: Parser, a: seq<Byte>, b: seq<Byte>)
    requires b != [] && |a + b| > 1 && parse(a + b) == 0 && parse((a + b)[1..]) == |a + b| - 1
    ensures Step(parse, Stream(a, a, []), b) == Stream(a + b, [], [Span(1, |a + b|)])
  {
    OneFound(parse, a + b);
    assert Shifted([Span(1, |a + b|)], 0) == [Span(1, |a + b|)];
  }

  lemma ThirdRead(parse: Parser, s: seq<Byte>, found: seq<Span>, c: seq<Byte>)
    requires c != [] && Quiet(parse, c)
    ensures Step(parse, Stream(s, [], found), c).accepted == found
  {
    assert [] + c == c;
    NothingFound(parse, c, 0, 0);
    assert found + Shifted([], |s|) == found;
  }

  /**
   When a frame arrives in pieces, a frame inside it may be complete first.  It is accepted then, and the
   outer frame is lost although no accepted frame holds its start.
   */
  lemma InnerFrameWins(parse: Parser, a: seq<Byte>, b: seq<Byte>, c: seq<Byte>)
    requires Reads([a, b, c]) && a != [] && b != [] && c != [] && Quiet(parse, a) && Quiet(parse, c)
    requires parse(a + b) == 0 && parse((a + b)[1..]) == |a + b| - 1
    requires parse(a + b + c) == |a + b + c|
    ensures Concat([a, b, c]) == a + b + c && HoldsFrame(parse, a + b + c, Span(0, |a + b + c|))
    ensures Run(parse, [a, b, c]).accepted == [Span(1, |a + b|)]
  {
    assert Reads([a, b, c]) ==> |[a, b, c][0]| <= MIN_MSG_SIZE;
    ConcatOfThree(a, b, c);
    assert (a + b + c)[0..|a + b + c|] == a + b + c;
    FirstRead(parse, a);
    SecondRead(parse, a, b);
    ThirdRead(parse, a + b, [Span(1, |a + b|)], c);
    RunOfThree(parse, a, b, c);
  }

  lemma ConcatOfThree(a: seq<Byte>, b: seq<Byte>, c: seq<Byte>)
    ensures Concat([a, b, c]) == a + b + c
  {
    assert [a, b, c][1..] == [b, c] && [b, c][1..] == [c];
    ConcatSingle(c);
  }

  lemma RunOfThree(parse: Parser, a: seq<Byte>, b: seq<Byte>, c: seq<Byte>)
    ensures Run(parse, [a, b, c]) == Step(parse, Step(parse, Step(parse, Stream([], [], []), a), b), c)
  {
    RunNext(parse, [], a);
    RunNext(parse, [a], b);
    RunNext(parse, [a, b], c);
    assert [] + [a] == [a] && [a] + [b] == [a, b] && [a, b] + [c] == [a, b, c];
  }

  // An NMEA sentence that holds a whole UBX message of eight bytes, arriving in three reads.

  /** A UBX message of eight bytes with nothing in it that starts or ends a sentence or its checksum. */
  predicate IsInner(m: seq<Byte>) {
    && |m| == 8 && m[0] == UBX_SYNC && UbxFrame(m) == 8 && Free(m, LF) && Free(m, STAR)
    && Free(m[1..], UBX_SYNC) && Free(m[1..], NMEA_SYNC)
  }

  /** The end of the sentence around `m`: checksum, carriage return and line feed. */
  function Ending(m: seq<Byte>): seq<Byte> {
    [STAR, HexChar(XorAll(m) / 16), HexChar(XorAll(m) % 16), CR, LF]
  }

  /** Bytes that start no frame. */
  predicate NoSync(w: seq<Byte>) {
    Free(w, UBX_SYNC) && Free(w, NMEA_SYNC)
  }

  lemma NoSyncIsQuiet(w: seq<Byte>)
    requires NoSync(w)
    ensures Quiet(GpsParser(), w)
  {
    forall p | 0 <= p < |w| ensures FrameAt(w[p..]) == 0 { assert w[p..][0] == w[p]; }
  }

  lemma OpenNmea(w: seq<Byte>)
    requires w != [] && w[0] == NMEA_SYNC && Free(w, LF)
    ensures FrameAt(w) == 0
  {}

  lemma HeadIsQuiet(m: seq<Byte>)
    requires IsInner(m)
    ensures Quiet(GpsParser(), [NMEA_SYNC] + m[..7])
  {
    var a := [NMEA_SYNC] + m[..7];
    assert Free(a, LF) && NoSync(a[2..]);
    forall p | 0 <= p < |a| ensures FrameAt(a[p..]) == 0 {
      if p == 0 {
        OpenNmea(a[p..]);
      } else if p > 1 {
        assert a[p..][0] == a[2..][p - 2];
      }
    }
  }

  lemma OuterFrame(m: seq<Byte>)
    requires IsInner(m)
    ensures FrameAt([NMEA_SYNC] + m + Ending(m)) == 14
  {
    var w := Sentence(m, [CR, LF]);
    assert w == [NMEA_SYNC] + m + Ending(m);
    NmeaFound(m, [CR, LF], []);
    assert w + [] == w;
  }

  lemma EndIsQuiet(m: seq<Byte>)
    ensures Quiet(GpsParser(), Ending(m))
  {
    NoSyncIsQuiet(Ending(m));
  }

  lemma MessageStillOpen(m: seq<Byte>)
    requires IsInner(m)
    ensures FrameAt([NMEA_SYNC] + m) == 0 && FrameAt(m) == 8
  {
    assert Free([NMEA_SYNC] + m, LF);
    OpenNmea([NMEA_SYNC] + m);
  }

  lemma Pieces(m: seq<Byte>, a: seq<Byte>, b: seq<Byte>, c: seq<Byte>)
    requires |m| == 8 && a == [NMEA_SYNC] + m[..7] && b == m[7..] && c == Ending(m)
    ensures a + b == [NMEA_SYNC] + m && (a + b)[1..] == m && a + b + c == [NMEA_SYNC] + m + Ending(m)
    ensures |a| == 8 && |b| == 1 && |c| == 5 && Reads([a, b, c])
  {}

  /**
   With the program's recogniser the sentence of fourteen bytes around such a message is lost to the
   message: the message is complete first, and is accepted.
   */
  lemma SentenceLostToMessage(m: seq<Byte>)
    requires IsInner(m)
    ensures var a, b, c := [NMEA_SYNC] + m[..7], m[7..], Ending(m);
            && HoldsFrame(GpsParser(), a + b + c, Span(0, 14))
            && Run(GpsParser(), [a, b, c]).accepted == [Span(1, 9)]
  {
    HeadIsQuiet(m);
    EndIsQuiet(m);
    MessageStillOpen(m);
    OuterFrame(m);
    LostInPieces(m, [NMEA_SYNC] + m[..7], m[7..], Ending(m));
  }

  lemma LostInPieces(m: seq<Byte>, a: seq<Byte>, b: seq<Byte>, c: seq<Byte>)
    requires |m| == 8 && a == [NMEA_SYNC] + m[..7] && b == m[7..] && c == Ending(m)
    requires Quiet(GpsParser(), a) && Quiet(GpsParser(), c) && FrameAt([NMEA_SYNC] + m) == 0 && FrameAt(m) == 8
    requires FrameAt([NMEA_SYNC] + m + Ending(m)) == 14
    ensures HoldsFrame(GpsParser(), a + b + c, Span(0, 14))
    ensures Run(GpsParser(), [a, b, c]).accepted == [Span(1, 9)]
  {
    Pieces(m, a, b, c);
    InnerFrameWins(GpsParser(), a, b, c);
  }

  lemma MessageSums()
    ensures Fletcher([1, 1, 0, 0]) == (2, 7)
  {
    FletcherNext([], 1, 0, 0);
    FletcherNext([1], 1, 1, 1);
    FletcherNext([1, 1], 0, 2, 3);
    FletcherNext([1, 1, 0], 0, 2, 5);
    assert [] + [1] == [1] && [1] + [1] == [1, 1] && [1, 1] + [0] == [1, 1, 0] && [1, 1, 0] + [0] == [1, 1, 0, 0];
  }

  lemma EmptyMessage(m: seq<Byte>, a: Byte, b: Byte)
    requires |m| == 8 && m[0] == UBX_SYNC && m[1] == UBX_SYNC2 && m[4] == 0 && m[5] == 0
    requires Fletcher(m[2..6]) == (a, b) && m[6] == a && m[7] == b
    ensures UbxFrame(m) == 8
  {}

  /** A message of class 1 and identifier 1 without payload is one. */
  lemma InnerMessage()
    ensures IsInner([0xB5, 0x62, 1, 1, 0, 0, 2, 7])
  {
    var m := [0xB5, 0x62, 1, 1, 0, 0, 2, 7];
    assert m[2..6] == [1, 1, 0, 0];
    MessageSums();
    EmptyMessage(m, 2, 7);
  }
}
