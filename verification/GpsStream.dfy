/**
 The GPS receiver's serial stream (gw-dev/usb/rak2287.cpp, `gpsRunner`): a 128-byte buffer that is
 filled by small reads, scanned for frames, and emptied from the front.
 */
module GpsStream {
  import opened Bytes
  import opened NmeaSentence
  import opened GpsFraming

  const BUFFER_SIZE := 128
  const MIN_MSG_SIZE := 8

  /** A frame recogniser: the size of the frame a byte string starts with, or 0; frames lie in the bytes given. */
  type Parser = p: seq<Byte> -> nat | IsParser(p)
    ghost witness w => 0

  ghost predicate IsParser(p: seq<Byte> -> nat) {
    forall w :: p(w) <= |w|
  }

  /** Whether a frame is accepted depends on its own bytes only. */
  ghost predicate SelfContained(parse: Parser) {
    forall w :: parse(w) > 0 ==> parse(w[..parse(w)]) == parse(w)
  }

  /** A frame stays accepted when more bytes arrive behind it. */
  ghost predicate Stable(parse: Parser) {
    forall w, x :: parse(w) > 0 ==> parse(w + x) == parse(w)
  }

  /** A half-open interval of positions. */
  datatype Span = Span(from: nat, to: nat)

  // ---------- one pass over the buffer ----------

  /** Frames found from index `rd` on, as half-open intervals of the buffer. */
  function Frames(parse: Parser, b: seq<Byte>, rd: nat): seq<Span>
    requires rd <= |b|
    decreases |b| - rd
  {
    if rd == |b| then []
    else
      var n := parse(b[rd..]);
      if n > 0 then [Span(rd, rd + n)] + Frames(parse, b, rd + n) else Frames(parse, b, rd + 1)
  }

  /** End of the last frame found from `rd` on, or `end`. */
  function LastEnd(parse: Parser, b: seq<Byte>, rd: nat, end: nat): (e: nat)
    requires end <= rd <= |b|
    ensures end <= e <= |b|
    decreases |b| - rd
  {
    if rd == |b| then end
    else
      var n := parse(b[rd..]);
      if n > 0 then LastEnd(parse, b, rd + n, rd + n) else LastEnd(parse, b, rd + 1, end)
  }

  /** Spans in order, without overlap, from `low` to `high`. */
  predicate Disjoint(f: seq<Span>, low: nat, high: nat) {
    if f == [] then low <= high
    else low <= f[0].from < f[0].to && Disjoint(f[1..], f[0].to, high)
  }

  /** The bytes of `s` in the span are one accepted frame. */
  predicate HoldsFrame(parse: Parser, s: seq<Byte>, f: Span) {
    f.from < f.to <= |s| && parse(s[f.from..f.to]) == f.to - f.from
  }

  predicate AllFrames(parse: Parser, s: seq<Byte>, f: seq<Span>) {
    forall i :: 0 <= i < |f| ==> HoldsFrame(parse, s, f[i])
  }

  lemma {:induction false} PassIsOrdered(parse: Parser, b: seq<Byte>, rd: nat, end: nat)
    requires end <= rd <= |b|
    ensures Disjoint(Frames(parse, b, rd), end, LastEnd(parse, b, rd, end))
    decreases |b| - rd
  {
    if rd < |b| {
      var n := parse(b[rd..]);
      if n > 0 {
        PassIsOrdered(parse, b, rd + n, rd + n);
        assert ([Span(rd, rd + n)] + Frames(parse, b, rd + n))[1..] == Frames(parse, b, rd + n);
      } else {
        PassIsOrdered(parse, b, rd + 1, end);
      }
    }
  }

  lemma FrameHeld(parse: Parser, b: seq<Byte>, rd: nat)
    requires SelfContained(parse) && rd <= |b| && parse(b[rd..]) > 0
    ensures HoldsFrame(parse, b, Span(rd, rd + parse(b[rd..])))
  {
    assert b[rd..][..parse(b[rd..])] == b[rd..rd + parse(b[rd..])];
  }

  lemma {:induction false} PassFrames(parse: Parser, b: seq<Byte>, rd: nat)
    requires SelfContained(parse) && rd <= |b|
    ensures AllFrames(parse, b, Frames(parse, b, rd))
    decreases |b| - rd
  {
    if rd < |b| {
      var n := parse(b[rd..]);
      if n > 0 {
        PassFrames(parse, b, rd + n);
        FrameHeld(parse, b, rd);
      } else {
        PassFrames(parse, b, rd + 1);
      }
    }
  }

  /** No position of `b` starts an acceptable frame. */
  predicate Quiet(parse: Parser, b: seq<Byte>) {
    forall p :: 0 <= p < |b| ==> parse(b[p..]) == 0
  }

  /** Whatever lies behind the last frame found holds no frame. */
  lemma {:induction false} PassIsComplete(parse: Parser, b: seq<Byte>, rd: nat, end: nat)
    requires end <= rd <= |b|
    requires forall p :: end <= p < rd ==> parse(b[p..]) == 0
    ensures forall p :: LastEnd(parse, b, rd, end) <= p < |b| ==> parse(b[p..]) == 0
    decreases |b| - rd
  {
    if rd < |b| {
      var n := parse(b[rd..]);
      if n > 0 { PassIsComplete(parse, b, rd + n, rd + n); } else { PassIsComplete(parse, b, rd + 1, end); }
    }
  }

  // ---------- one turn of the loop, and whole runs ----------

  /** The buffer after a read of `chunk`; an empty chunk is a failed read. */
  function Next(parse: Parser, b: seq<Byte>, chunk: seq<Byte>): seq<Byte> {
    if chunk == [] then b
    else
      Trimmed((b + chunk)[LastEnd(parse, b + chunk, 0, 0)..])
  }

  /** A buffer without room for a full read loses its oldest bytes. */
  function Trimmed(kept: seq<Byte>): seq<Byte> {
    if BUFFER_SIZE - |kept| < MIN_MSG_SIZE && |kept| >= MIN_MSG_SIZE then kept[MIN_MSG_SIZE..] else kept
  }

  predicate Reads(chunks: seq<seq<Byte>>) {
    forall i :: 0 <= i < |chunks| ==> |chunks[i]| <= MIN_MSG_SIZE
  }

  function Moved(f: Span, d: nat): Span { Span(f.from + d, f.to + d) }

  function Shifted(f: seq<Span>, d: nat): seq<Span> {
    seq(|f|, i requires 0 <= i < |f| => Moved(f[i], d))
  }

  predicate IsSuffix(b: seq<Byte>, s: seq<Byte>) {
    |b| <= |s| && b == s[|s| - |b|..]
  }

  /** Everything received, the buffer, and the accepted frames as spans of what was received. */
  datatype Stream = Stream(received: seq<Byte>, buffer: seq<Byte>, accepted: seq<Span>)

  /** Stream position of the first byte of the buffer. */
  function Base(st: Stream): nat {
    if |st.received| >= |st.buffer| then |st.received| - |st.buffer| else 0
  }

  function Step(parse: Parser, st: Stream, chunk: seq<Byte>): Stream {
    if chunk == [] then st
    else
      Stream(st.received + chunk, Next(parse, st.buffer, chunk),
             st.accepted + Shifted(Frames(parse, st.buffer + chunk, 0), Base(st)))
  }

  function Run(parse: Parser, chunks: seq<seq<Byte>>): Stream {
    if chunks == [] then Stream([], [], []) else Step(parse, Run(parse, chunks[..|chunks| - 1]), chunks[|chunks| - 1])
  }

  lemma NextKeeps(parse: Parser, b: seq<Byte>, chunk: seq<Byte>)
    requires |b| <= BUFFER_SIZE - MIN_MSG_SIZE && |chunk| <= MIN_MSG_SIZE && Quiet(parse, b)
    ensures |Next(parse, b, chunk)| <= BUFFER_SIZE - MIN_MSG_SIZE
    ensures IsSuffix(Next(parse, b, chunk), b + chunk)
    ensures Quiet(parse, Next(parse, b, chunk))
    ensures chunk != [] ==> LastEnd(parse, b + chunk, 0, 0) <= |b + chunk| - |Next(parse, b, chunk)|
  {
    if chunk != [] {
      var full, next := b + chunk, Next(parse, b, chunk);
      var e := LastEnd(parse, full, 0, 0);
      PassIsComplete(parse, full, 0, 0);
      var d := |full| - |next|;
      assert next == full[d..];
      forall p | 0 <= p < |next| ensures parse(next[p..]) == 0 {
        assert next[p..] == full[d + p..];
      }
    }
  }

  /** The buffer leaves room for a read, is the end of what was received, and holds no frame. */
  predicate GoodBuffer(parse: Parser, st: Stream) {
    |st.buffer| <= BUFFER_SIZE - MIN_MSG_SIZE && IsSuffix(st.buffer, st.received) && Quiet(parse, st.buffer)
  }

  /** What holds at the head of the loop; the accepted frames lie in order in front of the buffer. */
  predicate Good(parse: Parser, st: Stream) {
    GoodBuffer(parse, st) && Disjoint(st.accepted, 0, Base(st))
  }

  lemma StepKeepsBuffer(parse: Parser, st: Stream, chunk: seq<Byte>)
    requires GoodBuffer(parse, st) && |chunk| <= MIN_MSG_SIZE
    ensures GoodBuffer(parse, Step(parse, st, chunk))
  {
    if chunk != [] {
      NextKeeps(parse, st.buffer, chunk);
      SuffixNext(st.received, st.buffer, chunk, Next(parse, st.buffer, chunk));
    }
  }

  lemma StepKeepsOrder(parse: Parser, st: Stream, chunk: seq<Byte>)
    requires IsSuffix(st.buffer, st.received) && Disjoint(st.accepted, 0, Base(st)) && chunk != []
    requires |Next(parse, st.buffer, chunk)| <= |st.buffer + chunk|
    requires LastEnd(parse, st.buffer + chunk, 0, 0) <= |st.buffer + chunk| - |Next(parse, st.buffer, chunk)|
    ensures Disjoint(Step(parse, st, chunk).accepted, 0, Base(Step(parse, st, chunk)))
  {
    OrderNext(parse, st.accepted, st.buffer, chunk, Base(st), Next(parse, st.buffer, chunk));
  }

  lemma StepIsSafe(parse: Parser, st: Stream, chunk: seq<Byte>)
    requires Good(parse, st) && |chunk| <= MIN_MSG_SIZE
    ensures Good(parse, Step(parse, st, chunk))
  {
    if chunk != [] {
      NextKeeps(parse, st.buffer, chunk);
      StepKeepsBuffer(parse, st, chunk);
      StepKeepsOrder(parse, st, chunk);
    }
  }

  /**
   In every run there is room for a full read, the buffer is the latest part of the stream and holds
   no frame, and the accepted frames are disjoint pieces of the stream in front of it; this holds for
   any recogniser whose frames lie in the bytes given.
   */
  lemma {:induction false} StreamIsSafe(parse: Parser, chunks: seq<seq<Byte>>)
    requires Reads(chunks)
    ensures Good(parse, Run(parse, chunks)) && Run(parse, chunks).received == Concat(chunks)
  {
    if chunks != [] {
      var before, chunk := chunks[..|chunks| - 1], chunks[|chunks| - 1];
      StreamIsSafe(parse, before);
      StepIsSafe(parse, Run(parse, before), chunk);
      assert chunks == before + [chunk];
      ConcatAppend(before, [chunk]);
      ConcatSingle(chunk);
    }
  }

  lemma StepKeepsFrames(parse: Parser, st: Stream, chunk: seq<Byte>)
    requires SelfContained(parse) && IsSuffix(st.buffer, st.received) && chunk != []
    requires AllFrames(parse, st.received, st.accepted)
    ensures AllFrames(parse, Step(parse, st, chunk).received, Step(parse, st, chunk).accepted)
  {
    FramesNext(parse, st.received, st.accepted, st.buffer, chunk, Base(st));
  }

  /** The accepted frames are frames by their own bytes. */
  lemma {:induction false} StreamFrames(parse: Parser, chunks: seq<seq<Byte>>)
    requires SelfContained(parse) && Reads(chunks)
    ensures AllFrames(parse, Concat(chunks), Run(parse, chunks).accepted)
  {
    StreamIsSafe(parse, chunks);
    if chunks != [] {
      var before, chunk := chunks[..|chunks| - 1], chunks[|chunks| - 1];
      StreamFrames(parse, before);
      StreamIsSafe(parse, before);
      if chunk != [] { StepKeepsFrames(parse, Run(parse, before), chunk); }
    }
  }

  lemma SuffixNext(s: seq<Byte>, b: seq<Byte>, chunk: seq<Byte>, next: seq<Byte>)
    requires IsSuffix(b, s) && IsSuffix(next, b + chunk)
    ensures IsSuffix(next, s + chunk)
  {
    var d := |s| - |b|;
    assert b + chunk == (s + chunk)[d..];
  }

  lemma {:induction false} Chain(a: seq<Span>, b: seq<Span>, low: nat, mid: nat, high: nat)
    requires Disjoint(a, low, mid) && Disjoint(b, mid, high)
    ensures Disjoint(a + b, low, high)
  {
    if a == [] {
      assert a + b == b;
      Widen(b, low, mid, high, high);
    } else {
      Chain(a[1..], b, a[0].to, mid, high);
      assert (a + b)[1..] == a[1..] + b;
    }
  }

  lemma {:induction false} Widen(f: seq<Span>, low: nat, mid: nat, high: nat, top: nat)
    requires low <= mid && high <= top && Disjoint(f, mid, high)
    ensures Disjoint(f, low, top)
  {
    if f != [] { Widen(f[1..], f[0].to, f[0].to, high, top); }
  }

  lemma {:induction false} ShiftOrdered(f: seq<Span>, low: nat, high: nat, d: nat)
    requires Disjoint(f, low, high)
    ensures Disjoint(Shifted(f, d), low + d, high + d)
  {
    if f != [] {
      ShiftOrdered(f[1..], f[0].to, high, d);
      assert Shifted(f, d)[1..] == Shifted(f[1..], d);
    }
  }

  lemma OrderNext(parse: Parser, a: seq<Span>, b: seq<Byte>, chunk: seq<Byte>, base: nat, next: seq<Byte>)
    requires Disjoint(a, 0, base) && |next| <= |b + chunk| && LastEnd(parse, b + chunk, 0, 0) <= |b + chunk| - |next|
    ensures Disjoint(a + Shifted(Frames(parse, b + chunk, 0), base), 0, base + |b + chunk| - |next|)
  {
    var full := b + chunk;
    var f, e := Frames(parse, full, 0), LastEnd(parse, full, 0, 0);
    PassIsOrdered(parse, full, 0, 0);
    ShiftOrdered(f, 0, e, base);
    Chain(a, Shifted(f, base), 0, base, base + e);
    Widen(a + Shifted(f, base), 0, 0, base + e, base + |full| - |next|);
  }

  lemma FramesJoin(parse: Parser, s: seq<Byte>, a: seq<Span>, b: seq<Span>)
    requires AllFrames(parse, s, a) && AllFrames(parse, s, b)
    ensures AllFrames(parse, s, a + b)
  {}

  lemma FramesNext(parse: Parser, s: seq<Byte>, a: seq<Span>, b: seq<Byte>, chunk: seq<Byte>, d: nat)
    requires SelfContained(parse) && IsSuffix(b, s) && AllFrames(parse, s, a) && d == |s| - |b|
    ensures AllFrames(parse, s + chunk, a + Shifted(Frames(parse, b + chunk, 0), d))
  {
    var f := Frames(parse, b + chunk, 0);
    PassFrames(parse, b + chunk, 0);
    FramesStay(parse, s, chunk, a);
    assert b + chunk == (s + chunk)[d..];
    FramesMove(parse, b + chunk, s + chunk, d, f);
    FramesJoin(parse, s + chunk, a, Shifted(f, d));
  }

  lemma FramesStay(parse: Parser, s: seq<Byte>, more: seq<Byte>, f: seq<Span>)
    requires AllFrames(parse, s, f)
    ensures AllFrames(parse, s + more, f)
  {
    forall i | 0 <= i < |f| ensures HoldsFrame(parse, s + more, f[i]) {
      assert (s + more)[f[i].from..f[i].to] == s[f[i].from..f[i].to];
    }
  }

  lemma FramesMove(parse: Parser, b: seq<Byte>, s: seq<Byte>, d: nat, f: seq<Span>)
    requires d <= |s| && b == s[d..] && AllFrames(parse, b, f)
    ensures AllFrames(parse, s, Shifted(f, d))
  {
    forall i | 0 <= i < |f| ensures HoldsFrame(parse, s, Moved(f[i], d)) {
      assert HoldsFrame(parse, b, f[i]);
      assert s[f[i].from + d..f[i].to + d] == b[f[i].from..f[i].to];
    }
  }

  /** Spans in order do not meet. */
  lemma {:induction false} Apart(f: seq<Span>, low: nat, high: nat, i: nat, j: nat)
    requires Disjoint(f, low, high) && i < j < |f|
    ensures f[i].to <= f[j].from && f[i].from < f[i].to && f[j].from < f[j].to
  {
    if i == 0 { After(f[1..], f[0].to, high, j - 1); } else { Apart(f[1..], f[0].to, high, i - 1, j - 1); }
  }

  lemma {:induction false} After(f: seq<Span>, low: nat, high: nat, i: nat)
    requires Disjoint(f, low, high) && i < |f|
    ensures low <= f[i].from < f[i].to
  {
    if i > 0 { After(f[1..], f[0].to, high, i - 1); }
    if i == 0 && |f| > 1 { After(f[1..], f[0].to, high, 0); }
  }

  /** No byte of the stream belongs to two accepted frames. */
  lemma NoByteTwice(parse: Parser, chunks: seq<seq<Byte>>, i: nat, j: nat, p: nat)
    requires Reads(chunks)
    requires var f := Run(parse, chunks).accepted;
             i < |f| && j < |f| && f[i].from <= p < f[i].to && f[j].from <= p < f[j].to
    ensures i == j
  {
    var st := Run(parse, chunks);
    StreamIsSafe(parse, chunks);
    if i < j { Apart(st.accepted, 0, Base(st), i, j); }
    if j < i { Apart(st.accepted, 0, Base(st), j, i); }
  }

  // ---------- no frame is lost for nothing ----------

  /** The longest frame that fits behind the bytes dropped to make room, wherever it starts. */
  const LONGEST_FRAME := 114

  predicate Overlaps(a: Span, f: Span) {
    a.from < f.to && f.from < a.to
  }

  predicate Hit(a: seq<Span>, f: Span) {
    exists i :: 0 <= i < |a| && Overlaps(a[i], f)
  }

  /** A pass leaves no frame start outside the frames it finds. */
  lemma {:induction false} PassCovers(parse: Parser, b: seq<Byte>, rd: nat, q: nat)
    requires rd <= q < |b| && parse(b[q..]) > 0
    ensures exists i :: 0 <= i < |Frames(parse, b, rd)|
                        && Frames(parse, b, rd)[i].from <= q < Frames(parse, b, rd)[i].to
    decreases |b| - rd
  {
    var n, f := parse(b[rd..]), Frames(parse, b, rd);
    if n == 0 {
      PassCovers(parse, b, rd + 1, q);
    } else if q < rd + n {
      assert f[0] == Span(rd, rd + n);
    } else {
      PassCovers(parse, b, rd + n, q);
      var i :| 0 <= i < |Frames(parse, b, rd + n)|
               && Frames(parse, b, rd + n)[i].from <= q < Frames(parse, b, rd + n)[i].to;
      assert f[i + 1] == Frames(parse, b, rd + n)[i];
    }
  }

  /** The end of a pass is the end of one of its frames. */
  lemma {:induction false} EndIsFrameEnd(parse: Parser, b: seq<Byte>, rd: nat, end: nat)
    requires end <= rd <= |b| && LastEnd(parse, b, rd, end) != end
    ensures exists i :: 0 <= i < |Frames(parse, b, rd)| && Frames(parse, b, rd)[i].to == LastEnd(parse, b, rd, end)
                        && Frames(parse, b, rd)[i].from < |b|
    decreases |b| - rd
  {
    var n, f := parse(b[rd..]), Frames(parse, b, rd);
    if n == 0 {
      EndIsFrameEnd(parse, b, rd + 1, end);
    } else if LastEnd(parse, b, rd + n, rd + n) == rd + n {
      assert f[0] == Span(rd, rd + n);
    } else {
      var g := Frames(parse, b, rd + n);
      EndIsFrameEnd(parse, b, rd + n, rd + n);
      var i :| 0 <= i < |g| && g[i].to == LastEnd(parse, b, rd + n, rd + n) && g[i].from < |b|;
      assert f[i + 1] == g[i];
    }
  }

  /** Once the stream reaches its end, the frame `f` of the stream is there. */
  predicate Arrives(parse: Parser, s: seq<Byte>, f: Span) {
    f.to <= |s| ==> HoldsFrame(parse, s, f)
  }

  /** A frame either met an accepted frame, or is not complete yet and nothing of it is dropped. */
  predicate Awaited(st: Stream, f: Span) {
    Hit(st.accepted, f) || (Base(st) <= f.from && |st.received| < f.to)
  }

  lemma HitNext(a: seq<Span>, g: seq<Span>, d: nat, i: nat, f: Span)
    requires i < |g| && Overlaps(Moved(g[i], d), f)
    ensures Hit(a + Shifted(g, d), f)
  {
    assert (a + Shifted(g, d))[|a| + i] == Moved(g[i], d);
  }

  lemma HitStays(a: seq<Span>, b: seq<Span>, f: Span)
    requires Hit(a, f)
    ensures Hit(a + b, f)
  {
    var i :| 0 <= i < |a| && Overlaps(a[i], f);
    assert (a + b)[i] == a[i];
  }

  /** A frame completed by a read meets a frame found in that pass. */
  lemma CompletedIsHit(parse: Parser, st: Stream, chunk: seq<Byte>, f: Span)
    requires Stable(parse) && IsSuffix(st.buffer, st.received) && chunk != []
    requires Base(st) <= f.from < f.to <= |st.received + chunk| && HoldsFrame(parse, st.received + chunk, f)
    ensures Hit(Step(parse, st, chunk).accepted, f)
  {
    var s, full, d := st.received + chunk, st.buffer + chunk, Base(st);
    var q := f.from - d;
    assert full == s[d..];
    assert full[q..] == s[f.from..f.to] + s[f.to..];
    PassCovers(parse, full, 0, q);
    var g := Frames(parse, full, 0);
    var i :| 0 <= i < |g| && g[i].from <= q < g[i].to;
    HitNext(st.accepted, g, d, i, f);
  }

  /** Bytes of an incomplete frame leave the buffer only with a frame that meets it. */
  lemma IncompleteIsKept(parse: Parser, st: Stream, chunk: seq<Byte>, f: Span)
    requires GoodBuffer(parse, st) && 0 < |chunk| <= MIN_MSG_SIZE
    requires Base(st) <= f.from && |st.received + chunk| < f.to <= f.from + LONGEST_FRAME
    ensures Awaited(Step(parse, st, chunk), f)
  {
    var full, d := st.buffer + chunk, Base(st);
    var e, g := LastEnd(parse, full, 0, 0), Frames(parse, full, 0);
    if d + e > f.from {
      EndIsFrameEnd(parse, full, 0, 0);
      var i :| 0 <= i < |g| && g[i].to == e && g[i].from < |full|;
      HitNext(st.accepted, g, d, i, f);
    } else {
      var next := Next(parse, st.buffer, chunk);
      assert |next| == |full| - e || |next| >= 113;
    }
  }

  lemma StepAwaits(parse: Parser, st: Stream, chunk: seq<Byte>, f: Span)
    requires Stable(parse) && GoodBuffer(parse, st) && |chunk| <= MIN_MSG_SIZE
    requires f.from < f.to <= f.from + LONGEST_FRAME && Arrives(parse, st.received + chunk, f) && Awaited(st, f)
    ensures Awaited(Step(parse, st, chunk), f)
  {
    if chunk != [] {
      if Hit(st.accepted, f) {
        HitStays(st.accepted, Shifted(Frames(parse, st.buffer + chunk, 0), Base(st)), f);
      } else if f.to <= |st.received + chunk| {
        CompletedIsHit(parse, st, chunk, f);
      } else {
        IncompleteIsKept(parse, st, chunk, f);
      }
    }
  }

  lemma {:induction false} RunAwaits(parse: Parser, chunks: seq<seq<Byte>>, f: Span)
    requires Stable(parse) && Reads(chunks)
    requires f.from < f.to <= f.from + LONGEST_FRAME && Arrives(parse, Concat(chunks), f)
    ensures Awaited(Run(parse, chunks), f)
  {
    if chunks != [] {
      var before, chunk := chunks[..|chunks| - 1], chunks[|chunks| - 1];
      assert chunks == before + [chunk];
      ConcatAppend(before, [chunk]);
      ConcatSingle(chunk);
      ArrivesEarlier(parse, Concat(before), chunk, f);
      RunAwaits(parse, before, f);
      StreamIsSafe(parse, before);
      StepAwaits(parse, Run(parse, before), chunk, f);
    }
  }

  lemma ArrivesEarlier(parse: Parser, s: seq<Byte>, more: seq<Byte>, f: Span)
    requires Arrives(parse, s + more, f)
    ensures Arrives(parse, s, f)
  {
    if f.to <= |s| && f.from <= f.to { assert (s + more)[f.from..f.to] == s[f.from..f.to]; }
  }

  /**
   Every frame of at most 114 bytes in the stream is accepted, unless an accepted frame overlaps it:
   some accepted frame always meets it.
   */
  lemma NoFrameLost(parse: Parser, chunks: seq<seq<Byte>>, f: Span)
    requires Stable(parse) && Reads(chunks)
    requires HoldsFrame(parse, Concat(chunks), f) && f.to - f.from <= LONGEST_FRAME
    ensures Hit(Run(parse, chunks).accepted, f)
  {
    RunAwaits(parse, chunks, f);
    StreamIsSafe(parse, chunks);
  }

  /** No other frame of the stream overlaps `f`. */
  ghost predicate Lonely(parse: Parser, s: seq<Byte>, f: Span) {
    forall h: Span :: HoldsFrame(parse, s, h) && Overlaps(h, f) ==> h == f
  }

  /** Every frame of at most 114 bytes that no other frame of the stream overlaps is accepted. */
  lemma FrameAccepted(parse: Parser, chunks: seq<seq<Byte>>, f: Span)
    requires SelfContained(parse) && Stable(parse) && Reads(chunks)
    requires HoldsFrame(parse, Concat(chunks), f) && f.to - f.from <= LONGEST_FRAME
    requires Lonely(parse, Concat(chunks), f)
    ensures f in Run(parse, chunks).accepted
  {
    var accepted := Run(parse, chunks).accepted;
    NoFrameLost(parse, chunks, f);
    StreamFrames(parse, chunks);
    var i :| 0 <= i < |accepted| && Overlaps(accepted[i], f);
    assert HoldsFrame(parse, Concat(chunks), accepted[i]);
  }

  // ---------- the program ----------

  /** A scan has come to `rd` with `found` and `end`, and is the pass over all of `b` so far. */
  predicate Scanned(parse: Parser, b: seq<Byte>, found: seq<Span>, rd: nat, end: nat) {
    && end <= rd <= |b| && found + Frames(parse, b, rd) == Frames(parse, b, 0)
    && LastEnd(parse, b, rd, end) == LastEnd(parse, b, 0, 0)
  }

  lemma ScanStep(parse: Parser, b: seq<Byte>, found: seq<Span>, rd: nat, end: nat)
    requires Scanned(parse, b, found, rd, end) && rd < |b|
    ensures var n := parse(b[rd..]);
            if n > 0 then Scanned(parse, b, found + [Span(rd, rd + n)], rd + n, rd + n)
            else Scanned(parse, b, found, rd + 1, end)
  {
    var n := parse(b[rd..]);
    assert n > 0 ==> found + Frames(parse, b, rd) == found + [Span(rd, rd + n)] + Frames(parse, b, rd + n);
  }

  class Receiver {
    const serialBuff: array<Byte>
    var wrIdx: nat

    ghost predicate Valid()
      reads this
    {
      serialBuff.Length == BUFFER_SIZE && wrIdx <= BUFFER_SIZE - MIN_MSG_SIZE
    }

    /** The bytes in use. */
    ghost function Contents(): seq<Byte>
      reads this, serialBuff
      requires Valid()
    {
      serialBuff[..wrIdx]
    }

    constructor ()
      ensures Valid() && Contents() == [] && fresh(serialBuff)
    {
      serialBuff := new Byte[BUFFER_SIZE](_ => 0);
      wrIdx := 0;
    }

    /** Move the bytes from `from` on to the front. */
    method Drop(from: nat)
      requires serialBuff.Length == BUFFER_SIZE && from <= wrIdx <= BUFFER_SIZE
      modifies this`wrIdx, serialBuff
      ensures wrIdx == old(wrIdx) - from && serialBuff[..wrIdx] == old(serialBuff[from..wrIdx])
    {
      forall i | 0 <= i < wrIdx - from { serialBuff[i] := serialBuff[i + from]; }
      wrIdx := wrIdx - from;
    }

    /** Append what was read. */
    method Fill(chunk: seq<Byte>)
      requires Valid() && |chunk| <= MIN_MSG_SIZE
      modifies this`wrIdx, serialBuff
      ensures wrIdx == old(wrIdx) + |chunk| && serialBuff[..wrIdx] == old(serialBuff[..wrIdx]) + chunk
    {
      forall i | 0 <= i < |chunk| { serialBuff[wrIdx + i] := chunk[i]; }
      wrIdx := wrIdx + |chunk|;
    }

    /** Scan the bytes in use; `frameEndIdx` is the end of the last frame. */
    method Scan(parse: Parser) returns (frames: seq<Span>, frameEndIdx: nat)
      requires serialBuff.Length == BUFFER_SIZE && wrIdx <= BUFFER_SIZE
      ensures frames == Frames(parse, serialBuff[..wrIdx], 0)
      ensures frameEndIdx == LastEnd(parse, serialBuff[..wrIdx], 0, 0)
    {
      ghost var full := serialBuff[..wrIdx];
      var rdIdx := 0;
      frames, frameEndIdx := [], 0;
      while rdIdx < wrIdx
        invariant Scanned(parse, full, frames, rdIdx, frameEndIdx)
      {
        assert serialBuff[rdIdx..wrIdx] == full[rdIdx..];
        ScanStep(parse, full, frames, rdIdx, frameEndIdx);
        var frameSize := parse(serialBuff[rdIdx..wrIdx]);
        if frameSize > 0 {
          frames := frames + [Span(rdIdx, rdIdx + frameSize)];
          rdIdx := rdIdx + frameSize;
          frameEndIdx := rdIdx;
        } else {
          rdIdx := rdIdx + 1;
        }
      }
    }

    /** One turn of the loop: a read of at most eight bytes, a scan, and the removal of what is done with. */
    method Turn(parse: Parser, chunk: seq<Byte>) returns (frames: seq<Span>)
      requires Valid() && |chunk| <= MIN_MSG_SIZE
      requires Quiet(parse, Contents())
      modifies this`wrIdx, serialBuff
      ensures Valid() && Quiet(parse, Contents())
      ensures Contents() == Next(parse, old(Contents()), chunk)
      ensures frames == if chunk == [] then [] else Frames(parse, old(Contents()) + chunk, 0)
    {
      NextKeeps(parse, Contents(), chunk);
      if |chunk| == 0 { return []; }
      Fill(chunk);
      var frameEndIdx;
      frames, frameEndIdx := Scan(parse);
      Release(frameEndIdx);
    }

    /** Remove the bytes up to the end of the last frame, and more when a full read would not fit. */
    method Release(frameEndIdx: nat)
      requires serialBuff.Length == BUFFER_SIZE && frameEndIdx <= wrIdx <= BUFFER_SIZE
      modifies this`wrIdx, serialBuff
      ensures wrIdx <= BUFFER_SIZE && serialBuff[..wrIdx] == Trimmed(old(serialBuff[frameEndIdx..wrIdx]))
    {
      if frameEndIdx > 0 {
        Drop(frameEndIdx);
      }
      if BUFFER_SIZE - wrIdx < MIN_MSG_SIZE {
        Drop(MIN_MSG_SIZE);
      }
    }
  }

  // ---------- the parser of the program ----------

  /** The recogniser the program scans with. */
  function GpsParser(): Parser {
    (w: seq<Byte>) => FrameAt(w)
  }

  /** The library's frames meet what the buffer relies on. */
  lemma LibraryParser()
    ensures SelfContained(GpsParser()) && Stable(GpsParser())
  {
    var parse := GpsParser();
    forall w: seq<Byte> | parse(w) > 0 ensures parse(w[..parse(w)]) == parse(w) {
      FrameIsPrefix(w);
    }
    forall w: seq<Byte>, x: seq<Byte> | parse(w) > 0 ensures parse(w + x) == parse(w) {
      FrameStays(w, x);
    }
  }

  /**
   The program's own stream: at every loop head there is room for a read, the buffer is the end of what
   was received and holds no frame; the accepted frames are disjoint, each a frame by its own bytes, and
   every frame of at most 114 bytes meets one of them and is accepted itself when no other overlaps it.
   */
  lemma GpsStreamIsSound(chunks: seq<seq<Byte>>)
    requires Reads(chunks)
    ensures var parse, st := GpsParser(), Run(GpsParser(), chunks);
            && Good(parse, st) && st.received == Concat(chunks) && AllFrames(parse, st.received, st.accepted)
            && forall f: Span ::
                 HoldsFrame(parse, st.received, f) && f.to - f.from <= LONGEST_FRAME ==>
                   Hit(st.accepted, f) && (Lonely(parse, st.received, f) ==> f in st.accepted)
  {
    var parse := GpsParser();
    LibraryParser();
    StreamIsSafe(parse, chunks);
    StreamFrames(parse, chunks);
    forall f: Span | HoldsFrame(parse, Concat(chunks), f) && f.to - f.from <= LONGEST_FRAME
      ensures Hit(Run(parse, chunks).accepted, f)
      ensures Lonely(parse, Concat(chunks), f) ==> f in Run(parse, chunks).accepted
    {
      NoFrameLost(parse, chunks, f);
      if Lonely(parse, Concat(chunks), f) { FrameAccepted(parse, chunks, f); }
    }
  }
}
