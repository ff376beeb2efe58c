/**
 Frames in the GPS receiver's byte stream, as the reader tells them (gw-dev/usb/rak2287.cpp,
 `gpsRunner`).  UBX framing is the one of the gateway library
 (third-party/libloragw/src/loragw_gps.c).
 */
module GpsFraming {
  import opened Bytes
  import opened NmeaSentence

  const UBX_SYNC := 0xB5
  const UBX_SYNC2 := 0x62

  // ---------- UBX framing ----------

  /** The two sums of the 8-bit Fletcher algorithm. */
  function Fletcher(s: seq<Byte>): (Byte, Byte) {
    if s == [] then (0, 0)
    else
      var (a, b) := Fletcher(s[..|s| - 1]);
      var a' := (a + s[|s| - 1]) % 256;
      (a', (b + a') % 256)
  }

  lemma FletcherNext(s: seq<Byte>, x: Byte, a: Byte, b: Byte)
    requires Fletcher(s) == (a, b)
    ensures Fletcher(s + [x]) == ((a + x) % 256, (b + (a + x) % 256) % 256)
  {
    assert (s + [x])[..|s|] == s;
  }

  /** Size of the UBX frame at the start of `w`; 0 when there is none, it is incomplete or corrupted. */
  function UbxFrame(w: seq<Byte>): (n: nat)
    ensures n <= |w|
  {
    if |w| < 8 || w[0] != UBX_SYNC || w[1] != UBX_SYNC2 then 0
    else
      var size := 6 + Le16(w[4], w[5]) + 2;
      if size > |w| then 0
      else if Fletcher(w[2..size - 2]) != (w[size - 2], w[size - 1]) then 0
      else size
  }

  /** A UBX message: sync characters, class, identifier, length, payload, checksum. */
  function UbxMessage(cls: Byte, id: Byte, payload: seq<Byte>): seq<Byte>
    requires |payload| < 65536
  {
    var body := [cls, id, |payload| % 256, |payload| / 256] + payload;
    var (a, b) := Fletcher(body);
    [0xB5, 0x62] + body + [a, b]
  }

  /** A message is found whole in front of any further bytes. */
  lemma UbxFound(cls: Byte, id: Byte, payload: seq<Byte>, rest: seq<Byte>)
    requires |payload| < 65536
    ensures UbxFrame(UbxMessage(cls, id, payload) + rest) == 8 + |payload|
  {
    var body := [cls, id, |payload| % 256, |payload| / 256] + payload;
    var w := UbxMessage(cls, id, payload) + rest;
    assert w[4] == body[2] && w[5] == body[3];
    assert w[2..6 + |payload|] == body;
  }

  /** Only messages are found. */
  lemma OnlyUbxFound(w: seq<Byte>)
    requires UbxFrame(w) > 0
    ensures exists cls: Byte, id: Byte, payload: seq<Byte> ::
              |payload| < 65536 && w[..UbxFrame(w)] == UbxMessage(cls, id, payload)
  {
    var size := UbxFrame(w);
    var payload := w[6..size - 2];
    assert |payload| == Le16(w[4], w[5]);
    LengthBytes(w[4], w[5]);
    assert w[2..size - 2] == [w[2], w[3], w[4], w[5]] + payload;
    assert w[..size] == UbxMessage(w[2], w[3], payload);
  }

  lemma LengthBytes(low: Byte, high: Byte)
    ensures Le16(low, high) % 256 == low && Le16(low, high) / 256 == high
  {}

  // ---------- NMEA framing ----------

  /** A sentence ends at the first line feed. */
  function NmeaFrame(w: seq<Byte>): (n: nat)
    ensures n <= |w|
  {
    var k := Find(w, LF);
    if k < |w| && ValidNmea(w[..k + 1]) then k + 1 else 0
  }

  /** Size of the frame that `w` starts with, or 0. */
  function FrameAt(w: seq<Byte>): (n: nat)
    ensures n <= |w|
  {
    if w == [] then 0
    else if w[0] == UBX_SYNC then UbxFrame(w)
    else if w[0] == NMEA_SYNC then NmeaFrame(w)
    else 0
  }

  /** The sentence ends with the only line feed in it. */
  predicate IsLine(text: seq<Byte>, rest: seq<Byte>) {
    && Free(text, '\n' as int) && rest != [] && rest[|rest| - 1] == '\n' as int
    && Free(rest[..|rest| - 1], '\n' as int)
  }

  /** A sentence is found whole in front of any further bytes. */
  lemma NmeaFound(text: seq<Byte>, rest: seq<Byte>, more: seq<Byte>)
    requires Fits(text, rest) && IsLine(text, rest)
    ensures FrameAt(Sentence(text, rest) + more) == |text| + 4 + |rest|
  {
    var s := Sentence(text, rest);
    var k := |s| - 1;
    LineEnds(text, rest, more);
    FindIs(s + more, LF, k);
    assert (s + more)[..k + 1] == s;
    SentenceValid(text, rest);
  }

  lemma LineEnds(text: seq<Byte>, rest: seq<Byte>, more: seq<Byte>)
    requires IsLine(text, rest)
    ensures var w, k := Sentence(text, rest) + more, |text| + 3 + |rest|; w[k] == LF && Free(w[..k], LF)
  {
    var w, k, n := Sentence(text, rest) + more, |text| + 3 + |rest|, |text|;
    assert w[k] == rest[|rest| - 1];
    assert w[..k] == Sentence(text, rest[..|rest| - 1]);
  }

  /** Only sentences are found. */
  lemma OnlyNmeaFound(w: seq<Byte>)
    requires FrameAt(w) > 0 && w[0] == NMEA_SYNC
    ensures exists text: seq<Byte>, rest: seq<Byte> ::
              Fits(text, rest) && IsLine(text, rest) && w[..FrameAt(w)] == Sentence(text, rest)
  {
    var k := Find(w, LF);
    OnlySentences(w[..k + 1]);
    var text: seq<Byte>, rest: seq<Byte> :| Fits(text, rest) && w[..k + 1] == Sentence(text, rest);
    LineOf(w, k, text, rest);
  }

  lemma LineOf(w: seq<Byte>, k: nat, text: seq<Byte>, rest: seq<Byte>)
    requires k < |w| && w[k] == LF && Free(w[..k], LF) && rest != [] && w[..k + 1] == Sentence(text, rest)
    ensures IsLine(text, rest)
  {
    var s, n := Sentence(text, rest), |text| + 4;
    assert forall i :: 0 <= i < k ==> s[i] == w[..k][i];
    assert forall i :: 0 <= i < |text| ==> text[i] == s[i + 1];
    assert forall i :: 0 <= i < |rest| ==> rest[i] == s[n + i];
    assert s[k] == w[k];
  }

  // ---------- frames and the bytes around them ----------

  /** Whether a frame is accepted depends on its own bytes only. */
  lemma FrameIsPrefix(w: seq<Byte>)
    requires FrameAt(w) > 0
    ensures FrameAt(w[..FrameAt(w)]) == FrameAt(w)
  {
    var n := FrameAt(w);
    var f := w[..n];
    if w[0] == UBX_SYNC {
      assert f[2..n - 2] == w[2..n - 2];
    } else {
      assert f[..n - 1] == w[..n - 1];
      FindIs(f, LF, n - 1);
      assert f[..n] == w[..n];
    }
  }

  /** An accepted frame stays accepted when more bytes follow. */
  lemma FrameStays(w: seq<Byte>, x: seq<Byte>)
    requires FrameAt(w) > 0
    ensures FrameAt(w + x) == FrameAt(w)
  {
    var n := FrameAt(w);
    if w[0] == UBX_SYNC {
      assert (w + x)[2..n - 2] == w[2..n - 2];
    } else {
      assert (w + x)[..n - 1] == w[..n - 1];
      FindIs(w + x, LF, n - 1);
      assert (w + x)[..n] == w[..n];
    }
  }

  /** A frame has room for what makes it one. */
  lemma FrameSize(w: seq<Byte>)
    requires FrameAt(w) > 0
    ensures 8 <= FrameAt(w) <= 65543
  {}
}
