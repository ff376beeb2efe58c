/**
 The beacon scheduler (gw-dev/usb/rak2287.cpp, `downstreamBeaconRunner`).  Each pass fills the free
 beacon slots of the transmit queue; the queue's answers and the state of the GPS are arbitrary.
 */
module BeaconSchedule {

  const NUM_BEACON_IN_QUEUE := 3
  const WORD := 0x1_0000_0000

  /** What one turn of the inner loop meets: no usable GPS time, or a time and the queue's answer. */
  datatype Event = NotReady | Attempt(gps: nat, accepted: bool)

  /** A beacon put in the queue; `rejections` counts the refusals since the one before, in the same pass. */
  datatype Beacon = Beacon(time: nat, channel: nat, rejections: nat)

  /** Start of the slot to try; `last` is the time of the last beacon, 0 when there was none. */
  function NextTime(last: nat, gps: nat, retry: nat, period: nat): nat
    requires period > 0
  {
    (if last == 0 then gps + (period - gps % period) else last + period) + retry * period % WORD
  }

  function Channel(time: nat, period: nat, freqNb: nat): nat
    requires period > 0
  {
    if freqNb > 1 then time / period % freqNb else 0
  }

  /** Beacons queued in one pass with `free` free slots. */
  function Queued(last: nat, free: int, retry: nat, period: nat, freqNb: nat, events: seq<Event>): seq<Beacon>
    decreases |events|
  {
    if free <= 0 || period == 0 || events == [] || events[0].NotReady? then []
    else
      var t := NextTime(last, events[0].gps, retry, period);
      if events[0].accepted then
        [Beacon(t, Channel(t, period, freqNb), retry)] + Queued(t, free - 1, 0, period, freqNb, events[1..])
      else Queued(last, free, retry + 1, period, freqNb, events[1..])
  }

  function LastTime(last: nat, beacons: seq<Beacon>): nat {
    if beacons == [] then last else beacons[|beacons| - 1].time
  }

  /** A pass: beacons already in the queue, and what its turns meet. */
  datatype Pass = Pass(inQueue: nat, events: seq<Event>)

  function Free(p: Pass): int { NUM_BEACON_IN_QUEUE - p.inQueue }

  /** All beacons queued in a run of passes. */
  function RunFrom(last: nat, period: nat, freqNb: nat, passes: seq<Pass>): seq<Beacon>
    decreases |passes|
  {
    if passes == [] then []
    else
      var q := Queued(last, Free(passes[0]), 0, period, freqNb, passes[0].events);
      q + RunFrom(LastTime(last, q), period, freqNb, passes[1..])
  }

  // ---------- what every run keeps ----------

  /** Each beacon follows the one before by a period and the 32-bit product of refusals and period. */
  ghost predicate Follows(b: Beacon, last: nat, period: nat, freqNb: nat)
    requires period > 0
  {
    && (last > 0 ==> b.time == last + period + b.rejections * period % WORD)
    && (last == 0 ==> exists gps: nat :: b.time == NextTime(0, gps, b.rejections, period))
    && b.channel == Channel(b.time, period, freqNb)
  }

  ghost predicate Chained(last: nat, beacons: seq<Beacon>, period: nat, freqNb: nat)
    requires period > 0
    decreases |beacons|
  {
    beacons != [] ==>
      Follows(beacons[0], last, period, freqNb) && Chained(beacons[0].time, beacons[1..], period, freqNb)
  }

  lemma {:induction false} PassChained(last: nat, free: int, retry: nat, period: nat, freqNb: nat, events: seq<Event>)
    requires period > 0
    ensures Chained(last, Queued(last, free, retry, period, freqNb, events), period, freqNb)
    decreases |events|
  {
    if free > 0 && events != [] && events[0].Attempt? {
      var t := NextTime(last, events[0].gps, retry, period);
      if events[0].accepted {
        var rest := Queued(t, free - 1, 0, period, freqNb, events[1..]);
        PassChained(t, free - 1, 0, period, freqNb, events[1..]);
        var q := [Beacon(t, Channel(t, period, freqNb), retry)] + rest;
        assert q[1..] == rest;
        assert Follows(q[0], last, period, freqNb);
      } else {
        PassChained(last, free, retry + 1, period, freqNb, events[1..]);
      }
    }
  }

  lemma {:induction false} ChainAppend(last: nat, a: seq<Beacon>, b: seq<Beacon>, period: nat, freqNb: nat)
    requires period > 0 && Chained(last, a, period, freqNb) && Chained(LastTime(last, a), b, period, freqNb)
    ensures Chained(last, a + b, period, freqNb)
    decreases |a|
  {
    if a == [] {
      assert a + b == b;
    } else {
      assert (a + b)[1..] == a[1..] + b;
      ChainAppend(a[0].time, a[1..], b, period, freqNb);
    }
  }

  lemma {:induction false} RunChained(last: nat, period: nat, freqNb: nat, passes: seq<Pass>)
    requires period > 0
    ensures Chained(last, RunFrom(last, period, freqNb, passes), period, freqNb)
    decreases |passes|
  {
    if passes != [] {
      var q := Queued(last, Free(passes[0]), 0, period, freqNb, passes[0].events);
      PassChained(last, Free(passes[0]), 0, period, freqNb, passes[0].events);
      RunChained(LastTime(last, q), period, freqNb, passes[1..]);
      ChainAppend(last, q, RunFrom(LastTime(last, q), period, freqNb, passes[1..]), period, freqNb);
    }
  }

  /** A pass queues no more beacons than there are free slots. */
  lemma {:induction false} PassFitsQueue(last: nat, free: int, retry: nat, period: nat, freqNb: nat, events: seq<Event>)
    ensures |Queued(last, free, retry, period, freqNb, events)| <= if free > 0 then free else 0
    decreases |events|
  {
    if free > 0 && period > 0 && events != [] && events[0].Attempt? {
      if events[0].accepted {
        PassFitsQueue(NextTime(last, events[0].gps, retry, period), free - 1, 0, period, freqNb, events[1..]);
      } else {
        PassFitsQueue(last, free, retry + 1, period, freqNb, events[1..]);
      }
    }
  }

  predicate AllAccepted(events: seq<Event>) {
    forall i :: 0 <= i < |events| ==> events[i].Attempt? && events[i].accepted
  }

  lemma {:induction false} PassTakesFree(last: nat, free: int, period: nat, freqNb: nat, events: seq<Event>)
    requires period > 0 && AllAccepted(events) && free <= |events|
    ensures |Queued(last, free, 0, period, freqNb, events)| == if free > 0 then free else 0
    decreases |events|
  {
    if free > 0 {
      assert events[0].accepted;
      PassTakesFree(NextTime(last, events[0].gps, 0, period), free - 1, period, freqNb, events[1..]);
    }
  }

  /** A pass never queues beyond three beacons, and up to three when every attempt is accepted. */
  lemma ThreeInQueue(last: nat, period: nat, freqNb: nat, p: Pass)
    requires period > 0
    ensures var n := |Queued(last, Free(p), 0, period, freqNb, p.events)|;
            && (n > 0 ==> p.inQueue + n <= 3)
            && (AllAccepted(p.events) && |p.events| >= 3 && p.inQueue <= 3 ==> p.inQueue + n == 3)
  {
    PassFitsQueue(last, Free(p), 0, period, freqNb, p.events);
    if AllAccepted(p.events) && |p.events| >= 3 { PassTakesFree(last, Free(p), period, freqNb, p.events); }
  }

  /** The first event that is not a refused attempt. */
  function Refused(events: seq<Event>): (k: nat)
    ensures k <= |events|
    ensures forall i :: 0 <= i < k ==> events[i].Attempt? && !events[i].accepted
    ensures k < |events| ==> events[k].NotReady? || events[k].accepted
  {
    if events != [] && events[0].Attempt? && !events[0].accepted then 1 + Refused(events[1..]) else 0
  }

  /**
   A pass queues its first beacon at the first accepted attempt, counting the refusals before it, and
   goes on from there with the count at zero; without an accepted attempt in reach it queues none.
   */
  lemma {:induction false} PassByFirstAccepted(last: nat, free: int, retry: nat, period: nat, freqNb: nat,
                                               events: seq<Event>)
    requires period > 0 && free > 0
    ensures var k, q := Refused(events), Queued(last, free, retry, period, freqNb, events);
            if k < |events| && events[k].Attempt? then
              q != [] && q[0].rejections == retry + k && q[0].time == NextTime(last, events[k].gps, retry + k, period)
              && q[1..] == Queued(q[0].time, free - 1, 0, period, freqNb, events[k + 1..])
            else q == []
    decreases |events|
  {
    if events != [] && events[0].Attempt? && !events[0].accepted {
      var k := Refused(events[1..]);
      PassByFirstAccepted(last, free, retry + 1, period, freqNb, events[1..]);
      if k < |events[1..]| { assert events[1..][k + 1..] == events[k + 2..]; }
    }
  }

  /** Beacon times are positive and strictly increasing, whatever happens. */
  lemma {:induction false} ChainIncreases(last: nat, beacons: seq<Beacon>, period: nat, freqNb: nat)
    requires period > 0 && Chained(last, beacons, period, freqNb)
    ensures forall i :: 0 <= i < |beacons| ==> beacons[i].time > last
    ensures forall i, j :: 0 <= i < j < |beacons| ==> beacons[i].time < beacons[j].time
    decreases |beacons|
  {
    if beacons != [] {
      var b, rest := beacons[0], beacons[1..];
      assert b.time > last;
      ChainIncreases(b.time, rest, period, freqNb);
      forall i | 1 <= i < |beacons| ensures beacons[i].time > b.time { assert beacons[i] == rest[i - 1]; }
      forall i, j | 0 <= i < j < |beacons| ensures beacons[i].time < beacons[j].time {
        assert beacons[j] == rest[j - 1];
        if i > 0 { assert beacons[i] == rest[i - 1]; }
      }
    }
  }

  // ---------- whole periods ----------

  /** What the 32-bit product of refusals and period loses. */
  function Lost(b: Beacon, period: nat): nat {
    WORD * (b.rejections * period / WORD)
  }

  /** What the first `n` beacons of a list lose together. */
  function LostSum(beacons: seq<Beacon>, period: nat, n: nat): nat
    requires n <= |beacons|
  {
    if n == 0 then 0 else Lost(beacons[0], period) + LostSum(beacons[1..], period, n - 1)
  }

  lemma NextSlotIsMultiple(gps: nat, period: nat)
    requires period > 0
    ensures (gps + (period - gps % period)) % period == 0
  {
    var q := gps / period;
    assert gps == q * period + gps % period;
    Distribute(q, 1, period);
    MultipleIsZero(q + 1, period);
  }

  lemma Distribute(a: nat, b: nat, period: nat)
    ensures (a + b) * period == a * period + b * period
  {}

  lemma {:induction false} MultipleIsZero(k: nat, period: nat)
    requires period > 0
    ensures k * period % period == 0 && k * period / period == k
  {
    if k > 0 {
      MultipleIsZero(k - 1, period);
      Distribute(k - 1, 1, period);
      AddPeriod((k - 1) * period, period);
    }
  }

  lemma AddPeriod(x: nat, period: nat)
    requires period > 0
    ensures (x + period) % period == x % period && (x + period) / period == x / period + 1
  {
    var q := x / period;
    var r := x % period;
    assert x == q * period + r;
    Distribute(q, 1, period);
    QuotientUnique(x + period, q + 1, r, period);
  }

  lemma QuotientUnique(x: nat, q: nat, r: nat, period: nat)
    requires period > 0 && x == q * period + r && r < period
    ensures x / period == q && x % period == r
  {
    var a, b := x / period, x % period;
    assert x == a * period + b;
    Distribute(a, 1, period);
    Distribute(q, 1, period);
    if a < q { Monotone(a + 1, q, period); }
    if q < a { Monotone(q + 1, a, period); }
  }

  lemma Monotone(a: nat, b: nat, period: nat)
    requires a <= b
    ensures a * period <= b * period
  {}

  lemma SumOfMultiples(x: nat, k: nat, period: nat)
    requires period > 0 && x % period == 0
    ensures (x + k * period) % period == 0
  {
    var q := x / period;
    assert x == q * period;
    Distribute(q, k, period);
    MultipleIsZero(q + k, period);
  }

  lemma ZeroTogether(x: nat, y: nat, period: nat)
    requires period > 0 && (x + y) % period == 0
    ensures x % period == 0 <==> y % period == 0
  {
    var k, a, b := (x + y) / period, x / period, y / period;
    assert x + y == k * period && x == a * period + x % period && y == b * period + y % period;
    if x % period == 0 { Difference(k, a, period, y); }
    if y % period == 0 { Difference(k, b, period, x); }
  }

  lemma Difference(k: nat, a: nat, period: nat, y: nat)
    requires period > 0 && k * period == a * period + y
    ensures y % period == 0
  {
    if k < a {
      Monotone(k, a, period);
      MultipleIsZero(0, period);
    } else {
      Distribute(a, k - a, period);
      MultipleIsZero(k - a, period);
    }
  }

  lemma ProductSplits(x: nat)
    ensures x == x % WORD + WORD * (x / WORD)
  {}

  lemma MultiplesAdd(x: nat, y: nat, period: nat)
    requires period > 0 && x % period == 0 && y % period == 0
    ensures (x + y) % period == 0
  {
    SumOfMultiples(x, y / period, period);
  }

  /** Time and losses together stay a multiple of the period. */
  lemma TimePlusLost(b: Beacon, last: nat, acc: nat, period: nat, freqNb: nat)
    requires period > 0 && (last + acc) % period == 0 && Follows(b, last, period, freqNb)
    ensures (b.time + (acc + Lost(b, period))) % period == 0
  {
    var x := b.rejections * period;
    ProductSplits(x);
    if last > 0 {
      AddPeriod(last + acc, period);
      SumOfMultiples(last + acc + period, b.rejections, period);
      assert b.time + (acc + Lost(b, period)) == (last + acc + period) + x;
    } else {
      var gps: nat :| b.time == NextTime(0, gps, b.rejections, period);
      var slot := gps + (period - gps % period);
      NextSlotIsMultiple(gps, period);
      SumOfMultiples(slot, b.rejections, period);
      MultiplesAdd(slot + x, acc, period);
      assert b.time + (acc + Lost(b, period)) == (slot + x) + acc;
    }
  }

  /**
   A beacon that follows a multiple of the period, or is the first one, is a multiple itself exactly
   when what its product lost is one.
   */
  lemma MultipleIffLossIs(b: Beacon, last: nat, period: nat, freqNb: nat)
    requires period > 0 && last % period == 0 && Follows(b, last, period, freqNb)
    ensures b.time % period == 0 <==> 0x1_0000_0000 * (b.rejections * period / 0x1_0000_0000) % period == 0
  {
    TimePlusLost(b, last, 0, period, freqNb);
    ZeroTogether(b.time, Lost(b, period), period);
  }

  lemma {:induction false} TimesPlusLost(last: nat, acc: nat, beacons: seq<Beacon>, period: nat, freqNb: nat, i: nat)
    requires period > 0 && (last + acc) % period == 0
    requires Chained(last, beacons, period, freqNb) && i < |beacons|
    ensures (beacons[i].time + (acc + LostSum(beacons, period, i + 1))) % period == 0
    decreases i
  {
    var b, rest := beacons[0], beacons[1..];
    TimePlusLost(b, last, acc, period, freqNb);
    if i == 0 {
      assert LostSum(rest, period, 0) == 0;
    } else {
      TimesPlusLost(b.time, acc + Lost(b, period), rest, period, freqNb, i - 1);
      assert beacons[i] == rest[i - 1];
    }
  }

  /** A time of the run is a multiple of the period exactly when the losses up to it add up to one. */
  lemma WholePeriods(last: nat, beacons: seq<Beacon>, period: nat, freqNb: nat, i: nat)
    requires period > 0 && last % period == 0 && Chained(last, beacons, period, freqNb) && i < |beacons|
    ensures beacons[i].time % period == 0 <==> LostSum(beacons, period, i + 1) % period == 0
  {
    TimesPlusLost(last, 0, beacons, period, freqNb, i);
    ZeroTogether(beacons[i].time, LostSum(beacons, period, i + 1), period);
  }

  /** All times are multiples exactly when each product loses a multiple. */
  lemma {:induction false} AllMultiples(last: nat, beacons: seq<Beacon>, period: nat, freqNb: nat)
    requires period > 0 && last % period == 0 && Chained(last, beacons, period, freqNb)
    ensures (forall i :: 0 <= i < |beacons| ==> beacons[i].time % period == 0)
       <==> (forall i :: 0 <= i < |beacons| ==> Lost(beacons[i], period) % period == 0)
    decreases |beacons|
  {
    if beacons != [] {
      var b, rest := beacons[0], beacons[1..];
      MultipleIffLossIs(b, last, period, freqNb);
      if b.time % period == 0 {
        AllMultiples(b.time, rest, period, freqNb);
        assert forall i :: 1 <= i < |beacons| ==> beacons[i] == rest[i - 1];
        assert forall i :: 0 <= i < |rest| ==> rest[i] == beacons[i + 1];
      }
    }
  }

  lemma {:induction false} ChainFollows(last: nat, beacons: seq<Beacon>, period: nat, freqNb: nat, i: nat)
    requires period > 0 && Chained(last, beacons, period, freqNb) && 0 < i < |beacons|
    ensures Follows(beacons[i], beacons[i - 1].time, period, freqNb)
    decreases i
  {
    var rest := beacons[1..];
    assert beacons[i] == rest[i - 1];
    if i > 1 {
      ChainFollows(beacons[0].time, rest, period, freqNb, i - 1);
      assert beacons[i - 1] == rest[i - 2];
    }
  }

  /**
   Every run from a fresh start: times are positive and strictly increasing, and the channel is the number
   of the slot the time lies in, modulo the number of frequencies, and moves on with whole gaps.  A time is
   a multiple of the period exactly when the losses of the 32-bit products up to it add up to a multiple,
   and a gap is one period more than the refusals in between exactly when their product with the period
   fits in 32 bits.
   */
  lemma BeaconsOnSchedule(period: nat, freqNb: nat, passes: seq<Pass>)
    requires period > 0
    ensures var b := RunFrom(0, period, freqNb, passes);
            && (forall i :: 0 <= i < |b| ==> b[i].time > 0 && OnSlot(b[i], period, freqNb))
            && (forall i, j, g: nat :: 0 <= i < j < |b| && b[j].time == b[i].time + g * period ==>
                                         b[j].channel == Advanced(b[i].channel, g, freqNb))
            && (forall i, j :: 0 <= i < j < |b| ==> b[i].time < b[j].time)
            && (forall i :: 0 <= i < |b| ==>
                              (b[i].time % period == 0 <==> LostSum(b, period, i + 1) % period == 0))
            && (forall i :: 0 < i < |b| ==>
                              (b[i].time - b[i - 1].time == (b[i].rejections + 1) * period
                               <==> b[i].rejections * period < 0x1_0000_0000))
  {
    var b := RunFrom(0, period, freqNb, passes);
    RunChained(0, period, freqNb, passes);
    ChainIncreases(0, b, period, freqNb);
    ChainChannels(0, b, period, freqNb);
    MultipleIsZero(0, period);
    ChannelsAdvance(b, period, freqNb);
    forall i | 0 <= i < |b| ensures b[i].time % period == 0 <==> LostSum(b, period, i + 1) % period == 0 {
      WholePeriods(0, b, period, freqNb, i);
    }
    GapsAreWhole(b, period, freqNb);
  }

  lemma ChannelsAdvance(b: seq<Beacon>, period: nat, freqNb: nat)
    requires period > 0 && forall i :: 0 <= i < |b| ==> OnSlot(b[i], period, freqNb)
    ensures forall i, j, g: nat :: 0 <= i < j < |b| && b[j].time == b[i].time + g * period ==>
                                     b[j].channel == Advanced(b[i].channel, g, freqNb)
  {
    forall i, j, g: nat | 0 <= i < j < |b| && b[j].time == b[i].time + g * period
      ensures b[j].channel == Advanced(b[i].channel, g, freqNb)
    {
      ChannelAdvances(b[i], b[j], g, period, freqNb);
    }
  }

  lemma GapsAreWhole(b: seq<Beacon>, period: nat, freqNb: nat)
    requires period > 0 && Chained(0, b, period, freqNb) && forall i :: 0 <= i < |b| ==> b[i].time > 0
    ensures forall i :: 0 < i < |b| ==>
                          (b[i].time - b[i - 1].time == (b[i].rejections + 1) * period
                           <==> b[i].rejections * period < 0x1_0000_0000)
  {
    forall i | 0 < i < |b|
      ensures b[i].time - b[i - 1].time == (b[i].rejections + 1) * period
         <==> b[i].rejections * period < 0x1_0000_0000
    {
      ChainFollows(0, b, period, freqNb, i);
      GapIsWhole(b[i], b[i - 1].time, period, freqNb);
    }
  }

  /** Slot `k` lasts from `k` periods to the next multiple. */
  predicate InSlot(time: nat, k: nat, period: nat) {
    k * period <= time < (k + 1) * period
  }

  /** The beacon is on the channel of the slot it lies in; with a single frequency that is channel 0. */
  ghost predicate OnSlot(b: Beacon, period: nat, freqNb: nat) {
    if freqNb > 1 then exists k: nat :: InSlot(b.time, k, period) && b.channel == k % freqNb else b.channel == 0
  }

  /** The channel `g` slots later. */
  function Advanced(channel: nat, g: nat, freqNb: nat): nat {
    if freqNb > 1 then (channel + g) % freqNb else 0
  }

  lemma ChannelOnSlot(b: Beacon, period: nat, freqNb: nat)
    requires period > 0 && b.channel == Channel(b.time, period, freqNb)
    ensures OnSlot(b, period, freqNb)
  {
    var k := b.time / period;
    Distribute(k, 1, period);
    assert InSlot(b.time, k, period);
  }

  lemma OneSlot(time: nat, k: nat, period: nat)
    requires period > 0 && InSlot(time, k, period)
    ensures time / period == k
  {
    Distribute(k, 1, period);
    QuotientUnique(time, k, time - k * period, period);
  }

  lemma SlotMoves(time: nat, k: nat, g: nat, period: nat)
    requires InSlot(time, k, period)
    ensures InSlot(time + g * period, k + g, period)
  {
    Distribute(k, g, period);
    Distribute(k, 1, period);
    Distribute(k + g, 1, period);
  }

  /** After a gap of `g` whole periods the channel has moved on by `g`. */
  lemma ChannelAdvances(b: Beacon, c: Beacon, g: nat, period: nat, freqNb: nat)
    requires period > 0 && OnSlot(b, period, freqNb) && OnSlot(c, period, freqNb) && c.time == b.time + g * period
    ensures c.channel == Advanced(b.channel, g, freqNb)
  {
    if freqNb > 1 {
      var k: nat :| InSlot(b.time, k, period) && b.channel == k % freqNb;
      var l: nat :| InSlot(c.time, l, period) && c.channel == l % freqNb;
      SlotMoves(b.time, k, g, period);
      OneSlot(c.time, k + g, period);
      OneSlot(c.time, l, period);
      ModuloAdds(k, g, freqNb);
    }
  }

  lemma ModuloAdds(k: nat, g: nat, n: nat)
    requires n > 0
    ensures (k % n + g) % n == (k + g) % n
  {
    var q, r := (k + g) / n, (k + g) % n;
    Distribute(q, k / n, n);
    if q < k / n {
      Monotone(q + 1, k / n, n);
      Distribute(q, 1, n);
    } else {
      Distribute(q - k / n, k / n, n);
      QuotientUnique(k % n + g, q - k / n, r, n);
    }
  }

  lemma {:induction false} ChainChannels(last: nat, beacons: seq<Beacon>, period: nat, freqNb: nat)
    requires period > 0 && Chained(last, beacons, period, freqNb)
    ensures forall i :: 0 <= i < |beacons| ==> OnSlot(beacons[i], period, freqNb)
    decreases |beacons|
  {
    if beacons != [] {
      ChannelOnSlot(beacons[0], period, freqNb);
      ChainChannels(beacons[0].time, beacons[1..], period, freqNb);
      forall i | 1 <= i < |beacons| ensures beacons[i] == beacons[1..][i - 1] {}
    }
  }

  /** The gap is whole exactly when the product of refusals and period did not overflow. */
  lemma GapIsWhole(b: Beacon, last: nat, period: nat, freqNb: nat)
    requires period > 0 && last > 0 && Follows(b, last, period, freqNb)
    ensures b.time - last == (b.rejections + 1) * period <==> b.rejections * period < 0x1_0000_0000
  {
    Distribute(b.rejections, 1, period);
  }

  /** The first beacon is refusals periods behind the next slot exactly under the same condition. */
  lemma FirstIsWhole(b: Beacon, gps: nat, period: nat)
    requires period > 0 && b.time == NextTime(0, gps, b.rejections, period)
    ensures b.time == gps + (period - gps % period) + b.rejections * period <==> b.rejections * period < 0x1_0000_0000
  {}

  /** Refusals of one attempt after another. */
  function Refusals(n: nat): seq<Event> {
    seq(n, _ => Attempt(0, false))
  }

  lemma {:induction false} RefusalsCounted(n: nat, rest: seq<Event>)
    requires rest != [] && (rest[0].NotReady? || rest[0].accepted)
    ensures Refused(Refusals(n) + rest) == n
  {
    if n == 0 {
      assert Refusals(0) + rest == rest;
    } else {
      assert (Refusals(n) + rest)[1..] == Refusals(n - 1) + rest;
      RefusalsCounted(n - 1, rest);
    }
  }

  /** A run whose beacon is no multiple of a permitted period of 100 seconds: 42949673 refusals overflow. */
  lemma OffSchedule(freqNb: nat)
    ensures var b := RunFrom(0, 100, freqNb, [Pass(2, Refusals(42949673) + [Attempt(1000, true)])]);
            |b| == 1 && b[0].time == 1104 && b[0].time % 100 != 0
  {
    var n, last := 42949673, [Attempt(1000, true)];
    var events := Refusals(n) + last;
    RefusalsCounted(n, last);
    PassByFirstAccepted(0, 1, 0, 100, freqNb, events);
    assert events[n] == last[0] && events[n + 1..] == [];
    var q := Queued(0, 1, 0, 100, freqNb, events);
    assert RunFrom(LastTime(0, q), 100, freqNb, [Pass(2, events)][1..]) == [];
    assert Free(Pass(2, events)) == 1;
    assert q[1..] == [];
  }

  // ---------- the program ----------

  class Scheduler {
    /** GPS time of the last queued beacon; 0 when there was none. */
    var lastBeacon: nat
    const period: nat
    const freqNb: nat

    constructor (period: nat, freqNb: nat)
      ensures this.period == period && this.freqNb == freqNb && lastBeacon == 0
    {
      this.period, this.freqNb, lastBeacon := period, freqNb, 0;
    }

    /** One pass, up to the end of `events`. */
    method FillQueue(inQueue: nat, events: seq<Event>) returns (queued: seq<Beacon>)
      modifies this
      ensures queued == Queued(old(lastBeacon), NUM_BEACON_IN_QUEUE - inQueue, 0, period, freqNb, events)
      ensures lastBeacon == LastTime(old(lastBeacon), queued)
    {
      var retry := 0;
      var beaconLoop := NUM_BEACON_IN_QUEUE - inQueue;
      var i := 0;
      queued := [];
      while beaconLoop > 0 && period > 0 && i < |events|
        invariant 0 <= i <= |events|
        invariant retry >= 0
        invariant queued + Queued(lastBeacon, beaconLoop, retry, period, freqNb, events[i..])
               == Queued(old(lastBeacon), NUM_BEACON_IN_QUEUE - inQueue, 0, period, freqNb, events)
        invariant lastBeacon == LastTime(old(lastBeacon), queued)
        decreases |events| - i
      {
        if events[i].NotReady? { return; }
        var gps := events[i].gps;
        var next: nat;
        if lastBeacon == 0 {
          var diff := gps % period;
          next := gps + (period - diff);
        } else {
          next := lastBeacon + period;
        }
        next := next + retry * period % WORD;
        var channel := if freqNb > 1 then next / period % freqNb else 0;
        assert events[i..][1..] == events[i + 1..];
        if events[i].accepted {
          queued := queued + [Beacon(next, channel, retry)];
          beaconLoop := beaconLoop - 1;
          retry := 0;
          lastBeacon := next;
        } else {
          retry := retry + 1;
        }
        i := i + 1;
      }
    }
  }
}
