/**
 GPS / UTC conversion (lorawan-date.cpp).  One table of eighteen leap instants is counted by two
 different rules; together the conversions form a Galois connection.  All 32-bit truncations of
 the program are written out, so the results say exactly where they matter.
 */
module LeapSeconds {

  const TWO32: int := 0x1_0000_0000

  /** Seconds from 1 January 1970 to 6 January 1980. */
  const EPOCH_DIFF: int := 315964800

  type uint32 = x: int | 0 <= x < TWO32

  const GPS_LEAP: seq<uint32> := [
    46828800, 78364801, 109900802, 173059203, 252028804, 315187205, 346723206,
    393984007, 425520008, 457056009, 504489610, 551750411, 599184012, 820108813,
    914803214, 1025136015, 1119744016, 1167264017
  ]

  function Truncate32(x: int): uint32 {
    x % TWO32
  }

  predicate ShouldAddLeap(gps: uint32, curGpsLeap: uint32, totalLeaps: nat, isUnixToGps: bool) {
    if isUnixToGps then gps >= Truncate32(curGpsLeap - totalLeaps) else gps >= curGpsLeap
  }

  /** How many entries of the table count as passed at `gps`, under one rule or the other. */
  function Leaps(gps: uint32, isUnixToGps: bool, table: seq<uint32>): (k: nat)
    ensures k <= |table|
  {
    if table == [] then 0
    else
      var n := |table| - 1;
      Leaps(gps, isUnixToGps, table[..n]) + if ShouldAddLeap(gps, table[n], n, isUnixToGps) then 1 else 0
  }

  method CountLeaps(gps: uint32, isUnixToGps: bool) returns (numLeaps: nat)
    ensures numLeaps == Leaps(gps, isUnixToGps, GPS_LEAP)
    ensures forall i | 0 <= i < |GPS_LEAP| :: i < numLeaps <==> gps >= Threshold(GPS_LEAP, i, isUnixToGps)
  {
    numLeaps := 0;
    for i := 0 to |GPS_LEAP|
      invariant numLeaps == Leaps(gps, isUnixToGps, GPS_LEAP[..i])
    {
      assert GPS_LEAP[..i + 1][..i] == GPS_LEAP[..i];
      if ShouldAddLeap(gps, GPS_LEAP[i], i, isUnixToGps) {
        numLeaps := numLeaps + 1;
      }
    }
    assert GPS_LEAP[..|GPS_LEAP|] == GPS_LEAP;
    TableIsSpaced();
    PrefixCount(gps, isUnixToGps, GPS_LEAP);
  }

  function Gps2UtcSpec(value: uint32, table: seq<uint32>): uint32 {
    Truncate32(value + EPOCH_DIFF - Leaps(value, false, table))
  }

  /** `value` is a 64-bit `time_t`; the argument of the count is its truncation. */
  function Utc2GpsSpec(value: int, table: seq<uint32>): uint32 {
    var gps := value - EPOCH_DIFF;
    Truncate32(gps + Leaps(Truncate32(gps), true, table))
  }

  method Gps2Utc(value: uint32) returns (r: uint32)
    ensures r == Gps2UtcSpec(value, GPS_LEAP)
  {
    r := Truncate32(value + EPOCH_DIFF);
    var n := CountLeaps(value, false);
    r := Truncate32(r - n);
  }

  method Utc2Gps(value: int) returns (r: uint32)
    ensures r == Utc2GpsSpec(value, GPS_LEAP)
  {
    var gps := value - EPOCH_DIFF;
    var n := CountLeaps(Truncate32(gps), true);
    gps := gps + n;
    r := Truncate32(gps);
  }

  // ---------- counting in a table whose instants are far apart ----------

  /** Leap instants are far apart compared with the number of leaps, and the first comes late. */
  predicate Spaced(table: seq<uint32>) {
    && |table| <= 18
    && (forall i | 0 <= i < |table| :: 46828800 <= table[i] <= 1167264017)
    && (forall i, j | 0 <= i < j < |table| :: table[i] + 100 < table[j])
  }

  lemma TableIsSpaced()
    ensures Spaced(GPS_LEAP) && |GPS_LEAP| == 18
  {}

  /** The instant at which entry `i` starts to count. */
  function Threshold(table: seq<uint32>, i: nat, isUnixToGps: bool): int
    requires i < |table|
  {
    table[i] - if isUnixToGps then i else 0
  }

  /** Thresholds increase, so the entries counted are always an initial segment of the table. */
  lemma {:induction false} PrefixCount(gps: uint32, isUnixToGps: bool, table: seq<uint32>)
    requires Spaced(table)
    ensures forall i | 0 <= i < |table| ::
              i < Leaps(gps, isUnixToGps, table) <==> gps >= Threshold(table, i, isUnixToGps)
  {
    if table != [] {
      var n := |table| - 1;
      var front := table[..n];
      PrefixCount(gps, isUnixToGps, front);
      assert forall i | 0 <= i < n :: Threshold(table, i, isUnixToGps) == Threshold(front, i, isUnixToGps)
                                      && Threshold(table, i, isUnixToGps) < Threshold(table, n, isUnixToGps);
      assert n > 0 && gps >= Threshold(table, n, isUnixToGps) ==> gps >= Threshold(front, n - 1, isUnixToGps);
    }
  }

  /** A count is pinned down by the two thresholds around it. */
  lemma CountIs(gps: uint32, isUnixToGps: bool, table: seq<uint32>, k: nat)
    requires Spaced(table) && k <= |table|
    requires k > 0 ==> gps >= Threshold(table, k - 1, isUnixToGps)
    requires k < |table| ==> gps < Threshold(table, k, isUnixToGps)
    ensures Leaps(gps, isUnixToGps, table) == k
  {
    PrefixCount(gps, isUnixToGps, table);
    assert k > 0 ==> k - 1 < Leaps(gps, isUnixToGps, table);
  }

  /** The thresholds around a count. */
  lemma Around(gps: uint32, isUnixToGps: bool, table: seq<uint32>) returns (k: nat)
    requires Spaced(table)
    ensures k == Leaps(gps, isUnixToGps, table) <= |table|
    ensures k > 0 ==> gps >= Threshold(table, k - 1, isUnixToGps)
    ensures k < |table| ==> gps < Threshold(table, k, isUnixToGps)
  {
    PrefixCount(gps, isUnixToGps, table);
    k := Leaps(gps, isUnixToGps, table);
    assert k > 0 ==> k - 1 < k;
  }

  // ---------- the two counts against each other, on seconds since the GPS epoch ----------

  function Forward(x: uint32, table: seq<uint32>): int {
    x + Leaps(x, true, table)
  }

  function Back(g: uint32, table: seq<uint32>): int {
    g - Leaps(g, false, table)
  }

  /** Adding the leaps and taking them away again is the identity, and never lands on a leap. */
  lemma ForwardThenBack(x: uint32, table: seq<uint32>)
    requires Spaced(table) && Forward(x, table) < TWO32
    ensures Back(Forward(x, table), table) == x
    ensures Forward(x, table) !in table
  {
    var k := Around(x, true, table);
    CountIs(Forward(x, table), false, table, k);
  }

  /** Taking the leaps away and adding them again loses exactly the inserted seconds. */
  lemma BackThenForward(g: uint32, table: seq<uint32>)
    requires Spaced(table)
    ensures 0 <= Back(g, table)
    ensures Forward(Back(g, table), table) == if g in table then g - 1 else g
  {
    var k := Around(g, false, table);
    var x := g - k;
    if k > 0 && g == table[k - 1] {
      CountIs(x, true, table, k - 1);
    } else {
      CountIs(x, true, table, k);
      assert g !in table;
    }
  }

  lemma ForwardStrict(a: uint32, b: uint32, table: seq<uint32>)
    requires Spaced(table) && a < b
    ensures Forward(a, table) < Forward(b, table)
  {
    var ka := Around(a, true, table);
    PrefixCount(b, true, table);
    assert ka > 0 ==> ka - 1 < Leaps(b, true, table);
  }

  lemma BackMonotone(a: uint32, b: uint32, table: seq<uint32>)
    requires Spaced(table) && a <= b
    ensures Back(a, table) <= Back(b, table)
  {
    BackThenForward(a, table);
    BackThenForward(b, table);
    if Back(b, table) < Back(a, table) {
      ForwardStrict(Back(b, table), Back(a, table), table);
    }
  }

  // ---------- the conversions of the program, on any table spaced like the real one ----------

  /** A UTC time survives the trip to GPS time and back exactly when it is representable in 32 bits
      and is not one of the eighteen seconds before the GPS epoch. */
  lemma UtcRoundTrip(u: int, table: seq<uint32>)
    requires Spaced(table) && |table| == 18
    ensures Gps2UtcSpec(Utc2GpsSpec(u, table), table) == u
       <==> 0 <= u < 0x1_0000_0000 && !(EPOCH_DIFF - 18 <= u < EPOCH_DIFF)
  {
    if EPOCH_DIFF <= u < TWO32 {
      ForwardThenBack(u - EPOCH_DIFF, table);
    } else if 0 <= u < EPOCH_DIFF {
      BeforeEpoch(u, table);
    }
  }

  /** Before the epoch the truncated argument is huge, so all eighteen leaps are counted. */
  lemma BeforeEpoch(u: int, table: seq<uint32>)
    requires Spaced(table) && |table| == 18
    requires 0 <= u < EPOCH_DIFF
    ensures Gps2UtcSpec(Utc2GpsSpec(u, table), table) == if u < EPOCH_DIFF - 18 then u else u + 18
  {
    var gps := u - EPOCH_DIFF;
    Wraps(gps);
    CountIs(gps + TWO32, true, table, 18);
    if gps + 18 < 0 {
      Wraps(gps + 18);
      CountIs(gps + 18 + TWO32, false, table, 18);
    } else {
      CountIs(gps + 18, false, table, 0);
    }
  }

  lemma Wraps(x: int)
    requires -TWO32 <= x < 0
    ensures Truncate32(x) == x + TWO32
  {}

  /** Every GPS time survives the trip to UTC and back, except that the eighteen leap instants come
      back one second early; 32-bit wrap-around does no harm. */
  lemma GpsRoundTrip(g: uint32, table: seq<uint32>)
    requires Spaced(table) && |table| == 18
    ensures Utc2GpsSpec(Gps2UtcSpec(g, table), table) == if g in table then g - 1 else g
  {
    BackThenForward(g, table);
    var u := g + EPOCH_DIFF - Leaps(g, false, table);
    if u >= TWO32 {
      CountIs(g, false, table, 18);
      CountIs(g - 18, true, table, 18);
      assert Truncate32(u) == u - TWO32;
      Wraps(u - TWO32 - EPOCH_DIFF);
      Wraps(g - TWO32);
    }
  }

  /** From the GPS epoch on the two conversions form a Galois connection, exactly at the GPS times
      whose UTC time still fits in 32 bits. */
  lemma GaloisConnection(u: int, g: uint32, table: seq<uint32>)
    requires Spaced(table) && |table| == 18
    requires EPOCH_DIFF <= u < TWO32
    ensures (Utc2GpsSpec(u, table) <= g <==> u <= Gps2UtcSpec(g, table))
       <==> g + EPOCH_DIFF - Leaps(g, false, table) < 0x1_0000_0000
  {
    var x := u - EPOCH_DIFF;
    BackThenForward(g, table);
    ForwardFits(x, table);
    UtcToGpsFits(u, table);
    GpsToUtcIs(g, table);
    if Back(g, table) + EPOCH_DIFF < TWO32 {
      GaloisOnSeconds(x, g, table);
    } else {
      ForwardStrict(x, Back(g, table), table);
    }
  }

  /** The conversions without their truncations. */
  lemma UtcToGpsFits(u: int, table: seq<uint32>)
    requires Spaced(table) && EPOCH_DIFF <= u < TWO32
    ensures Utc2GpsSpec(u, table) == Forward(u - EPOCH_DIFF, table)
  {
    ForwardFits(u - EPOCH_DIFF, table);
    SmallStays(u - EPOCH_DIFF);
    SmallStays(Forward(u - EPOCH_DIFF, table));
  }

  lemma GpsToUtcIs(g: uint32, table: seq<uint32>)
    requires Spaced(table)
    ensures var v := Back(g, table) + EPOCH_DIFF; Gps2UtcSpec(g, table) == if v < TWO32 then v else v - TWO32
  {
    BackThenForward(g, table);
  }

  lemma SmallStays(x: int)
    requires 0 <= x < TWO32
    ensures Truncate32(x) == x
  {}

  /** Seconds whose UTC time fits in 32 bits stay in range when the leaps are added. */
  lemma ForwardFits(x: uint32, table: seq<uint32>)
    requires Spaced(table) && x + EPOCH_DIFF < TWO32
    ensures Forward(x, table) < TWO32
  {
    var k := Around(x, true, table);
  }

  lemma GaloisOnSeconds(x: uint32, g: uint32, table: seq<uint32>)
    requires Spaced(table) && Forward(x, table) < TWO32
    ensures Forward(x, table) <= g <==> x <= Back(g, table)
  {
    ForwardThenBack(x, table);
    BackThenForward(g, table);
    if Forward(x, table) <= g {
      BackMonotone(Forward(x, table), g, table);
    }
    if x < Back(g, table) {
      ForwardStrict(x, Back(g, table), table);
    }
  }

  lemma UtcToGpsIncreases(u: int, v: int, table: seq<uint32>)
    requires Spaced(table) && EPOCH_DIFF <= u < v < TWO32
    ensures Utc2GpsSpec(u, table) < Utc2GpsSpec(v, table)
  {
    ForwardStrict(u - EPOCH_DIFF, v - EPOCH_DIFF, table);
    UtcToGpsFits(u, table);
    UtcToGpsFits(v, table);
  }

  /** Away from wrap-around, UTC to GPS is strictly increasing and GPS to UTC is monotone. */
  lemma ConversionsMonotone(u: int, v: int, g: uint32, h: uint32, table: seq<uint32>)
    requires Spaced(table) && |table| == 18
    requires EPOCH_DIFF <= u < v < TWO32
    requires g <= h && h + EPOCH_DIFF - Leaps(h, false, table) < TWO32
    ensures Utc2GpsSpec(u, table) < Utc2GpsSpec(v, table)
    ensures Gps2UtcSpec(g, table) <= Gps2UtcSpec(h, table)
  {
    UtcToGpsIncreases(u, v, table);
    BackMonotone(g, h, table);
    GpsToUtcIs(g, table);
    GpsToUtcIs(h, table);
  }

  // ---------- the table and the calendar ----------

  predicate IsLeapYear(y: int) { y % 4 == 0 && (y % 100 != 0 || y % 400 == 0) }

  /** Days from 1 January 1970 to 1 January of the year. */
  function DaysTo(year: nat): nat {
    if year <= 1970 then 0 else DaysTo(year - 1) + if IsLeapYear(year - 1) then 366 else 365
  }

  /** Days to 1 January or 1 July. */
  function HalfYear(year: nat, july: bool): nat {
    DaysTo(year) + if !july then 0 else if IsLeapYear(year) then 182 else 181
  }

  lemma {:induction false} DaysToIs(year: nat)
    requires 1970 <= year <= 2100
    ensures DaysTo(year) == 365 * (year - 1970) + (year - 1969) / 4
  {
    if year > 1970 { DaysToIs(year - 1); }
  }

  /** The half years in front of which a leap second was inserted: the year, and whether it is July. */
  function LeapDate(i: nat): (nat, bool)
    requires i < 18
  {
    match i {
      case 0 => (1981, true) case 1 => (1982, true) case 2 => (1983, true) case 3 => (1985, true)
      case 4 => (1988, false) case 5 => (1990, false) case 6 => (1991, false) case 7 => (1992, true)
      case 8 => (1993, true) case 9 => (1994, true) case 10 => (1996, false) case 11 => (1997, true)
      case 12 => (1999, false) case 13 => (2006, false) case 14 => (2009, false) case 15 => (2012, true)
      case 16 => (2015, true) case _ => (2017, false)
    }
  }

  /** The GPS epoch is 6 January 1980. */
  lemma EpochIs()
    ensures EPOCH_DIFF == 86400 * (DaysTo(1980) + 5)
  {
    DaysToIs(1980);
  }

  /** The days, counted without going through the years. */
  function HalfYearDays(year: nat, july: bool): int {
    365 * (year - 1970) + (year - 1969) / 4 + if !july then 0 else if year % 4 == 0 then 182 else 181
  }

  lemma HalfYearIs(year: nat, july: bool)
    requires 1970 <= year < 2100
    ensures HalfYear(year, july) == HalfYearDays(year, july)
  {
    DaysToIs(year);
  }

  lemma TableDays(i: nat)
    requires i < 18
    ensures 1970 <= LeapDate(i).0 < 2100
    ensures GPS_LEAP[i] == 86400 * HalfYearDays(LeapDate(i).0, LeapDate(i).1) - EPOCH_DIFF + i
  {
    match i {
      case 0 => case 1 => case 2 => case 3 => case 4 => case 5 => case 6 => case 7 => case 8 =>
      case 9 => case 10 => case 11 => case 12 => case 13 => case 14 => case 15 => case 16 => case _ =>
    }
  }

  /** Entry `i` is midnight of its date in GPS time, which by then is `i` leap seconds ahead. */
  lemma TableIsCalendar(i: nat)
    requires i < 18
    ensures GPS_LEAP[i] == 86400 * HalfYear(LeapDate(i).0, LeapDate(i).1) - EPOCH_DIFF + i
  {
    TableDays(i);
    HalfYearIs(LeapDate(i).0, LeapDate(i).1);
  }
}
