/**
 Crystal correction (gw-dev/usb/rak2287.cpp, `gpsCheckTimeRunner`) and the guard of the beacon thread
 that reads it (`downstreamBeaconRunner`).  Doubles are real numbers; a division by zero gives a value
 that is not finite.
 */
module XtalCorrection {

  const GPS_REF_MAX_AGE := 30
  const XERR_INIT_AVG := 16
  const XERR_FILT_COEF := 256.0

  /** One look at the time reference: its age in seconds and its crystal error. */
  datatype Sample = Sample(age: int, err: real)

  predicate Usable(s: Sample) {
    0 <= s.age <= GPS_REF_MAX_AGE
  }

  datatype Number = Finite(value: real) | NotFinite

  function Quotient(a: real, b: real): Number {
    if b == 0.0 then NotFinite else Finite(a / b)
  }

  // ---------- the averaging ----------

  /** Variables of the check thread and the two it shares. */
  datatype Check = Check(initCpt: nat, initAcc: real, correct: Number, ok: bool)

  const START := Check(0, 0.0, Finite(1.0), false)

  /** One step of the low-pass filter. */
  function Track(correct: Number, err: real): Number {
    var x := Quotient(1.0, err);
    if correct.Finite? && x.Finite? then
      Finite(correct.value - correct.value / XERR_FILT_COEF + x.value / XERR_FILT_COEF)
    else NotFinite
  }

  function Update(c: Check, s: Sample): Check {
    if !Usable(s) then START
    else if c.initCpt < XERR_INIT_AVG then c.(initAcc := c.initAcc + s.err, initCpt := c.initCpt + 1)
    else if c.initCpt == XERR_INIT_AVG then
      c.(correct := Quotient(16.0, c.initAcc), ok := true, initCpt := c.initCpt + 1)
    else c.(correct := Track(c.correct, s.err))
  }

  function Run(samples: seq<Sample>): Check {
    if samples == [] then START else Update(Run(samples[..|samples| - 1]), samples[|samples| - 1])
  }

  /** Number of usable samples since the last unusable one. */
  function Streak(samples: seq<Sample>): (n: nat)
    ensures n <= |samples|
  {
    if samples == [] || !Usable(samples[|samples| - 1]) then 0 else 1 + Streak(samples[..|samples| - 1])
  }

  lemma {:induction false} StreakIsLatest(samples: seq<Sample>, n: nat)
    requires n <= |samples|
    ensures n <= Streak(samples) <==> forall i :: |samples| - n <= i < |samples| ==> Usable(samples[i])
  {
    if n > 0 {
      var before := samples[..|samples| - 1];
      if Usable(samples[|samples| - 1]) {
        StreakIsLatest(before, n - 1);
        assert forall i :: 0 <= i < |before| ==> before[i] == samples[i];
      }
    }
  }

  /** The correction is marked good exactly after 17 usable samples in a row, and is 1.0 otherwise. */
  lemma {:induction false} GoodAfterSeventeen(samples: seq<Sample>)
    ensures Run(samples).ok <==> Streak(samples) >= 17
    ensures !Run(samples).ok ==> Run(samples).correct == Finite(1.0)
    ensures Run(samples).initCpt == if Streak(samples) < 17 then Streak(samples) else 17
  {
    if samples != [] { GoodAfterSeventeen(samples[..|samples| - 1]); }
  }

  /** Only samples of at most thirty seconds count; any other starts everything anew. */
  lemma AgeDecides(samples: seq<Sample>, s: Sample)
    ensures Run(samples + [s]) == START <==> !(0 <= s.age <= 30)
    ensures 0 <= s.age <= 30 ==> Streak(samples + [s]) == Streak(samples) + 1
  {
    assert (samples + [s])[..|samples|] == samples;
    GoodAfterSeventeen(samples + [s]);
  }

  /** A good correction follows the measured error: a step removes one part in 256 of the distance to 1/err. */
  lemma StepMovesCloser(samples: seq<Sample>, s: Sample)
    requires Run(samples).ok && Run(samples).correct.Finite? && Usable(s) && s.err != 0.0
    ensures var c, d := Run(samples).correct, Run(samples + [s]).correct;
            d.Finite? && d.value - 1.0 / s.err == (c.value - 1.0 / s.err) * 255.0 / 256.0
  {
    assert (samples + [s])[..|samples|] == samples;
    GoodAfterSeventeen(samples);
  }

  // ---------- bounds ----------

  /** Measured errors of usable samples lie in [a, b]. */
  predicate Within(samples: seq<Sample>, a: real, b: real) {
    forall i :: 0 <= i < |samples| && Usable(samples[i]) ==> a <= samples[i].err <= b
  }

  predicate Between(n: Number, low: real, high: real) {
    n.Finite? && low <= n.value <= high
  }

  function Times(n: nat, a: real): real { n as real * a }

  lemma OneMore(n: nat, a: real)
    ensures Times(n + 1, a) == Times(n, a) + a && Times(0, a) == 0.0 && Times(16, a) == 16.0 * a
  {}

  /** What the averaging keeps when all errors lie in [a, b]. */
  predicate Bounded(c: Check, a: real, b: real)
    requires 0.0 < a <= b
  {
    && c.initCpt <= 17
    && (c.initCpt <= 16 ==> Times(c.initCpt, a) <= c.initAcc <= Times(c.initCpt, b))
    && (c.ok ==> c.initCpt == 17 && Between(c.correct, 1.0 / b, 1.0 / a))
  }

  lemma Inverses(x: real, a: real, b: real)
    requires 0.0 < a <= x <= b
    ensures 1.0 / b <= 1.0 / x <= 1.0 / a
  {
    Reciprocal(x, b);
    Reciprocal(a, x);
  }

  lemma Reciprocal(x: real, y: real)
    requires 0.0 < x <= y
    ensures 1.0 / y <= 1.0 / x
  {
    var p, q := 1.0 / x, 1.0 / y;
    assert p * x == 1.0 && q * y == 1.0;
    Scale(p, x, y);
    Cancel(p, q, y);
  }

  lemma Scale(p: real, x: real, y: real)
    requires 0.0 <= p && x <= y
    ensures p * x <= p * y
  {}

  lemma Cancel(p: real, q: real, y: real)
    requires 0.0 < y && q * y <= p * y
    ensures q <= p
  {}

  lemma AverageInverse(acc: real, a: real, b: real)
    requires 0.0 < a && 16.0 * a <= acc <= 16.0 * b
    ensures acc != 0.0 && 1.0 / b <= 16.0 / acc <= 1.0 / a
  {
    var mean := acc / 16.0;
    Inverses(mean, a, b);
    assert (16.0 / acc) * mean == 1.0;
    assert 16.0 / acc == 1.0 / mean;
  }

  lemma FilterStaysBetween(c: real, x: real, low: real, high: real)
    requires low <= c <= high && low <= x <= high
    ensures low <= c - c / XERR_FILT_COEF + x / XERR_FILT_COEF <= high
  {}

  lemma TrackStaysBetween(n: Number, err: real, a: real, b: real)
    requires 0.0 < a <= err <= b && Between(n, 1.0 / b, 1.0 / a)
    ensures Between(Track(n, err), 1.0 / b, 1.0 / a)
  {
    Inverses(err, a, b);
    FilterStaysBetween(n.value, 1.0 / err, 1.0 / b, 1.0 / a);
  }

  lemma AverageStaysBetween(acc: real, a: real, b: real)
    requires 0.0 < a && Times(16, a) <= acc <= Times(16, b)
    ensures Between(Quotient(16.0, acc), 1.0 / b, 1.0 / a)
  {
    OneMore(0, a);
    OneMore(0, b);
    AverageInverse(acc, a, b);
  }

  lemma UpdateBounded(c: Check, s: Sample, a: real, b: real)
    requires 0.0 < a <= b && Bounded(c, a, b)
    requires Usable(s) ==> a <= s.err <= b
    requires c.initCpt == 17 <==> c.ok
    ensures Bounded(Update(c, s), a, b)
  {
    if !Usable(s) {
      OneMore(0, a);
      OneMore(0, b);
    } else if c.initCpt < 16 {
      OneMore(c.initCpt, a);
      OneMore(c.initCpt, b);
    } else if c.initCpt == 16 {
      AverageStaysBetween(c.initAcc, a, b);
    } else {
      TrackStaysBetween(c.correct, s.err, a, b);
    }
  }

  lemma {:induction false} RunBounded(samples: seq<Sample>, a: real, b: real)
    requires 0.0 < a <= b && Within(samples, a, b)
    ensures Bounded(Run(samples), a, b)
  {
    if samples == [] {
      OneMore(0, a);
      OneMore(0, b);
    } else {
      var before := samples[..|samples| - 1];
      assert forall i :: 0 <= i < |before| ==> before[i] == samples[i];
      RunBounded(before, a, b);
      GoodAfterSeventeen(before);
      UpdateBounded(Run(before), samples[|samples| - 1], a, b);
    }
  }

  /** With all errors in [a, b] a good correction lies in [1/b, 1/a]. */
  lemma GoodCorrectionBounded(samples: seq<Sample>, a: real, b: real)
    requires 0.0 < a <= b && Within(samples, a, b) && Run(samples).ok
    ensures Between(Run(samples).correct, 1.0 / b, 1.0 / a)
  {
    RunBounded(samples, a, b);
  }

  // ---------- the check thread ----------

  class TimeCheck {
    var refValid: bool
    var xtalCorrectOk: bool
    var xtalCorrect: Number
    var initCpt: nat
    var initAcc: real

    ghost function State(): Check
      reads this
    {
      Check(initCpt, initAcc, xtalCorrect, xtalCorrectOk)
    }

    constructor ()
      ensures State() == START && !refValid
    {
      refValid, xtalCorrectOk, xtalCorrect := false, false, Finite(1.0);
      initCpt, initAcc := 0, 0.0;
    }

    /** One turn of the loop. */
    method Turn(s: Sample)
      modifies this
      ensures refValid == Usable(s) && State() == Update(old(State()), s)
    {
      var refValidLocal: bool, xtalErrCpy: real := false, 0.0;
      if s.age >= 0 && s.age <= GPS_REF_MAX_AGE {
        refValid := true;
        refValidLocal := true;
        xtalErrCpy := s.err;
      } else {
        refValid := false;
        refValidLocal := false;
      }
      if !refValidLocal {
        xtalCorrectOk := false;
        xtalCorrect := Finite(1.0);
        initCpt := 0;
        initAcc := 0.0;
      } else if initCpt < XERR_INIT_AVG {
        initAcc := initAcc + xtalErrCpy;
        initCpt := initCpt + 1;
      } else if initCpt == XERR_INIT_AVG {
        xtalCorrect := Quotient(XERR_INIT_AVG as real, initAcc);
        xtalCorrectOk := true;
        initCpt := initCpt + 1;
      } else {
        xtalCorrect := Track(xtalCorrect, xtalErrCpy);
      }
    }
  }

  // ---------- two threads ----------

  /** The check thread between its two critical sections holds a sample it has not used yet. */
  datatype CheckAt = Waiting | Holding(sample: Sample)

  /** The beacon thread: outside, with the reference locked, after reading `gps_ref_valid`, after the guard. */
  datatype BeaconAt = Outside | Locked | RefRead(valid: bool) | Decided(guard: bool)

  /** `samples` is everything the check thread has looked at. */
  datatype System = System(refValid: bool, check: Check, checkAt: CheckAt, beaconAt: BeaconAt, samples: seq<Sample>)

  const BOOT := System(false, START, Waiting, Outside, [])

  datatype Move = Look(sample: Sample) | Correct | Lock | ReadRef | ReadOk | Unlock

  /** The reference mutex excludes `Look` and the beacon's section; the correction is read without it. */
  predicate Enabled(y: System, m: Move) {
    match m
    case Look(_) => y.checkAt == Waiting && y.beaconAt == Outside
    case Correct => y.checkAt.Holding?
    case Lock => y.beaconAt == Outside
    case ReadRef => y.beaconAt == Locked
    case ReadOk => y.beaconAt.RefRead?
    case Unlock => y.beaconAt.Decided?
  }

  function Do(y: System, m: Move): System
    requires Enabled(y, m)
  {
    match m
    case Look(s) => y.(refValid := Usable(s), checkAt := Holding(s), samples := y.samples + [s])
    case Correct => y.(check := Update(y.check, y.checkAt.sample), checkAt := Waiting)
    case Lock => y.(beaconAt := Locked)
    case ReadRef => y.(beaconAt := RefRead(y.refValid))
    case ReadOk => y.(beaconAt := Decided(y.beaconAt.valid && y.check.ok))
    case Unlock => y.(beaconAt := Outside)
  }

  predicate Schedule(y: System, moves: seq<Move>)
    decreases |moves|
  {
    moves == [] || (Enabled(y, moves[0]) && Schedule(Do(y, moves[0]), moves[1..]))
  }

  function After(y: System, moves: seq<Move>): System
    requires Schedule(y, moves)
    decreases |moves|
  {
    if moves == [] then y else After(Do(y, moves[0]), moves[1..])
  }

  /** The samples whose correction has been applied. */
  function Applied(y: System): seq<Sample> {
    if y.checkAt.Holding? && y.samples != [] then y.samples[..|y.samples| - 1] else y.samples
  }

  predicate Consistent(y: System) {
    && (y.checkAt.Holding? ==> y.samples != [] && y.samples[|y.samples| - 1] == y.checkAt.sample)
    && y.check == Run(Applied(y))
    && (y.refValid <==> y.samples != [] && Usable(y.samples[|y.samples| - 1]))
    && (y.beaconAt.RefRead? && y.beaconAt.valid ==> y.refValid)
    && (y.beaconAt.Decided? && y.beaconAt.guard ==> Streak(y.samples) >= 17)
  }

  lemma LookConsistent(y: System, s: Sample)
    requires Consistent(y) && Enabled(y, Look(s))
    ensures Consistent(Do(y, Look(s)))
  {
    assert (y.samples + [s])[..|y.samples|] == y.samples;
  }

  lemma CorrectConsistent(y: System)
    requires Consistent(y) && Enabled(y, Correct)
    ensures Consistent(Do(y, Correct))
  {}

  lemma ReadOkConsistent(y: System)
    requires Consistent(y) && Enabled(y, ReadOk)
    ensures Consistent(Do(y, ReadOk))
  {
    GoodAfterSeventeen(Applied(y));
    if y.checkAt.Holding? { assert y.samples == Applied(y) + [y.checkAt.sample]; }
  }

  lemma LockConsistent(y: System, m: Move)
    requires Consistent(y) && Enabled(y, m) && (m == Lock || m == ReadRef || m == Unlock)
    ensures Consistent(Do(y, m))
  {
    assert Applied(Do(y, m)) == Applied(y);
  }

  lemma MoveConsistent(y: System, m: Move)
    requires Consistent(y) && Enabled(y, m)
    ensures Consistent(Do(y, m))
  {
    match m
    case Look(s) => LookConsistent(y, s);
    case Correct => CorrectConsistent(y);
    case ReadOk => ReadOkConsistent(y);
    case _ => LockConsistent(y, m);
  }

  /** Under every interleaving the beacon thread's guard holds only if the last 17 samples were usable. */
  lemma {:induction false} GuardIsSound(y: System, moves: seq<Move>)
    requires Consistent(y) && Schedule(y, moves)
    ensures Consistent(After(y, moves))
    decreases |moves|
  {
    if moves != [] {
      MoveConsistent(y, moves[0]);
      GuardIsSound(Do(y, moves[0]), moves[1..]);
    }
  }

  lemma GuardMeansSeventeen(moves: seq<Move>)
    requires Schedule(BOOT, moves) && After(BOOT, moves).beaconAt == Decided(true)
    ensures var s := After(BOOT, moves).samples;
            |s| >= 17 && forall i :: |s| - 17 <= i < |s| ==> Usable(s[i])
  {
    GuardIsSound(BOOT, moves);
    StreakIsLatest(After(BOOT, moves).samples, 17);
  }

  // ---------- the guard is reached ----------

  /** The check thread takes one sample after the other. */
  function Taking(samples: seq<Sample>): seq<Move> {
    if samples == [] then [] else Taking(samples[..|samples| - 1]) + [Look(samples[|samples| - 1]), Correct]
  }

  const GUARD := [Lock, ReadRef, ReadOk]

  lemma {:induction false} ScheduleAppend(y: System, a: seq<Move>, b: seq<Move>)
    requires Schedule(y, a) && Schedule(After(y, a), b)
    ensures Schedule(y, a + b) && After(y, a + b) == After(After(y, a), b)
    decreases |a|
  {
    if a == [] {
      assert a + b == b;
    } else {
      assert (a + b)[0] == a[0] && (a + b)[1..] == a[1..] + b;
      ScheduleAppend(Do(y, a[0]), a[1..], b);
    }
  }

  lemma TwoMoves(y: System, m: Move, n: Move)
    requires Enabled(y, m) && Enabled(Do(y, m), n)
    ensures Schedule(y, [m, n]) && After(y, [m, n]) == Do(Do(y, m), n)
  {
    assert [m, n][1..] == [n] && [n][1..] == [];
    assert After(Do(y, m), [n]) == After(Do(Do(y, m), n), []);
  }

  predicate RefUsable(samples: seq<Sample>) {
    samples != [] && Usable(samples[|samples| - 1])
  }

  lemma {:induction false} SamplesTaken(samples: seq<Sample>)
    ensures Schedule(BOOT, Taking(samples))
    ensures After(BOOT, Taking(samples)) == System(RefUsable(samples), Run(samples), Waiting, Outside, samples)
  {
    if samples != [] {
      var before, s := samples[..|samples| - 1], samples[|samples| - 1];
      SamplesTaken(before);
      var y := After(BOOT, Taking(before));
      TwoMoves(y, Look(s), Correct);
      ScheduleAppend(BOOT, Taking(before), [Look(s), Correct]);
      assert before + [s] == samples;
    }
  }

  lemma GuardMoves(y: System)
    requires y.beaconAt == Outside
    ensures Schedule(y, GUARD) && After(y, GUARD) == y.(beaconAt := Decided(y.refValid && y.check.ok))
    ensures Enabled(After(y, GUARD), Unlock) && Do(After(y, GUARD), Unlock) == y
  {
    TwoMoves(Do(y, Lock), ReadRef, ReadOk);
    assert GUARD[1..] == [ReadRef, ReadOk];
  }

  /**
   For all samples there is a schedule that takes them and lets the beacon thread read its guard, which then
   holds exactly when the last 17 were usable; leaving the section changes nothing else.
   */
  lemma GuardReached(samples: seq<Sample>)
    ensures Schedule(BOOT, Taking(samples)) && Schedule(BOOT, Taking(samples) + GUARD)
    ensures var y := After(BOOT, Taking(samples) + GUARD);
            && y.samples == samples && y.beaconAt == Decided(Streak(samples) >= 17)
            && Enabled(y, Unlock) && Do(y, Unlock) == After(BOOT, Taking(samples))
  {
    SamplesTaken(samples);
    GuardMoves(After(BOOT, Taking(samples)));
    ScheduleAppend(BOOT, Taking(samples), GUARD);
    GoodAfterSeventeen(samples);
  }
}
