/** The default table: eight segments from 8h to 20h. */
module DefaultSun {
  import opened SolarSpec

  function Affine(start: nat, hours: nat, interval: nat, a: real, b: real): Segment
  {
    Segment(start, hours * HOUR, interval, true, a, b)
  }

  const DAWN := 8 * HOUR
  const NOON := 14 * HOUR
  const DUSK := 20 * HOUR

  /** Each segment starts where the one before ends. */
  function DefaultTable(): Table
  {
    var s0 := Affine(DAWN, 1, 1, 37.5, 12.5);
    var s1 := Affine(s0.start + s0.period, 2, 1, 15.0, 35.0);
    var s2 := Affine(s1.start + s1.period, 2, 60, 7.5, 57.5);
    var s3 := Affine(s2.start + s2.period, 1, 30, 5.0, 70.0);
    var s4 := Affine(s3.start + s3.period, 1, 30, -5.0, 130.0);
    var s5 := Affine(s4.start + s4.period, 2, 60, -7.5, 147.5);
    var s6 := Affine(s5.start + s5.period, 2, 1, -15.0, 215.0);
    var s7 := Affine(s6.start + s6.period, 1, 1, -37.5, 462.5);
    Table(DAWN, [s0, s1, s2, s3, s4, s5, s6, s7])
  }

  /** The segment of a moment of daylight. */
  function SegmentAt(t: nat): nat
  {
    if t < 9 * HOUR then 0
    else if t < 11 * HOUR then 1
    else if t < 13 * HOUR then 2
    else if t < NOON then 3
    else if t < 15 * HOUR then 4
    else if t < 17 * HOUR then 5
    else if t < 19 * HOUR then 6
    else 7
  }

  /** The eight segments tile the day from 8h to 20h: each moment is in exactly one of them. */
  lemma Tiles(t: nat, k: nat)
    requires k < 8
    ensures In(DefaultTable().segments[k], t) <==> DAWN <= t < DUSK && k == SegmentAt(t)
  {
  }

  lemma DefaultSearch(t: nat)
    ensures Search(DefaultTable(), t) == if DAWN <= t < DUSK then SegmentAt(t) else -1
  {
    hide DefaultTable;
    var k := Search(DefaultTable(), t);
    EightSegments();
    if k >= 0 {
      Tiles(t, k);
    } else {
      Tiles(t, SegmentAt(t));
    }
  }

  lemma EightSegments()
    ensures |DefaultTable().segments| == 8
  {
  }

  lemma DefaultIsDisjoint()
    ensures Disjoint(DefaultTable()) && WithinDay(DefaultTable())
  {
    hide SegmentAt;
    forall i, j, t: nat | 0 <= i < j < 8 && In(DefaultTable().segments[i], t)
      ensures !In(DefaultTable().segments[j], t)
    {
      Tiles(t, i);
      Tiles(t, j);
    }
  }

  // ----- The shape of the curve -----

  /** Half a day of light: straight lines through 12.5, 50, 80, 95 and 100 per cent at hours 0, 1, 3, 5 and 6. */
  function Rise(x: real): real
  {
    if x < 1.0 then 12.5 + 37.5 * x
    else if x < 3.0 then 50.0 + 15.0 * (x - 1.0)
    else if x < 5.0 then 80.0 + 7.5 * (x - 3.0)
    else 95.0 + 5.0 * (x - 5.0)
  }

  /** The afternoon is the morning backwards. */
  function Curve(x: real): real
  {
    Rise(if x < 6.0 then x else 12.0 - x)
  }

  /** Every segment follows the curve from its start to its end, the end included: neighbours meet there. */
  lemma SegmentIsCurve(k: nat, t: nat)
    requires k < 8
    requires var g := DefaultTable().segments[k]; g.start <= t <= g.start + g.period
    ensures Height(DefaultTable(), k, t) == Curve(Hours(DefaultTable(), t))
  {
  }

  /** The heights at the ends of the segments: 12.5 per cent at 8h, 50 at 9h, 80 at 11h, 95 at 13h, 100 at 14h. */
  lemma CurveHeights()
    ensures
      var p := DefaultTable();
      && Height(p, 0, 8 * HOUR) == 12.5 && Height(p, 1, 9 * HOUR) == 50.0 && Height(p, 2, 11 * HOUR) == 80.0
      && Height(p, 3, 13 * HOUR) == 95.0 && Height(p, 4, 14 * HOUR) == 100.0 && Height(p, 5, 15 * HOUR) == 95.0
      && Height(p, 6, 17 * HOUR) == 80.0 && Height(p, 7, 19 * HOUR) == 50.0 && Height(p, 7, 20 * HOUR) == 12.5
  {
  }

  lemma CurveIsSymmetric(x: real)
    ensures Curve(12.0 - x) == Curve(x)
  {
  }

  /** So it falls from noon on, and 100 per cent is for noon alone. */
  lemma RisesUntilNoon(x: real, y: real)
    requires 0.0 <= x < y <= 6.0
    ensures 12.5 <= Curve(x) < Curve(y) <= 100.0
    ensures Curve(6.0) == 100.0
  {
  }

  /** The curve is continuous: it nowhere changes by more than 37.5 per cent an hour. */
  lemma CurveIsContinuous(x: real, y: real)
    requires 0.0 <= x <= y <= 12.0
    ensures -37.5 * (y - x) <= Curve(y) - Curve(x) <= 37.5 * (y - x)
  {
    if x <= 6.0 < y {
      RiseIsContinuous(x, 6.0);
      RiseIsContinuous(12.0 - y, 6.0);
    } else if y <= 6.0 {
      RiseIsContinuous(x, y);
    } else {
      RiseIsContinuous(12.0 - y, 12.0 - x);
    }
  }

  lemma RiseIsContinuous(x: real, y: real)
    requires 0.0 <= x <= y <= 6.0
    ensures 0.0 <= Rise(y) - Rise(x) <= 37.5 * (y - x)
  {
  }

  /** The duty cycle set in daylight is the height of the curve, except at noon: 100 per cent is refused, and 50 set. */
  lemma DutyIsCurveIff(duty: real, t: nat)
    requires DAWN <= t < DUSK
    ensures Fresh(DefaultTable(), duty, t) == Curve(Hours(DefaultTable(), t)) <==> t != NOON
    ensures t == NOON ==> Curve(Hours(DefaultTable(), t)) == 100.0 && Fresh(DefaultTable(), duty, t) == 50.0
  {
    var x := Hours(DefaultTable(), t);
    var k := SegmentAt(t);
    DefaultSearch(t);
    Tiles(t, k);
    SegmentIsCurve(k, t);
    CurveBounds(t);
    AllAffine(k);
  }

  lemma AllAffine(k: nat)
    requires k < 8
    ensures DefaultTable().segments[k].affine
  {
  }

  lemma CurveBounds(t: nat)
    requires DAWN <= t < DUSK
    ensures var y := Curve(Hours(DefaultTable(), t)); 0.0 < y <= 100.0 && (y == 100.0 <==> t == NOON)
  {
    var x := Hours(DefaultTable(), t);
    if t != NOON {
      RisesUntilNoon(if x < 6.0 then x else 12.0 - x, 6.0);
    }
  }

  // ----- Noon is reached -----

  /** The default interval, in seconds. */
  function Pace(t: nat): nat
  {
    if 11 * HOUR <= t < 13 * HOUR || 15 * HOUR <= t < 17 * HOUR then 60
    else if 13 * HOUR <= t < 15 * HOUR then 30
    else 1
  }

  lemma DefaultPace(k: nat, t: nat)
    requires k < 8 && In(DefaultTable().segments[k], t)
    ensures DefaultTable().segments[k].interval == Pace(t)
  {
  }

  /** Times on the way to noon: every second until 11h, then whole minutes, then half minutes. */
  predicate OnTheMinute(t: nat)
  {
    && t <= NOON
    && (11 * HOUR <= t < 13 * HOUR ==> t % 60 == 0)
    && (13 * HOUR <= t ==> t % 30 == 0)
  }

  lemma NextMinute(t: nat)
    requires OnTheMinute(t) && t < NOON
    ensures OnTheMinute(t + Pace(t)) && (t + Pace(t)) % DAY == t + Pace(t)
  {
    OnAMinuteLater(t);
    HalfMinutes(t + 60);
    if 11 * HOUR <= t < 13 * HOUR {
      WholeMinutes(t);
    } else if 13 * HOUR <= t {
      LastHalfMinute(t);
    }
  }

  lemma OnAMinuteLater(t: nat)
    ensures (t + 60) % 60 == t % 60 && (t + 30) % 30 == t % 30
  {
  }

  lemma HalfMinutes(t: nat)
    ensures t % 60 == 0 ==> t % 30 == 0
  {
  }

  lemma WholeMinutes(t: nat)
    requires t < 13 * HOUR && t % 60 == 0
    ensures t + 60 <= 13 * HOUR
  {
  }

  lemma LastHalfMinute(t: nat)
    requires t < NOON && t % 30 == 0
    ensures t + 30 <= NOON
  {
  }

  predicate OnTheWay(s: Sun, t: nat)
  {
    InStep(DefaultTable(), s, t) && OnTheMinute(t) && (t < DAWN ==> s.interval == 1)
  }

  /** The interval to the next tick. */
  lemma TickPace(s: Sun, t: nat)
    requires InStep(DefaultTable(), s, t) && t < DUSK && (t < DAWN ==> s.interval == 1)
    ensures Tick(DefaultTable(), s, t).interval == Pace(t)
  {
    hide DefaultTable;
    DefaultIsDisjoint();
    UsedIsFreshIff(DefaultTable(), s, t);
    DefaultSearch(t);
    EightSegments();
    if t >= DAWN {
      DefaultPace(SegmentAt(t), t) by {
        Tiles(t, SegmentAt(t));
      }
    }
  }

  lemma OneTickOnTheWay(s: Sun, t: nat)
    requires OnTheWay(s, t) && t < NOON
    ensures Tick(DefaultTable(), s, t).interval == Pace(t)
    ensures OnTheWay(Tick(DefaultTable(), s, t), t + Pace(t)) && (t + Pace(t)) % DAY == t + Pace(t)
  {
    hide DefaultTable, Tick, InStep, In;
    DefaultIsDisjoint();
    TickPace(s, t);
    TickKeepsStep(DefaultTable(), s, t);
    NextMinute(t);
  }

  ghost predicate AtNoonAfter(s: Sun, t: nat, n: nat)
  {
    && Fits(DefaultTable(), s)
    && var (s', t') := After(DefaultTable(), s, t, n);
       t' == NOON && InStep(DefaultTable(), s', NOON)
  }

  lemma OneTickLess(s: Sun, t: nat, n: nat)
    requires OnTheWay(s, t) && t < NOON && AtNoonAfter(Tick(DefaultTable(), s, t), t + Pace(t), n)
    ensures AtNoonAfter(s, t, n + 1)
  {
    hide DefaultTable, After, Tick, InStep, OnTheMinute;
    OneTickOnTheWay(s, t);
    InStepFits(DefaultTable(), s, t);
    AfterFirst(DefaultTable(), s, t, n);
  }

  lemma {:induction false} NoonIsAhead(s: Sun, t: nat) returns (n: nat)
    requires OnTheWay(s, t)
    ensures AtNoonAfter(s, t, n)
    decreases NOON - t
  {
    hide AtNoonAfter, Tick, InStep, DefaultTable, Fits;
    InStepFits(DefaultTable(), s, t);
    if t >= NOON {
      n := 0;
      AlreadyNoon(s, t);
    } else {
      OneTickOnTheWay(s, t);
      n := NoonIsAhead(Tick(DefaultTable(), s, t), t + Pace(t));
      OneTickLess(s, t, n);
      n := n + 1;
    }
  }

  lemma AlreadyNoon(s: Sun, t: nat)
    requires OnTheWay(s, t) && t >= NOON
    ensures AtNoonAfter(s, t, 0)
  {
  }

  lemma InStepFits(p: Table, s: Sun, t: nat)
    requires InStep(p, s, t)
    ensures Fits(p, s)
  {
  }

  /** The controller as it is constructed. */
  const NEW_SUN := Sun(-1, 1, 0.0, 1.0)

  /**
   * A new controller whose first tick comes at 11h or earlier, and which is
   * then ticked exactly as it asks, is ticked at noon: the light falls from its
   * brightest to 50 per cent.
   */
  lemma NoonIsReached(t: nat) returns (n: nat)
    requires t <= 11 * HOUR
    ensures
      var (s', t') := After(DefaultTable(), NEW_SUN, t, n);
      t' == NOON && Fits(DefaultTable(), s') && Tick(DefaultTable(), s', NOON).duty == 50.0
  {
    hide DefaultTable, After;
    n := NoonIsAhead(NEW_SUN, t);
    NoonIsHalf(After(DefaultTable(), NEW_SUN, t, n).0);
  }

  lemma NoonIsHalf(s: Sun)
    requires InStep(DefaultTable(), s, NOON)
    ensures Tick(DefaultTable(), s, NOON).duty == 50.0
  {
    hide DefaultTable;
    DefaultIsDisjoint();
    EveryTickIsFresh(DefaultTable(), s, NOON, 0);
    DutyIsCurveIff(s.duty, NOON);
  }
}
