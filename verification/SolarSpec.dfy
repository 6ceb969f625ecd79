/** The solar curve: segments of the day, the segment index kept from one tick to the next, and the duty cycle. */
module SolarSpec {

  const HOUR := 3600
  const DAY := 24 * HOUR

  /** A part of the curve: from when, for how long, how often it is evaluated, and y = a x + b if it is affine. */
  datatype Segment = Segment(start: nat, period: nat, interval: nat, affine: bool, a: real, b: real)

  /** A table of segments; x is counted in hours from `dawn`. */
  datatype Table = Table(dawn: int, segments: seq<Segment>)

  predicate In(s: Segment, t: nat)
  {
    s.start <= t < s.start + s.period
  }

  /** A stateless search: the first segment that `t` is in, or -1. */
  function Search(p: Table, t: nat): (k: int)
    ensures -1 <= k < |p.segments|
    ensures k >= 0 ==> In(p.segments[k], t) && forall j | 0 <= j < k :: !In(p.segments[j], t)
    ensures k == -1 ==> forall j | 0 <= j < |p.segments| :: !In(p.segments[j], t)
  {
    SearchFrom(p, t, 0)
  }

  function SearchFrom(p: Table, t: nat, i: nat): (k: int)
    requires i <= |p.segments|
    ensures k == -1 || i <= k < |p.segments|
    ensures k >= 0 ==> In(p.segments[k], t) && forall j | i <= j < k :: !In(p.segments[j], t)
    ensures k == -1 ==> forall j | i <= j < |p.segments| :: !In(p.segments[j], t)
    decreases |p.segments| - i
  {
    if i == |p.segments| then -1 else if In(p.segments[i], t) then i else SearchFrom(p, t, i + 1)
  }

  function Hours(p: Table, t: nat): real
  {
    (t - p.dawn) as real / 3600.0
  }

  function Height(p: Table, k: nat, t: nat): real
    requires k < |p.segments|
  {
    p.segments[k].a * Hours(p, t) + p.segments[k].b
  }

  /** What SetRapportCyclique makes of a ratio outside the open range. */
  function Allowed(y: real): real
  {
    if 0.0 < y < 100.0 then y else 50.0
  }

  lemma AllowedIff(y: real)
    ensures Allowed(y) == y <==> 0.0 < y < 100.0
  {
  }

  // ----- The controller -----

  /** sIndexlSegment, usIntervalleX, dX, and the duty cycle. */
  datatype Sun = Sun(index: int, interval: nat, x: real, duty: real)

  predicate Fits(p: Table, s: Sun)
  {
    -1 <= s.index < |p.segments|
  }

  /** The index by which a tick at `t` evaluates the curve. */
  function Used(p: Table, s: Sun, t: nat): int
  {
    if s.index == -1 then Search(p, t) else s.index
  }

  /** One call of iGererCourbe at `t` seconds from midnight. */
  function Tick(p: Table, s: Sun, t: nat): (s': Sun)
    requires Fits(p, s)
    ensures Fits(p, s')
  {
    var k := Used(p, s, t);
    if k == -1 then s.(x := Hours(p, t))
    else
      var g := p.segments[k];
      Sun(if t + g.interval >= g.start + g.period then -1 else k,
          if s.index == -1 then g.interval else s.interval,
          Hours(p, t),
          if g.affine then Allowed(Height(p, k, t)) else s.duty)
  }

  ghost predicate Disjoint(p: Table)
  {
    forall i, j, t: nat | 0 <= i < j < |p.segments| && In(p.segments[i], t) :: !In(p.segments[j], t)
  }

  predicate WithinDay(p: Table)
  {
    forall i | 0 <= i < |p.segments| :: p.segments[i].start + p.segments[i].period <= DAY
  }

  /** For every table: in an affine segment the duty cycle set is the height if and only if it is between 0 and 100. */
  lemma DutyIsHeightIff(p: Table, s: Sun, t: nat)
    requires Fits(p, s) && Used(p, s, t) >= 0 && p.segments[Used(p, s, t)].affine
    ensures
      var y := Height(p, Used(p, s, t), t);
      Tick(p, s, t).duty == y <==> 0.0 < y < 100.0
  {
    AllowedIff(Height(p, Used(p, s, t), t));
  }

  /** Exactly when the kept index is the one a search would find. */
  lemma UsedIsFreshIff(p: Table, s: Sun, t: nat)
    requires Disjoint(p) && Fits(p, s)
    ensures Used(p, s, t) == Search(p, t) <==> s.index == -1 || In(p.segments[s.index], t)
  {
    var k := Search(p, t);
    if s.index >= 0 && In(p.segments[s.index], t) {
      assert k >= 0 && In(p.segments[k], t);
    }
  }

  // ----- Ticks exactly usIntervalleX seconds apart -----

  /** The index kept for a tick at `t` is that of the segment it is in, and so is the interval. */
  predicate InStep(p: Table, s: Sun, t: nat)
  {
    && Fits(p, s)
    && (s.index >= 0 ==> In(p.segments[s.index], t) && s.interval == p.segments[s.index].interval)
  }

  /**
   * The index is kept exactly if the next tick, an interval of the segment later,
   * falls into the segment too; and a tick in step asks for that interval. A
   * tick outside every segment changes neither the interval nor the duty cycle.
   */
  lemma TickKeepsIff(p: Table, s: Sun, t: nat)
    requires InStep(p, s, t)
    ensures
      var k, s' := Used(p, s, t), Tick(p, s, t);
      if k == -1 then s'.index == -1 && s'.interval == s.interval && s'.duty == s.duty
      else
        var g := p.segments[k];
        && s'.interval == g.interval
        && (s'.index == k <==> In(g, t + g.interval))
        && (s'.index != k ==> s'.index == -1)
  {
  }

  /** The controller and the time of the next tick, after `n` ticks from `t` on. */
  function After(p: Table, s: Sun, t: nat, n: nat): (Sun, nat)
    requires Fits(p, s)
    decreases n
  {
    if n == 0 then (s, t)
    else
      var s' := Tick(p, s, t);
      After(p, s', (t + s'.interval) % DAY, n - 1)
  }

  lemma AfterFirst(p: Table, s: Sun, t: nat, n: nat)
    requires Fits(p, s)
    ensures var s' := Tick(p, s, t); After(p, s, t, n + 1) == After(p, s', (t + s'.interval) % DAY, n)
  {
  }

  lemma TickKeepsStep(p: Table, s: Sun, t: nat)
    requires WithinDay(p) && t < DAY && InStep(p, s, t)
    ensures var s' := Tick(p, s, t); InStep(p, s', (t + s'.interval) % DAY)
  {
    var s' := Tick(p, s, t);
    if s'.index >= 0 {
      var g := p.segments[s'.index];
      assert In(g, t) && s'.interval == g.interval;
      assert t + s'.interval < g.start + g.period <= DAY;
    }
  }

  /** What a stateless controller would set at `t`: the curve's height there, or nothing new outside every segment. */
  function Fresh(p: Table, duty: real, t: nat): real
  {
    var k := Search(p, t);
    if k >= 0 && p.segments[k].affine then Allowed(Height(p, k, t)) else duty
  }

  /** Every tick of every run uses the index a search would find then, and sets the duty cycle to match. */
  lemma {:induction false} EveryTickIsFresh(p: Table, s: Sun, t: nat, n: nat)
    requires Disjoint(p) && WithinDay(p) && t < DAY && InStep(p, s, t)
    ensures
      var (s', t') := After(p, s, t, n);
      && t' < DAY && InStep(p, s', t')
      && Used(p, s', t') == Search(p, t')
      && Tick(p, s', t').duty == Fresh(p, s'.duty, t')
      && Tick(p, s', t').x == Hours(p, t')
    decreases n
  {
    if n == 0 {
      UsedIsFreshIff(p, s, t);
    } else {
      TickKeepsStep(p, s, t);
      var s' := Tick(p, s, t);
      EveryTickIsFresh(p, s', (t + s'.interval) % DAY, n - 1);
    }
  }
}
