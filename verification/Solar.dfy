/** CSoleil and the duty cycle of CPwmGpio. */
module Solar {
  import opened SolarSpec
  import opened DefaultSun

  class CPwmGpio {
    var dRapportCyclique: real
    const ui64_usec_Period: nat
    var ui64_usecEtatHaut: nat
    var ui64_usecEtatBas: nat

    /** High and low times make up the period, and the high time is the ratio of it. */
    predicate Valid()
      reads this
    {
      && 0.0 < dRapportCyclique < 100.0
      && ui64_usecEtatHaut + ui64_usecEtatBas == ui64_usec_Period
      && ui64_usecEtatHaut == (ui64_usec_Period as real * dRapportCyclique / 100.0).Floor
    }

    constructor (period: nat, dRapport: real)
      ensures Valid() && ui64_usec_Period == period && dRapportCyclique == Allowed(dRapport)
    {
      ui64_usec_Period := period;
      dRapportCyclique, ui64_usecEtatHaut, ui64_usecEtatBas := 50.0, 0, 0;
      new;
      SetRapportCyclique(dRapport);
    }

    method SetRapportCyclique(dRapport: real)
      modifies this
      ensures Valid() && dRapportCyclique == Allowed(dRapport)
    {
      if dRapport > 0.0 && dRapport < 100.0 {
        dRapportCyclique := dRapport;
      } else {
        dRapportCyclique := 50.0;
      }
      PartOfPeriod(ui64_usec_Period, dRapportCyclique);
      ui64_usecEtatHaut := (ui64_usec_Period as real * dRapportCyclique / 100.0).Floor;
      ui64_usecEtatBas := ui64_usec_Period - ui64_usecEtatHaut;
    }
  }

  lemma PartOfPeriod(period: nat, d: real)
    requires 0.0 < d < 100.0
    ensures 0 <= (period as real * d / 100.0).Floor <= period
  {
    var p := period as real;
    assert 0.0 <= p * d <= p * 100.0;
  }

  class CSoleil {
    const stParam: Table
    const GestionCourbeSolaire: CPwmGpio
    var sIndexlSegment: int
    var usIntervalleX: nat
    var dX: real

    ghost predicate Valid()
      reads this, GestionCourbeSolaire
    {
      Fits(stParam, Abs()) && GestionCourbeSolaire.Valid()
    }

    function Abs(): Sun
      reads this, GestionCourbeSolaire
    {
      Sun(sIndexlSegment, usIntervalleX, dX, GestionCourbeSolaire.dRapportCyclique)
    }

    constructor (param: Table)
      ensures Valid() && stParam == param && Abs() == NEW_SUN && fresh(GestionCourbeSolaire)
    {
      stParam := param;
      sIndexlSegment, usIntervalleX, dX := -1, 1, 0.0;
      var g := new CPwmGpio(1000, 1.0);
      GestionCourbeSolaire := g;
    }

    /** The first loop: find the segment of `tOffsetMidnight`, if no segment is kept. */
    method FindSegment(tOffsetMidnight: nat)
      requires Valid()
      modifies this
      ensures sIndexlSegment == Used(stParam, old(Abs()), tOffsetMidnight)
      ensures usIntervalleX ==
        if old(sIndexlSegment) == -1 && sIndexlSegment >= 0 then stParam.segments[sIndexlSegment].interval
        else old(usIntervalleX)
    {
      if sIndexlSegment == -1 {
        var iCpt := 0;
        while iCpt < |stParam.segments|
          invariant iCpt <= |stParam.segments| && sIndexlSegment == -1 && usIntervalleX == old(usIntervalleX)
          invariant Search(stParam, tOffsetMidnight) == SearchFrom(stParam, tOffsetMidnight, iCpt)
        {
          var g := stParam.segments[iCpt];
          if tOffsetMidnight >= g.start && tOffsetMidnight < g.start + g.period {
            sIndexlSegment := iCpt;
            usIntervalleX := stParam.segments[sIndexlSegment].interval;
            dX := 0.0;
            break;
          }
          iCpt := iCpt + 1;
        }
      } else {
        dX := dX + 1.0;
      }
    }

    method IGererCourbe(tOffsetMidnight: nat)
      requires Valid()
      modifies this, GestionCourbeSolaire
      ensures Valid() && Abs() == Tick(stParam, old(Abs()), tOffsetMidnight)
    {
      FindSegment(tOffsetMidnight);
      dX := (tOffsetMidnight - stParam.dawn) as real / 3600.0;
      if sIndexlSegment >= 0 {
        var g := stParam.segments[sIndexlSegment];
        if g.affine {
          var y := g.a * dX + g.b;
          GestionCourbeSolaire.SetRapportCyclique(y);
        }
        if tOffsetMidnight + g.interval >= g.start + g.period {
          sIndexlSegment := -1;
        }
      }
    }

    /** The event loop while nobody asks it to stop: `n` timeouts, each as long as asked for. */
    method Run(t0: nat, n: nat) returns (t: nat)
      requires Valid() && Abs() == NEW_SUN && t0 < DAY
      modifies this, GestionCourbeSolaire
      ensures Valid() && (Abs(), t) == After(stParam, NEW_SUN, t0, n)
    {
      t := t0;
      var i := 0;
      while i < n
        invariant i <= n && Valid() && Fits(stParam, NEW_SUN)
        invariant After(stParam, NEW_SUN, t0, n) == After(stParam, Abs(), t, n - i)
      {
        IGererCourbe(t);
        t := (t + usIntervalleX) % DAY;
        i := i + 1;
      }
    }
  }
}
