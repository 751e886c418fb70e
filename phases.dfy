/** The per-phase computations of one age segment: fatalities (new_fatalities), recoveries
    (new_recoveries), the exposed population that becomes infectious (new_infections,
    new_asymptomatic), and the descending in-place loops of local_computation that move every
    phase vector forward by one day while taking the moved shares off the susceptible residual. */
module Phases {
  import opened Numerics
  import opened Records

  /** A rate applied to a share, rounded to the precision grid. */
  function RoundedShare(share: real, rate: real, p: int): real
    requires p > 0
  {
    Round(share * rate, p)
  }

  /** A rounded share of a non-negative population at a non-negative rate is non-negative. */
  lemma RoundedShareNonNegative(share: real, rate: real, p: int)
    requires p > 0 && share >= 0.0 && rate >= 0.0
    ensures RoundedShare(share, rate, p) >= 0.0
  {
    RoundNonNegative(share * rate, p);
  }

  // ---------------------------------------------------------------- fatalities

  /** Deaths in one infected phase: the rounded symptomatic deaths, multiplied by the fatality
      modifier when hospitals are overwhelmed, and never more than the phase population. */
  function PhaseFatalities(infected: real, asymptomatic: real, rate: real,
                           overwhelmed: bool, modifier: real, p: int): (f: real)
    requires p > 0
    ensures f <= infected + asymptomatic
  {
    var base := RoundedShare(infected, rate, p);
    Min(if overwhelmed then base * modifier else base, infected + asymptomatic)
  }

  /** Deaths are never negative when populations, rate and modifier are not. */
  lemma PhaseFatalitiesNonNegative(infected: real, asymptomatic: real, rate: real,
                                   overwhelmed: bool, modifier: real, p: int)
    requires p > 0
    requires infected >= 0.0 && asymptomatic >= 0.0 && rate >= 0.0 && modifier >= 0.0
    ensures PhaseFatalities(infected, asymptomatic, rate, overwhelmed, modifier, p) >= 0.0
  {
    RoundedShareNonNegative(infected, rate, p);
  }

  /** An overwhelmed hospital never lowers the deaths of a phase when the modifier is at
      least 1; below capacity the modifier plays no part at all. */
  lemma OverwhelmedNeverFewerDeaths(infected: real, asymptomatic: real, rate: real,
                                    modifier: real, p: int)
    requires p > 0
    requires infected >= 0.0 && rate >= 0.0 && modifier >= 1.0
    ensures PhaseFatalities(infected, asymptomatic, rate, true, modifier, p) >=
            PhaseFatalities(infected, asymptomatic, rate, false, modifier, p)
    ensures PhaseFatalities(infected, asymptomatic, rate, false, modifier, p) ==
            PhaseFatalities(infected, asymptomatic, rate, false, 1.0, p)
  {
    var base := RoundedShare(infected, rate, p);
    RoundedShareNonNegative(infected, rate, p);
    assert base * modifier >= base;
  }

  /** new_fatalities can index segment `seg` of `s`. */
  predicate FatalitiesDefined(s: Seaird, rates: Rates, seg: nat)
  {
    WellShaped(s) && seg < NumAgeSegments(s) && rates.precDivider > 0 &&
    seg < |rates.fatality| && NumInfectedPhases(s) <= |rates.fatality[seg]|
  }

  /** The deaths of infected phase i of segment `seg`; hospitals count as overwhelmed when
      the cell's total infections exceed its capacity. */
  function FatalityAt(s: Seaird, rates: Rates, seg: nat, i: nat): (f: real)
    requires FatalitiesDefined(s, rates, seg) && i < NumInfectedPhases(s)
    ensures f <= s.infected[seg][i] + s.asymptomatic[seg][i]
  {
    PhaseFatalities(s.infected[seg][i], s.asymptomatic[seg][i], rates.fatality[seg][i],
                    TotalInfections(s) > s.hospitalCapacity, s.fatalityModifier, rates.precDivider)
  }

  /** The deaths of every infected phase of segment `seg`. */
  function Fatalities(s: Seaird, rates: Rates, seg: nat): (f: seq<real>)
    requires FatalitiesDefined(s, rates, seg)
    ensures |f| == NumInfectedPhases(s)
    ensures forall i :: 0 <= i < |f| ==> f[i] == FatalityAt(s, rates, seg, i)
  {
    seq(NumInfectedPhases(s), i requires 0 <= i < NumInfectedPhases(s) => FatalityAt(s, rates, seg, i))
  }

  /** new_fatalities: fills the fatality vector phase by phase. */
  method NewFatalities(s: Seaird, rates: Rates, seg: nat) returns (fatalities: seq<real>)
    requires FatalitiesDefined(s, rates, seg)
    ensures fatalities == Fatalities(s, rates, seg)
    ensures forall i :: 0 <= i < |fatalities| ==>
      fatalities[i] <= s.infected[seg][i] + s.asymptomatic[seg][i]
  {
    var n := NumInfectedPhases(s);
    var p := rates.precDivider;
    fatalities := seq(n, _ => 0.0);
    var i := 0;
    while i < n
      invariant 0 <= i <= n && |fatalities| == n
      invariant forall j :: 0 <= j < i ==> fatalities[j] == FatalityAt(s, rates, seg, j)
      invariant forall j :: i <= j < n ==> fatalities[j] == 0.0
    {
      var f := fatalities[i] + RoundedShare(s.infected[seg][i], rates.fatality[seg][i], p);
      if TotalInfections(s) > s.hospitalCapacity {
        f := f * s.fatalityModifier;
      }
      f := Min(f, s.infected[seg][i] + s.asymptomatic[seg][i]);
      fatalities := fatalities[i := f];
      i := i + 1;
    }
  }

  // ---------------------------------------------------------------- recoveries

  /** new_recoveries can index segment `seg` of `s` with the given fatality vector. */
  predicate RecoveriesDefined(s: Seaird, rates: Rates, seg: nat, fatalities: seq<real>)
  {
    WellShaped(s) && seg < NumAgeSegments(s) && rates.precDivider > 0 &&
    NumInfectedPhases(s) >= 1 && |fatalities| == NumInfectedPhases(s) &&
    seg < |rates.recovery| && NumInfectedPhases(s) - 1 <= |rates.recovery[seg]|
  }

  /** The recoveries of infected phase i: in the last phase everybody who did not die
      recovers; in the others the rounded recovery share, but never more than the phase
      population left after its deaths. */
  function RecoveryAt(s: Seaird, rates: Rates, seg: nat, fatalities: seq<real>, i: nat): (r: real)
    requires RecoveriesDefined(s, rates, seg, fatalities) && i < NumInfectedPhases(s)
    ensures r + fatalities[i] <= s.infected[seg][i] + s.asymptomatic[seg][i]
    ensures i == NumInfectedPhases(s) - 1 ==>
      r + fatalities[i] == s.infected[seg][i] + s.asymptomatic[seg][i]
  {
    var population := s.infected[seg][i] + s.asymptomatic[seg][i];
    if i == NumInfectedPhases(s) - 1 then population - fatalities[i]
    else Min(RoundedShare(population, rates.recovery[seg][i], rates.precDivider), population - fatalities[i])
  }

  /** The recoveries of every infected phase of segment `seg`. */
  function Recoveries(s: Seaird, rates: Rates, seg: nat, fatalities: seq<real>): (r: seq<real>)
    requires RecoveriesDefined(s, rates, seg, fatalities)
    ensures |r| == NumInfectedPhases(s)
    ensures forall i :: 0 <= i < |r| ==> r[i] == RecoveryAt(s, rates, seg, fatalities, i)
  {
    seq(NumInfectedPhases(s), i requires 0 <= i < NumInfectedPhases(s) => RecoveryAt(s, rates, seg, fatalities, i))
  }

  /** Recoveries are never negative when populations and rates are not and the deaths respect
      their cap. */
  lemma RecoveriesNonNegative(s: Seaird, rates: Rates, seg: nat, fatalities: seq<real>)
    requires RecoveriesDefined(s, rates, seg, fatalities)
    requires forall i :: 0 <= i < |fatalities| ==>
      s.infected[seg][i] >= 0.0 && s.asymptomatic[seg][i] >= 0.0 &&
      fatalities[i] <= s.infected[seg][i] + s.asymptomatic[seg][i]
    requires forall i :: 0 <= i < |fatalities| - 1 ==> rates.recovery[seg][i] >= 0.0
    ensures forall i :: 0 <= i < |fatalities| ==> RecoveryAt(s, rates, seg, fatalities, i) >= 0.0
  {
    forall i | 0 <= i < |fatalities| ensures RecoveryAt(s, rates, seg, fatalities, i) >= 0.0 {
      if i < |fatalities| - 1 {
        RoundedShareNonNegative(s.infected[seg][i] + s.asymptomatic[seg][i], rates.recovery[seg][i], rates.precDivider);
      }
    }
  }

  /** new_recoveries: the last phase first, then every other phase in ascending order. */
  method NewRecoveries(s: Seaird, rates: Rates, seg: nat, fatalities: seq<real>)
    returns (recovered: seq<real>)
    requires RecoveriesDefined(s, rates, seg, fatalities)
    ensures recovered == Recoveries(s, rates, seg, fatalities)
    ensures forall i :: 0 <= i < |recovered| ==>
      recovered[i] + fatalities[i] <= s.infected[seg][i] + s.asymptomatic[seg][i]
  {
    var n := NumInfectedPhases(s);
    var p := rates.precDivider;
    recovered := seq(n, _ => 0.0);
    recovered := recovered[n - 1 := (s.infected[seg][n - 1] + s.asymptomatic[seg][n - 1]) - fatalities[n - 1]];
    var i := 0;
    while i < n - 1
      invariant 0 <= i <= n - 1 && |recovered| == n
      invariant forall j :: 0 <= j < i ==> recovered[j] == RecoveryAt(s, rates, seg, fatalities, j)
      invariant recovered[n - 1] == RecoveryAt(s, rates, seg, fatalities, n - 1)
    {
      var newRecoveries := RoundedShare(s.infected[seg][i] + s.asymptomatic[seg][i], rates.recovery[seg][i], p);
      var maximumPossible := (s.infected[seg][i] + s.asymptomatic[seg][i]) - fatalities[i];
      recovered := recovered[i := Min(newRecoveries, maximumPossible)];
      i := i + 1;
    }
  }

  // ---------------------------------------------------------------- exposed -> infectious

  /** The weighted sum of the first n products xs[i] * ys[i], accumulated in index order. */
  function Dot(xs: seq<real>, ys: seq<real>, n: nat): real
    requires n <= |xs| && n <= |ys|
  {
    if n == 0 then 0.0 else Dot(xs, ys, n - 1) + xs[n - 1] * ys[n - 1]
  }

  /** The exposed share leaving the exposed phases this cycle: all of the last phase, and the
      incubation share of every other phase. */
  function Progressing(exposed: seq<real>, incubation: seq<real>): real
    requires |exposed| >= 1 && |exposed| - 1 <= |incubation|
  {
    exposed[|exposed| - 1] + Dot(exposed, incubation, |exposed| - 1)
  }

  /** Adding a non-negative value scaled by a weight in [0, 1] keeps a weighted sum between
      0 and the plain sum. */
  lemma WeightedStep(weighted: real, plain: real, x: real, w: real)
    requires 0.0 <= weighted <= plain && x >= 0.0 && 0.0 <= w <= 1.0
    ensures 0.0 <= weighted + x * w <= plain + x
  {
    assert x * w >= 0.0;
    assert x * (1.0 - w) >= 0.0;
    assert x * (1.0 - w) == x - x * w;
  }

  /** A weighted sum with weights in [0, 1] is between 0 and the plain sum. */
  lemma {:induction false} DotBounded(xs: seq<real>, ys: seq<real>, n: nat)
    requires n <= |xs| && n <= |ys|
    requires forall i :: 0 <= i < n ==> xs[i] >= 0.0 && 0.0 <= ys[i] <= 1.0
    ensures 0.0 <= Dot(xs, ys, n) <= Sum(xs[..n])
  {
    if n > 0 {
      var m := n - 1;
      DotBounded(xs, ys, m);
      WeightedStep(Dot(xs, ys, m), Sum(xs[..m]), xs[m], ys[m]);
      assert xs[..n] == xs[..m] + [xs[m]];
      SumSnoc(xs[..m], xs[m]);
    }
  }

  /** No more people leave the exposed phases than there are exposed, and never a negative
      number, when shares are non-negative and incubation rates are in [0, 1]. */
  lemma ProgressingBounded(exposed: seq<real>, incubation: seq<real>)
    requires |exposed| >= 1 && |exposed| - 1 <= |incubation|
    requires forall i :: 0 <= i < |exposed| ==> exposed[i] >= 0.0
    requires forall i :: 0 <= i < |exposed| - 1 ==> 0.0 <= incubation[i] <= 1.0
    ensures 0.0 <= Progressing(exposed, incubation) <= Sum(exposed)
  {
    var n := |exposed|;
    var earlier := exposed[..n - 1];
    DotBounded(exposed, incubation, n - 1);
    assert exposed == earlier + [exposed[n - 1]];
    SumSnoc(earlier, exposed[n - 1]);
    var weighted := Dot(exposed, incubation, n - 1);
    assert 0.0 <= weighted <= Sum(earlier);
    assert Sum(exposed) == Sum(earlier) + exposed[n - 1];
  }

  /** The loop shared by new_infections and new_asymptomatic: the last exposed phase plus the
      incubation share of every earlier phase. */
  method ProgressingExposed(exposed: seq<real>, incubation: seq<real>) returns (total: real)
    requires |exposed| >= 1 && |exposed| - 1 <= |incubation|
    ensures total == Progressing(exposed, incubation)
  {
    total := exposed[|exposed| - 1];
    var i := 0;
    while i < |exposed| - 1
      invariant 0 <= i <= |exposed| - 1
      invariant total == exposed[|exposed| - 1] + Dot(exposed, incubation, i)
    {
      total := total + exposed[i] * incubation[i];
      i := i + 1;
    }
  }

  /** One part of the progressing exposed, rounded to the precision grid. */
  function SplitPart(part: real, progressing: real, p: int): real
    requires p > 0
  {
    Round(part * progressing, p)
  }

  /** Each rounded part lies on the precision grid. */
  lemma SplitPartOnGrid(part: real, progressing: real, p: int)
    requires p > 0
    ensures OnGrid(SplitPart(part, progressing, p), p)
  {
    RoundOnGrid(part * progressing, p);
  }

  /** local_computation rounds new_infections and new_asymptomatic a second time; a part
      already on the grid is left as it is. */
  lemma SplitPartRoundedAgain(part: real, progressing: real, p: int)
    requires p > 0
    ensures Round(SplitPart(part, progressing, p), p) == SplitPart(part, progressing, p)
  {
    RoundIdempotent(part * progressing, p);
  }

  /** new_infections: the symptomatic part (1 - asymptomatic rate) of the progressing
      exposed, rounded to the precision grid. */
  method NewInfections(exposed: seq<real>, incubation: seq<real>, asymptomaticRate: real, p: int)
    returns (infections: real)
    requires |exposed| >= 1 && |exposed| - 1 <= |incubation| && p > 0
    ensures infections == SplitPart(1.0 - asymptomaticRate, Progressing(exposed, incubation), p)
    ensures OnGrid(infections, p)
  {
    var progressing := ProgressingExposed(exposed, incubation);
    infections := SplitPart(1.0 - asymptomaticRate, progressing, p);
    SplitPartOnGrid(1.0 - asymptomaticRate, progressing, p);
  }

  /** new_asymptomatic: the asymptomatic part of the progressing exposed, rounded to the
      precision grid. */
  method NewAsymptomatic(exposed: seq<real>, incubation: seq<real>, asymptomaticRate: real, p: int)
    returns (asymptomatic: real)
    requires |exposed| >= 1 && |exposed| - 1 <= |incubation| && p > 0
    ensures asymptomatic == SplitPart(asymptomaticRate, Progressing(exposed, incubation), p)
    ensures OnGrid(asymptomatic, p)
  {
    var progressing := ProgressingExposed(exposed, incubation);
    asymptomatic := SplitPart(asymptomaticRate, progressing, p);
    SplitPartOnGrid(asymptomaticRate, progressing, p);
  }

  /** Splitting the progressing exposed into symptomatic and asymptomatic parts and rounding
      both loses or gains at most one grid step of population. */
  lemma SplitWithinOneStep(progressing: real, asymptomaticRate: real, p: int)
    requires p > 0
    ensures -Step(p) <= SplitPart(1.0 - asymptomaticRate, progressing, p) +
                        SplitPart(asymptomaticRate, progressing, p) - progressing <= Step(p)
  {
    var x := (1.0 - asymptomaticRate) * progressing;
    var y := asymptomaticRate * progressing;
    RoundClose(x, p);
    RoundClose(y, p);
    assert x + y == progressing;
  }

  // ---------------------------------------------------------------- in-place phase shifts

  /** The part of an exposed phase that stays exposed for another day, rounded. */
  function StaysExposed(exposed: real, incubation: real, p: int): real
    requires p > 0
  {
    Round(exposed * (1.0 - incubation), p)
  }

  /** The symptomatic infected of a phase that move on to the next day: minus the
      symptomatic part of its recoveries and minus its deaths, rounded. */
  function InfectedCarried(infected: real, recovered: real, fatalities: real, asymptomaticRate: real, p: int): real
    requires p > 0
  {
    Round(infected - recovered * (1.0 - asymptomaticRate) - fatalities, p)
  }

  /** The asymptomatic of a phase that move on to the next day: minus the asymptomatic part
      of its recoveries, rounded. */
  function AsymptomaticCarried(asymptomatic: real, recovered: real, asymptomaticRate: real, p: int): real
    requires p > 0
  {
    Round(asymptomatic - recovered * asymptomaticRate, p)
  }

  /** The exposed phases after the shift: phase 0 holds the entering exposed, phase i >= 1
      the share of phase i - 1 that stays exposed. */
  function ExposedAfter(exposed: seq<real>, incubation: seq<real>, entering: real, p: int): seq<real>
    requires |exposed| - 1 <= |incubation| && p > 0
  {
    seq(|exposed|, i requires 0 <= i < |exposed| =>
      if i == 0 then entering else StaysExposed(exposed[i - 1], incubation[i - 1], p))
  }

  /** The symptomatic infected phases after the shift: phase 0 holds the new infected, phase
      i >= 1 what phase i - 1 carries over. */
  function InfectedAfter(infected: seq<real>, recovered: seq<real>, fatalities: seq<real>,
                         asymptomaticRate: real, entering: real, p: int): seq<real>
    requires |recovered| == |infected| && |fatalities| == |infected| && p > 0
  {
    seq(|infected|, i requires 0 <= i < |infected| =>
      if i == 0 then entering
      else InfectedCarried(infected[i - 1], recovered[i - 1], fatalities[i - 1], asymptomaticRate, p))
  }

  /** The asymptomatic phases after the shift: phase 0 holds the new asymptomatic, phase
      i >= 1 what phase i - 1 carries over. */
  function AsymptomaticAfter(asymptomatic: seq<real>, recovered: seq<real>, asymptomaticRate: real,
                             entering: real, p: int): seq<real>
    requires |recovered| == |asymptomatic| && p > 0
  {
    seq(|asymptomatic|, i requires 0 <= i < |asymptomatic| =>
      if i == 0 then entering
      else AsymptomaticCarried(asymptomatic[i - 1], recovered[i - 1], asymptomaticRate, p))
  }

  /** Only the susceptible share is checked for sign: a phase whose deaths take half its
      people and whose recoveries are capped at the rest carries a negative symptomatic share
      into the next phase. Here 0.9 infected and 0.1 asymptomatic at fatality rate 0.5 and
      recovery rate 0.9 (asymptomatic rate 0.1, precision 100) give 0.45 deaths and 0.55
      recoveries, and 0.9 - 0.55 * 0.9 - 0.45 = -0.045 rounds to -0.05. */
  lemma InfectedCarriedCanTurnNegative()
    ensures var s := Seaird([0.0], [[0.0]], [[0.9, 0.0]], [[0.1, 0.0]], [[0.0, 0.0]], [0.0], [0.0], 1.0, 1.0, map[]);
      var rates := Rates([[1.0, 1.0]], [[]], [[0.9]], [[1.0, 1.0]], [[0.5, 0.5]], 0.1, 100, false);
      var fatalities := Fatalities(s, rates, 0);
      fatalities[0] == 0.45 && RecoveryAt(s, rates, 0, fatalities, 0) == 0.55 &&
      InfectedCarried(0.9, RecoveryAt(s, rates, 0, fatalities, 0), fatalities[0], rates.asymptomatic, 100) == -0.05
  {
    var s := Seaird([0.0], [[0.0]], [[0.9, 0.0]], [[0.1, 0.0]], [[0.0, 0.0]], [0.0], [0.0], 1.0, 1.0, map[]);
    var rates := Rates([[1.0, 1.0]], [[]], [[0.9]], [[1.0, 1.0]], [[0.5, 0.5]], 0.1, 100, false);
    assert TotalInfections(s) == 0.9 by {
      assert s.infected[1..] == [];
      assert s.infected[0][1..][1..] == [];
    }
    assert FatalityAt(s, rates, 0, 0) == 0.45;
    assert RoundedShare(1.0, 0.9, 100) == 0.9;
  }

  /** The exposed loop of local_computation: from the last phase down to phase 1, phase i
      takes the share of phase i - 1 that stays exposed (rounded); phase 0 takes the new
      exposed. Every value written is taken off the susceptible residual. */
  method ShiftExposed(exposed: seq<real>, incubation: seq<real>, entering: real, p: int, residual: real)
    returns (shifted: seq<real>, remaining: real)
    requires |exposed| >= 1 && |exposed| - 1 <= |incubation| && p > 0
    ensures |shifted| == |exposed| && shifted[0] == entering
    ensures forall i :: 1 <= i < |exposed| ==>
      shifted[i] == StaysExposed(exposed[i - 1], incubation[i - 1], p)
    ensures remaining == residual - Sum(shifted)
    ensures shifted == ExposedAfter(exposed, incubation, entering, p)
  {
    var n := |exposed|;
    shifted, remaining := exposed, residual;
    var i := n - 1;
    while i > 0
      invariant 0 <= i <= n - 1 && |shifted| == n
      invariant forall j :: i < j < n ==> shifted[j] == StaysExposed(exposed[j - 1], incubation[j - 1], p)
      invariant forall j :: 0 <= j <= i ==> shifted[j] == exposed[j]
      invariant remaining == residual - Sum(shifted[i + 1..])
    {
      var current := StaysExposed(shifted[i - 1], incubation[i - 1], p);
      remaining := remaining - current;
      shifted := shifted[i := current];
      SumFrom(shifted, i);
      i := i - 1;
    }
    shifted := shifted[0 := entering];
    remaining := remaining - entering;
    SumFrom(shifted, 0);
    assert shifted[0..] == shifted;
  }

  /** The infected loop of local_computation: from the last phase down to phase 1, phase i
      takes phase i - 1 minus its recoveries (split by the asymptomatic rate) and, for the
      symptomatic part, its deaths (both rounded); phase 0 takes the new infected and
      asymptomatic. Every value written is taken off the susceptible residual. */
  method ShiftInfected(infected: seq<real>, asymptomatic: seq<real>, recovered: seq<real>,
                       fatalities: seq<real>, asymptomaticRate: real,
                       newInfected: real, newAsymptomatic: real, p: int, residual: real)
    returns (infectedNext: seq<real>, asymptomaticNext: seq<real>, remaining: real)
    requires |infected| >= 1 && |asymptomatic| == |infected| && p > 0
    requires |recovered| == |infected| && |fatalities| == |infected|
    ensures |infectedNext| == |infected| && |asymptomaticNext| == |infected|
    ensures infectedNext[0] == newInfected && asymptomaticNext[0] == newAsymptomatic
    ensures forall i :: 1 <= i < |infected| ==>
      infectedNext[i] == InfectedCarried(infected[i - 1], recovered[i - 1], fatalities[i - 1], asymptomaticRate, p) &&
      asymptomaticNext[i] == AsymptomaticCarried(asymptomatic[i - 1], recovered[i - 1], asymptomaticRate, p)
    ensures remaining == residual - Sum(infectedNext) - Sum(asymptomaticNext)
    ensures infectedNext == InfectedAfter(infected, recovered, fatalities, asymptomaticRate, newInfected, p)
    ensures asymptomaticNext == AsymptomaticAfter(asymptomatic, recovered, asymptomaticRate, newAsymptomatic, p)
  {
    var n := |infected|;
    infectedNext, asymptomaticNext, remaining := infected, asymptomatic, residual;
    var i := n - 1;
    while i > 0
      invariant 0 <= i <= n - 1 && |infectedNext| == n && |asymptomaticNext| == n
      invariant forall j :: i < j < n ==>
        infectedNext[j] == InfectedCarried(infected[j - 1], recovered[j - 1], fatalities[j - 1], asymptomaticRate, p) &&
        asymptomaticNext[j] == AsymptomaticCarried(asymptomatic[j - 1], recovered[j - 1], asymptomaticRate, p)
      invariant forall j :: 0 <= j <= i ==> infectedNext[j] == infected[j] && asymptomaticNext[j] == asymptomatic[j]
      invariant remaining == residual - Sum(infectedNext[i + 1..]) - Sum(asymptomaticNext[i + 1..])
    {
      var currentInfected := InfectedCarried(infectedNext[i - 1], recovered[i - 1], fatalities[i - 1], asymptomaticRate, p);
      var currentAsymptomatic := AsymptomaticCarried(asymptomaticNext[i - 1], recovered[i - 1], asymptomaticRate, p);
      remaining := remaining - (currentInfected + currentAsymptomatic);
      infectedNext := infectedNext[i := currentInfected];
      asymptomaticNext := asymptomaticNext[i := currentAsymptomatic];
      SumFrom(infectedNext, i);
      SumFrom(asymptomaticNext, i);
      i := i - 1;
    }
    infectedNext := infectedNext[0 := newInfected];
    asymptomaticNext := asymptomaticNext[0 := newAsymptomatic];
    remaining := remaining - (newInfected + newAsymptomatic);
    SumFrom(infectedNext, 0);
    SumFrom(asymptomaticNext, 0);
    assert infectedNext[0..] == infectedNext && asymptomaticNext[0..] == asymptomaticNext;
  }

  /** The recovered phases after the shift. With waning immunity (SIIRS) phase i takes phase
      i - 1 and the old last phase returns to the susceptible pool; without it the last phase
      is a permanent reservoir that adds the second-last phase to itself. */
  function RecoveredTarget(recovered: seq<real>, siirs: bool, j: nat): real
    requires 1 <= j < |recovered|
  {
    if !siirs && j == |recovered| - 1 then recovered[j] + recovered[j - 1] else recovered[j - 1]
  }

  /** The recovered phases after the shift: phase 0 holds the entering recoveries, phase
      i >= 1 its RecoveredTarget. */
  function RecoveredAfter(recovered: seq<real>, siirs: bool, entering: real): seq<real>
  {
    seq(|recovered|, i requires 0 <= i < |recovered| =>
      if i == 0 then entering else RecoveredTarget(recovered, siirs, i))
  }

  /** The recovered loop of local_computation, with the reservoir step first when immunity
      is permanent; phase 0 takes this cycle's recoveries. Every value written is taken off
      the susceptible residual. */
  method ShiftRecovered(recovered: seq<real>, siirs: bool, entering: real, residual: real)
    returns (shifted: seq<real>, remaining: real)
    requires |recovered| >= (if siirs then 1 else 2)
    ensures |shifted| == |recovered| && shifted[0] == entering
    ensures forall i :: 1 <= i < |recovered| ==> shifted[i] == RecoveredTarget(recovered, siirs, i)
    ensures remaining == residual - Sum(shifted)
    ensures shifted == RecoveredAfter(recovered, siirs, entering)
  {
    var n := |recovered|;
    shifted, remaining := recovered, residual;
    var i := n - 1;
    if !siirs {
      shifted := shifted[n - 1 := shifted[n - 1] + shifted[n - 2]];
      remaining := remaining - shifted[n - 1];
      SumFrom(shifted, n - 1);
      assert shifted[n..] == [];
      i := i - 1;
    }
    while i > 0
      invariant 0 <= i <= n - 1 && |shifted| == n
      invariant forall j :: i < j < n ==> shifted[j] == RecoveredTarget(recovered, siirs, j)
      invariant forall j :: 0 <= j <= i ==> shifted[j] == recovered[j]
      invariant remaining == residual - Sum(shifted[i + 1..])
    {
      ghost var prev := shifted;
      shifted := shifted[i := shifted[i - 1]];
      assert shifted[i + 1..] == prev[i + 1..];
      remaining := remaining - shifted[i];
      SumFrom(shifted, i);
      i := i - 1;
    }
    ghost var prev := shifted;
    shifted := shifted[0 := entering];
    assert shifted[1..] == prev[1..];
    remaining := remaining - entering;
    SumFrom(shifted, 0);
    assert shifted[0..] == shifted;
  }

  /** Permanent immunity: the reservoir in the last recovered phase never shrinks when the
      shares are non-negative. Waning immunity: the old last phase is overwritten, so its
      share is no longer held in any recovered phase. */
  lemma RecoveredTail(recovered: seq<real>, siirs: bool)
    requires |recovered| >= 2
    requires forall i :: 0 <= i < |recovered| ==> recovered[i] >= 0.0
    ensures !siirs ==> RecoveredTarget(recovered, siirs, |recovered| - 1) >= recovered[|recovered| - 1]
    ensures siirs ==> RecoveredTarget(recovered, siirs, |recovered| - 1) == recovered[|recovered| - 2]
  {
  }
}
