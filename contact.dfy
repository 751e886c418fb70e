/** geographical_cell::new_exposed: the share of one age segment that becomes exposed in a
    cycle, gathered over the cell's neighbours (the cell itself among them), each contact
    damped by the mobility restrictions in force on both sides. */
module Contact {
  import opened Numerics
  import opened Hysteresis
  import opened Records

  /** Disobedient people ignore restrictions (factor 1); the rest move with `factor`. */
  function Blend(disobedient: real, factor: real): (c: real)
    ensures 0.0 <= disobedient <= 1.0 && 0.0 <= factor <= 1.0 ==> factor <= c <= 1.0 && disobedient <= c
  {
    BlendBounds(disobedient, factor);
    disobedient + (1.0 - disobedient) * factor
  }

  /** A blend is a convex combination of the factor and 1. */
  lemma BlendBounds(disobedient: real, factor: real)
    ensures 0.0 <= disobedient <= 1.0 && 0.0 <= factor <= 1.0 ==>
      factor <= disobedient + (1.0 - disobedient) * factor <= 1.0 &&
      disobedient <= disobedient + (1.0 - disobedient) * factor
  {
    if 0.0 <= disobedient <= 1.0 && 0.0 <= factor <= 1.0 {
      var obedient, restricted := 1.0 - disobedient, 1.0 - factor;
      assert obedient >= 0.0 && restricted >= 0.0;
      assert obedient * restricted >= 0.0;
      assert obedient * restricted == obedient - obedient * factor;
      assert disobedient + (1.0 - disobedient) * factor - factor == disobedient * (1.0 - factor);
      assert disobedient * (1.0 - factor) >= 0.0;
      assert obedient * factor >= 0.0;
      assert (1.0 - disobedient) * factor == obedient * factor;
    }
  }

  /** The restriction applied to a neighbour's contacts: the neighbour's own blended factor,
      tightened to the cell's when the cell is more restrictive. */
  function EffectiveFactor(selfFactor: real, neighbourFactor: real): (r: real)
    ensures r <= selfFactor && r <= neighbourFactor
    ensures r == selfFactor || r == neighbourFactor
  {
    Min(selfFactor, neighbourFactor)
  }

  /** The unrestricted contact of phase i: correlation, mobility, virulence, the susceptible
      share and the neighbour's infectious load multiplied in the order the cell uses. */
  function Term(correlation: real, mobility: real, virulence: real, susceptible: real, load: real): real
  {
    correlation * mobility * virulence * susceptible * load
  }

  /** The restricted contact of phase i of a neighbour's symptomatic infected. */
  function SymptomaticTerm(correlation: real, mobility: seq<real>, virulence: seq<real>,
                           susceptible: real, load: real, factor: real, i: nat): real
    requires i < |mobility| && i < |virulence|
  {
    Term(correlation, mobility[i], virulence[i], susceptible, load) * factor
  }

  /** The unrestricted contact of phase i of a neighbour's asymptomatic infected. */
  function AsymptomaticTerm(correlation: real, mobility: seq<real>, virulence: seq<real>,
                            susceptible: real, load: real, i: nat): real
    requires i < |mobility| && i < |virulence|
  {
    Term(correlation, mobility[i], virulence[i], susceptible, load)
  }

  /** The symptomatic inflow of the first n infectious phases of one neighbour, each term
      scaled by the restriction factor. Every phase multiplies the neighbour's total load. */
  function SymptomaticInflow(correlation: real, mobility: seq<real>, virulence: seq<real>,
                             susceptible: real, load: real, factor: real, n: nat): real
    requires n <= |mobility| && n <= |virulence|
  {
    if n == 0 then 0.0
    else SymptomaticInflow(correlation, mobility, virulence, susceptible, load, factor, n - 1)
         + SymptomaticTerm(correlation, mobility, virulence, susceptible, load, factor, n - 1)
  }

  /** The asymptomatic inflow of the first n infectious phases of one neighbour: no
      restriction factor is applied to it. */
  function AsymptomaticInflow(correlation: real, mobility: seq<real>, virulence: seq<real>,
                              susceptible: real, load: real, n: nat): real
    requires n <= |mobility| && n <= |virulence|
  {
    if n == 0 then 0.0
    else AsymptomaticInflow(correlation, mobility, virulence, susceptible, load, n - 1)
         + AsymptomaticTerm(correlation, mobility, virulence, susceptible, load, n - 1)
  }

  /** The running totals of new_exposed and the trackers as the neighbour loop leaves them. */
  datatype Exposure = Exposure(symptomatic: real, asymptomatic: real, trackers: map<Id, Tracker>)

  /** What new_exposed looks up for neighbour n: its state, its vicinity, its tracker, its
      disobedient share of the segment, and a mobility and virulence rate for each of its
      infectious phases. */
  predicate NeighbourDefined(cell: Cell, ns: map<Id, Seaird>, seg: nat, keys: set<Id>, n: Id)
  {
    n in ns && n in cell.vicinity && n in keys &&
    seg < |ns[n].disobedient| && seg < |cell.current.susceptible| &&
    seg < |cell.rates.mobility| && seg < |cell.rates.virulence| &&
    NumInfectedPhases(ns[n]) <= |cell.rates.mobility[seg]| &&
    NumInfectedPhases(ns[n]) <= |cell.rates.virulence[seg]|
  }

  /** Every lookup of new_exposed for segment seg succeeds. */
  predicate ExposureDefined(cell: Cell, ns: map<Id, Seaird>, seg: nat, keys: set<Id>)
  {
    seg < |cell.current.susceptible| && seg < |cell.current.disobedient| &&
    seg < |cell.rates.mobility| && seg < |cell.rates.virulence| &&
    cell.id in cell.vicinity && cell.id in ns && cell.id in keys &&
    forall n :: n in cell.neighbors ==> NeighbourDefined(cell, ns, seg, keys, n)
  }

  /** One pass of the neighbour loop for neighbour n: its correction call (which updates
      its tracker), the effective factor, and its inflow added to the running totals. */
  function Contribution(cell: Cell, ns: map<Id, Seaird>, seg: nat, selfFactor: real,
                        before: Exposure, n: Id): (e: Exposure)
    requires NeighbourDefined(cell, ns, seg, before.trackers.Keys, n)
    ensures e.trackers.Keys == before.trackers.Keys
  {
    var nstate := ns[n];
    var v := cell.vicinity[n];
    var (f, t) := Correction(v.correctionFactors, TotalInfections(nstate), before.trackers[n]);
    var factor := EffectiveFactor(selfFactor, Blend(nstate.disobedient[seg], f));
    var mob := cell.rates.mobility[seg];
    var vir := cell.rates.virulence[seg];
    var s := cell.current.susceptible[seg];
    Exposure(
      before.symptomatic + SymptomaticInflow(v.correlation, mob, vir, s, TotalInfections(nstate), factor, NumInfectedPhases(nstate)),
      before.asymptomatic + AsymptomaticInflow(v.correlation, mob, vir, s, TotalAsymptomatic(nstate), NumInfectedPhases(nstate)),
      before.trackers[n := t])
  }

  /** The neighbour loop of new_exposed over `ids`, starting from zero totals and `trackers`.
      Each neighbour's tracker is updated by its correction call before the next one. */
  function Accumulate(cell: Cell, ns: map<Id, Seaird>, seg: nat, selfFactor: real,
                      ids: seq<Id>, trackers: map<Id, Tracker>): (e: Exposure)
    requires forall n :: n in ids ==> NeighbourDefined(cell, ns, seg, trackers.Keys, n)
    ensures e.trackers.Keys == trackers.Keys
    decreases |ids|
  {
    if ids == [] then Exposure(0.0, 0.0, trackers)
    else
      var n := ids[|ids| - 1];
      assert n in ids && forall m :: m in ids[..|ids| - 1] ==> m in ids;
      assert NeighbourDefined(cell, ns, seg, trackers.Keys, n);
      Contribution(cell, ns, seg, selfFactor, Accumulate(cell, ns, seg, selfFactor, ids[..|ids| - 1], trackers), n)
  }

  /** The cell's own restriction factor for segment seg and its tracker after the call. */
  function SelfCorrection(cell: Cell, ns: map<Id, Seaird>, seg: nat, trackers: map<Id, Tracker>): (real, Tracker)
    requires ExposureDefined(cell, ns, seg, trackers.Keys)
  {
    var (f, t) := Correction(cell.vicinity[cell.id].correctionFactors, TotalInfections(ns[cell.id]), trackers[cell.id]);
    (Blend(cell.current.disobedient[seg], f), t)
  }

  /** new_exposed for segment seg: the gathered inflow capped at the susceptible share, and
      the trackers as the call leaves them. */
  function Exposed(cell: Cell, ns: map<Id, Seaird>, seg: nat, trackers: map<Id, Tracker>): (r: (real, map<Id, Tracker>))
    requires ExposureDefined(cell, ns, seg, trackers.Keys)
    ensures r.0 <= cell.current.susceptible[seg]
    ensures r.1.Keys == trackers.Keys
  {
    var (selfFactor, t) := SelfCorrection(cell, ns, seg, trackers);
    var acc := Accumulate(cell, ns, seg, selfFactor, cell.neighbors, trackers[cell.id := t]);
    (Min(cell.current.susceptible[seg], acc.symptomatic + acc.asymptomatic), acc.trackers)
  }

  /** The inner loop of new_exposed: the terms of a neighbour's first `phases` infectious
      phases added to the running totals, the symptomatic ones scaled by the factor. */
  method AddPhaseInflows(correlation: real, mobility: seq<real>, virulence: seq<real>, susceptible: real,
                         infections: real, asymptomatics: real, factor: real, phases: nat,
                         symptomatic: real, asymptomatic: real)
    returns (symptomaticOut: real, asymptomaticOut: real)
    requires phases <= |mobility| && phases <= |virulence|
    ensures symptomaticOut == symptomatic + SymptomaticInflow(correlation, mobility, virulence, susceptible, infections, factor, phases)
    ensures asymptomaticOut == asymptomatic + AsymptomaticInflow(correlation, mobility, virulence, susceptible, asymptomatics, phases)
  {
    symptomaticOut, asymptomaticOut := symptomatic, asymptomatic;
    var i := 0;
    while i < phases
      invariant 0 <= i <= phases
      invariant symptomaticOut == symptomatic + SymptomaticInflow(correlation, mobility, virulence, susceptible, infections, factor, i)
      invariant asymptomaticOut == asymptomatic + AsymptomaticInflow(correlation, mobility, virulence, susceptible, asymptomatics, i)
    {
      symptomaticOut := symptomaticOut + SymptomaticTerm(correlation, mobility, virulence, susceptible, infections, factor, i);
      asymptomaticOut := asymptomaticOut + AsymptomaticTerm(correlation, mobility, virulence, susceptible, asymptomatics, i);
      i := i + 1;
    }
  }

  /** One pass of new_exposed's neighbour loop: the neighbour's correction call, its
      effective factor and the inflow of its infectious phases. */
  method AddNeighbour(cell: Cell, ns: map<Id, Seaird>, seg: nat, selfFactor: real,
                      symptomatic: real, asymptomatic: real, trackers: map<Id, Tracker>, neighbor: Id)
    returns (symptomaticOut: real, asymptomaticOut: real, trackersOut: map<Id, Tracker>)
    requires NeighbourDefined(cell, ns, seg, trackers.Keys, neighbor)
    ensures Exposure(symptomaticOut, asymptomaticOut, trackersOut) ==
      Contribution(cell, ns, seg, selfFactor, Exposure(symptomatic, asymptomatic, trackers), neighbor)
  {
    var nstate := ns[neighbor];
    var v := cell.vicinity[neighbor];
    var correction, tracker :=
      MovementCorrectionFactor(v.correctionFactors, TotalInfections(nstate), trackers[neighbor]);
    trackersOut := trackers[neighbor := tracker];
    var neighborCorrection := Blend(nstate.disobedient[seg], correction);
    neighborCorrection := EffectiveFactor(selfFactor, neighborCorrection);
    symptomaticOut, asymptomaticOut :=
      AddPhaseInflows(v.correlation, cell.rates.mobility[seg], cell.rates.virulence[seg], cell.current.susceptible[seg],
                      TotalInfections(nstate), TotalAsymptomatic(nstate), neighborCorrection, NumInfectedPhases(nstate),
                      symptomatic, asymptomatic);
  }

  /** new_exposed: the cell's own correction first, then for every neighbour its correction,
      the effective factor, and the inflow of each of its infectious phases. */
  method NewExposed(cell: Cell, ns: map<Id, Seaird>, seg: nat, trackers: map<Id, Tracker>)
    returns (exposed: real, trackersOut: map<Id, Tracker>)
    requires ExposureDefined(cell, ns, seg, trackers.Keys)
    ensures (exposed, trackersOut) == Exposed(cell, ns, seg, trackers)
    ensures exposed <= cell.current.susceptible[seg]
    ensures trackersOut.Keys == trackers.Keys
  {
    var expos, exposI, exposA := 0.0, 0.0, 0.0;
    var cstate := cell.current;
    var selfVicinity := cell.vicinity[cell.id];
    var selfCorrection, selfTracker :=
      MovementCorrectionFactor(selfVicinity.correctionFactors, TotalInfections(ns[cell.id]), trackers[cell.id]);
    var currentCellCorrectionFactor := Blend(cstate.disobedient[seg], selfCorrection);
    trackersOut := trackers[cell.id := selfTracker];
    ghost var start := trackersOut;
    var k := 0;
    while k < |cell.neighbors|
      invariant 0 <= k <= |cell.neighbors|
      invariant start.Keys == trackers.Keys
      invariant forall n :: n in cell.neighbors[..k] ==> NeighbourDefined(cell, ns, seg, start.Keys, n)
      invariant Exposure(exposI, exposA, trackersOut) ==
        Accumulate(cell, ns, seg, currentCellCorrectionFactor, cell.neighbors[..k], start)
      invariant expos == exposI + exposA
    {
      var neighbor := cell.neighbors[k];
      assert neighbor in cell.neighbors;
      exposI, exposA, trackersOut := AddNeighbour(cell, ns, seg, currentCellCorrectionFactor, exposI, exposA, trackersOut, neighbor);
      expos := exposI + exposA;
      assert cell.neighbors[..k + 1][..k] == cell.neighbors[..k];
      k := k + 1;
    }
    assert cell.neighbors[..k] == cell.neighbors;
    exposed := Min(cstate.susceptible[seg], expos);
  }

  /** The asymptomatic inflow is the symptomatic inflow with no restriction at all: mobility
      restrictions are applied only to symptomatic contacts. */
  lemma {:induction false} AsymptomaticUnrestricted(correlation: real, mobility: seq<real>, virulence: seq<real>,
                                                    susceptible: real, load: real, n: nat)
    requires n <= |mobility| && n <= |virulence|
    ensures AsymptomaticInflow(correlation, mobility, virulence, susceptible, load, n) ==
            SymptomaticInflow(correlation, mobility, virulence, susceptible, load, 1.0, n)
  {
    if n > 0 {
      AsymptomaticUnrestricted(correlation, mobility, virulence, susceptible, load, n - 1);
    }
  }

  /** Restrictions leave a neighbour's asymptomatic contacts alone: what one pass adds to the
      asymptomatic total is the same whatever the cell's own factor and whatever trackers
      (and hence correction factors) are in force. */
  lemma AsymptomaticIgnoresRestriction(cell: Cell, ns: map<Id, Seaird>, seg: nat, n: Id,
                                       selfFactor1: real, before1: Exposure, selfFactor2: real, before2: Exposure)
    requires NeighbourDefined(cell, ns, seg, before1.trackers.Keys, n)
    requires NeighbourDefined(cell, ns, seg, before2.trackers.Keys, n)
    ensures Contribution(cell, ns, seg, selfFactor1, before1, n).asymptomatic - before1.asymptomatic ==
            Contribution(cell, ns, seg, selfFactor2, before2, n).asymptomatic - before2.asymptomatic
  {
  }

  /** All factors of a contact term are non-negative, so the term is. */
  lemma TermNonNegative(correlation: real, mobility: real, virulence: real, susceptible: real, load: real)
    requires correlation >= 0.0 && mobility >= 0.0 && virulence >= 0.0 && susceptible >= 0.0 && load >= 0.0
    ensures Term(correlation, mobility, virulence, susceptible, load) >= 0.0
  {
    assert correlation * mobility >= 0.0;
    assert correlation * mobility * virulence >= 0.0;
    assert correlation * mobility * virulence * susceptible >= 0.0;
  }

  /** Scaling a non-negative term by a larger factor never gives less. */
  lemma ScaleMonotone(t: real, f1: real, f2: real)
    requires t >= 0.0 && f1 <= f2
    ensures t * f1 <= t * f2
  {
    var gap := f2 - f1;
    assert gap >= 0.0;
    assert t * gap >= 0.0;
    assert t * f2 == t * f1 + t * gap;
  }

  /** A tighter restriction never lets more symptomatic contacts through: the inflow grows
      with the factor. Together with EffectiveFactor this bounds a neighbour's symptomatic
      inflow by what the cell's own restriction would let through. */
  lemma {:induction false} SymptomaticInflowMonotone(correlation: real, mobility: seq<real>, virulence: seq<real>,
                                                     susceptible: real, load: real, f1: real, f2: real, n: nat)
    requires n <= |mobility| && n <= |virulence|
    requires correlation >= 0.0 && susceptible >= 0.0 && load >= 0.0 && f1 <= f2
    requires forall i :: 0 <= i < n ==> mobility[i] >= 0.0 && virulence[i] >= 0.0
    ensures SymptomaticInflow(correlation, mobility, virulence, susceptible, load, f1, n) <=
            SymptomaticInflow(correlation, mobility, virulence, susceptible, load, f2, n)
  {
    if n > 0 {
      SymptomaticInflowMonotone(correlation, mobility, virulence, susceptible, load, f1, f2, n - 1);
      var t := Term(correlation, mobility[n - 1], virulence[n - 1], susceptible, load);
      TermNonNegative(correlation, mobility[n - 1], virulence[n - 1], susceptible, load);
      ScaleMonotone(t, f1, f2);
      assert SymptomaticTerm(correlation, mobility, virulence, susceptible, load, f1, n - 1) == t * f1;
      assert SymptomaticTerm(correlation, mobility, virulence, susceptible, load, f2, n - 1) == t * f2;
    }
  }

  /** The cell's own restriction caps every neighbour: the symptomatic inflow a neighbour adds
      is at most what it would add under the cell's own factor. */
  lemma ContributionWithinSelfRestriction(cell: Cell, ns: map<Id, Seaird>, seg: nat, selfFactor: real,
                                          before: Exposure, n: Id)
    requires NeighbourDefined(cell, ns, seg, before.trackers.Keys, n)
    requires cell.vicinity[n].correlation >= 0.0 && cell.current.susceptible[seg] >= 0.0
    requires TotalInfections(ns[n]) >= 0.0
    requires forall i :: 0 <= i < NumInfectedPhases(ns[n]) ==>
      cell.rates.mobility[seg][i] >= 0.0 && cell.rates.virulence[seg][i] >= 0.0
    ensures Contribution(cell, ns, seg, selfFactor, before, n).symptomatic - before.symptomatic <=
      SymptomaticInflow(cell.vicinity[n].correlation, cell.rates.mobility[seg], cell.rates.virulence[seg],
                        cell.current.susceptible[seg], TotalInfections(ns[n]), selfFactor, NumInfectedPhases(ns[n]))
  {
    var (f, t) := Correction(cell.vicinity[n].correctionFactors, TotalInfections(ns[n]), before.trackers[n]);
    var factor := EffectiveFactor(selfFactor, Blend(ns[n].disobedient[seg], f));
    SymptomaticInflowMonotone(cell.vicinity[n].correlation, cell.rates.mobility[seg], cell.rates.virulence[seg],
                              cell.current.susceptible[seg], TotalInfections(ns[n]), factor, selfFactor, NumInfectedPhases(ns[n]));
  }

  /** A neighbour with no infectious load contributes nothing, whatever the factor. */
  lemma {:induction false} InflowWithoutLoad(correlation: real, mobility: seq<real>, virulence: seq<real>,
                                             susceptible: real, factor: real, n: nat)
    requires n <= |mobility| && n <= |virulence|
    ensures SymptomaticInflow(correlation, mobility, virulence, susceptible, 0.0, factor, n) == 0.0
    ensures AsymptomaticInflow(correlation, mobility, virulence, susceptible, 0.0, n) == 0.0
  {
    if n > 0 {
      InflowWithoutLoad(correlation, mobility, virulence, susceptible, factor, n - 1);
    }
  }

  /** Neighbours without infected or asymptomatic people add nothing to the totals. */
  lemma {:induction false} AccumulateWithoutLoad(cell: Cell, ns: map<Id, Seaird>, seg: nat, selfFactor: real,
                                                 ids: seq<Id>, trackers: map<Id, Tracker>)
    requires forall n :: n in ids ==>
      NeighbourDefined(cell, ns, seg, trackers.Keys, n) && TotalInfections(ns[n]) == 0.0 && TotalAsymptomatic(ns[n]) == 0.0
    ensures Accumulate(cell, ns, seg, selfFactor, ids, trackers).symptomatic == 0.0
    ensures Accumulate(cell, ns, seg, selfFactor, ids, trackers).asymptomatic == 0.0
    decreases |ids|
  {
    if ids != [] {
      var prefix := ids[..|ids| - 1];
      var n := ids[|ids| - 1];
      assert n in ids && forall m :: m in prefix ==> m in ids;
      AccumulateWithoutLoad(cell, ns, seg, selfFactor, prefix, trackers);
      var before := Accumulate(cell, ns, seg, selfFactor, prefix, trackers);
      var (f, t) := Correction(cell.vicinity[n].correctionFactors, TotalInfections(ns[n]), before.trackers[n]);
      var factor := EffectiveFactor(selfFactor, Blend(ns[n].disobedient[seg], f));
      InflowWithoutLoad(cell.vicinity[n].correlation, cell.rates.mobility[seg], cell.rates.virulence[seg],
                        cell.current.susceptible[seg], factor, NumInfectedPhases(ns[n]));
    }
  }

  /** No new exposures without infectious neighbours: when no neighbour has infected or
      asymptomatic people, new_exposed is 0 for a non-negative susceptible share. */
  lemma NoInfectiousNeighboursNoExposure(cell: Cell, ns: map<Id, Seaird>, seg: nat, trackers: map<Id, Tracker>)
    requires ExposureDefined(cell, ns, seg, trackers.Keys)
    requires cell.current.susceptible[seg] >= 0.0
    requires forall n :: n in cell.neighbors ==> TotalInfections(ns[n]) == 0.0 && TotalAsymptomatic(ns[n]) == 0.0
    ensures Exposed(cell, ns, seg, trackers).0 == 0.0
  {
    var (selfFactor, t) := SelfCorrection(cell, ns, seg, trackers);
    AccumulateWithoutLoad(cell, ns, seg, selfFactor, cell.neighbors, trackers[cell.id := t]);
  }
}
