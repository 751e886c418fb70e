/** geographical_cell: construction of a cell and its state transition (local_computation),
    which advances every age segment one cycle: new exposures, new infectious cases, deaths
    and recoveries, the phase shifts, and the susceptible share as what is left over. */
module GeographicalCell {
  import opened Numerics
  import opened Hysteresis
  import opened Records
  import opened Phases
  import opened Contact

  // ---------------------------------------------------------------- construction

  /** Construction either yields a cell or fails the segment-count assertion. */
  datatype Construction = Built(cell: Cell) | SegmentCountMismatch

  /** The virulence, recovery, mobility and incubation tables cover the same number of age
      segments. */
  predicate EqualSegmentCounts(rates: Rates)
  {
    |rates.virulence| == |rates.recovery| &&
    |rates.virulence| == |rates.mobility| &&
    |rates.virulence| == |rates.incubation|
  }

  /** std::map::insert of a value-initialised tracker for every key of the neighbourhood: a
      key that already has a tracker keeps it. */
  method InsertDefaultTrackers(trackers: map<Id, Tracker>, neighborhood: set<Id>)
    returns (result: map<Id, Tracker>)
    ensures result.Keys == trackers.Keys + neighborhood
    ensures forall n :: n in trackers ==> result[n] == trackers[n]
    ensures forall n :: n in neighborhood && n !in trackers ==> result[n] == DefaultTracker
  {
    result := trackers;
    var pending := neighborhood;
    while pending != {}
      invariant pending <= neighborhood
      invariant result.Keys == trackers.Keys + (neighborhood - pending)
      invariant forall n :: n in trackers ==> result[n] == trackers[n]
      invariant forall n :: n in neighborhood - pending && n !in trackers ==> result[n] == DefaultTracker
      decreases pending
    {
      var n :| n in pending;
      if n !in result {
        result := result[n := DefaultTracker];
      }
      pending := pending - {n};
    }
  }

  /** The constructor: a tracker for every neighbour is added to the initial state, the
      configuration is stored, and the segment counts of the rate tables must agree. */
  method NewCell(id: Id, neighbors: seq<Id>, neighborhood: map<Id, Vicinity>, initial: Seaird, rates: Rates)
    returns (c: Construction)
    ensures c.Built? <==> EqualSegmentCounts(rates)
    ensures c.Built? ==>
      c.cell.id == id && c.cell.neighbors == neighbors && c.cell.vicinity == neighborhood &&
      c.cell.rates == rates &&
      c.cell.current == initial.(hysteresisFactors := c.cell.current.hysteresisFactors)
    ensures c.Built? ==> c.cell.current.hysteresisFactors.Keys == initial.hysteresisFactors.Keys + neighborhood.Keys
    ensures c.Built? ==> forall n :: n in initial.hysteresisFactors ==>
      c.cell.current.hysteresisFactors[n] == initial.hysteresisFactors[n]
    ensures c.Built? ==> forall n :: n in neighborhood && n !in initial.hysteresisFactors ==>
      c.cell.current.hysteresisFactors[n] == DefaultTracker
  {
    var trackers := InsertDefaultTrackers(initial.hysteresisFactors, neighborhood.Keys);
    if !EqualSegmentCounts(rates) {
      return SegmentCountMismatch;
    }
    c := Built(Cell(id, neighbors, neighborhood, initial.(hysteresisFactors := trackers), rates));
  }

  /** output_delay: the new state is always sent after one time unit, whatever it is. */
  function OutputDelay(s: Seaird): (d: nat)
    ensures d == 1
  {
    1
  }

  // ---------------------------------------------------------------- one age segment

  /** Everything local_computation looks up for segment seg of the working state s succeeds:
      at least one exposed and infected phase, two recovered phases when immunity is
      permanent, a positive precision divider and rates for every phase. */
  predicate SegmentDefined(cell: Cell, ns: map<Id, Seaird>, s: Seaird, seg: nat)
  {
    SameShape(cell.current, s) && seg < NumAgeSegments(s) &&
    NumExposedPhases(s) >= 1 && NumInfectedPhases(s) >= 1 &&
    NumRecoveredPhases(s) >= (if cell.rates.siirs then 1 else 2) &&
    seg < |cell.rates.incubation| && NumExposedPhases(s) - 1 <= |cell.rates.incubation[seg]| &&
    FatalitiesDefined(s, cell.rates, seg) &&
    seg < |cell.rates.recovery| && NumInfectedPhases(s) - 1 <= |cell.rates.recovery[seg]| &&
    ExposureDefined(cell, ns, seg, s.hysteresisFactors.Keys)
  }

  /** Segment j holds the same shares in a and b. */
  predicate SegmentUnchanged(a: Seaird, b: Seaird, j: nat)
    requires WellShaped(a) && WellShaped(b) && j < NumAgeSegments(a) && j < NumAgeSegments(b)
  {
    a.susceptible[j] == b.susceptible[j] && a.exposed[j] == b.exposed[j] &&
    a.infected[j] == b.infected[j] && a.asymptomatic[j] == b.asymptomatic[j] &&
    a.recovered[j] == b.recovered[j] && a.fatalities[j] == b.fatalities[j] &&
    a.disobedient[j] == b.disobedient[j]
  }

  /** The shifts of segment seg can be made: at least one exposed and infected phase, two
      recovered phases when immunity is permanent, an incubation rate for every exposed
      phase but the last, and one death and one recovery entry per infected phase. */
  predicate ShiftDefined(res: Seaird, rates: Rates, seg: nat, fatalities: seq<real>, recoveries: seq<real>)
  {
    WellShaped(res) && seg < NumAgeSegments(res) && rates.precDivider > 0 &&
    NumExposedPhases(res) >= 1 && NumInfectedPhases(res) >= 1 &&
    NumRecoveredPhases(res) >= (if rates.siirs then 1 else 2) &&
    seg < |rates.incubation| && NumExposedPhases(res) - 1 <= |rates.incubation[seg]| &&
    |fatalities| == NumInfectedPhases(res) && |recoveries| == NumInfectedPhases(res)
  }

  /** Segment seg once the inflows, deaths and recoveries are known: the deaths are added to
      the cumulative fatalities, the last phase's deaths are taken off its recoveries (geographical_cell.hpp:121),
      and the exposed, infected, asymptomatic and recovered phases move one step. Nothing
      else of the working state changes; the trackers are the ones new_exposed left. */
  function Shifted(res: Seaird, rates: Rates, seg: nat, newE: real, newI: real, newA: real,
                   fatalities: seq<real>, recoveries: seq<real>, trackers: map<Id, Tracker>): (next: Seaird)
    requires ShiftDefined(res, rates, seg, fatalities, recoveries)
    ensures SameShape(res, next) && next.susceptible == res.susceptible
    ensures next.hospitalCapacity == res.hospitalCapacity && next.fatalityModifier == res.fatalityModifier
    ensures next.disobedient == res.disobedient
    ensures next.hysteresisFactors == trackers
    ensures forall j :: 0 <= j < NumAgeSegments(res) && j != seg ==> SegmentUnchanged(res, next, j)
  {
    var p := rates.precDivider;
    var last := |fatalities| - 1;
    var recovered := recoveries[last := recoveries[last] - fatalities[last]];
    res.(exposed := res.exposed[seg := ExposedAfter(res.exposed[seg], rates.incubation[seg], newE, p)],
         infected := res.infected[seg := InfectedAfter(res.infected[seg], recovered, fatalities, rates.asymptomatic, newI, p)],
         asymptomatic := res.asymptomatic[seg := AsymptomaticAfter(res.asymptomatic[seg], recovered, rates.asymptomatic, newA, p)],
         recovered := res.recovered[seg := RecoveredAfter(res.recovered[seg], rates.siirs, Sum(recovered))],
         fatalities := res.fatalities[seg := res.fatalities[seg] + Sum(fatalities)],
         hysteresisFactors := trackers)
  }

  /** The shift loops of local_computation for segment seg (geographical_cell.hpp:114-205): the susceptible
      residual starts from 1 minus the cumulative deaths, and every value the loops write is
      taken off it, so that the residual and everything outside the susceptible pool add up
      to 1. */
  method ShiftSegment(res: Seaird, rates: Rates, seg: nat, newE: real, newI: real, newA: real,
                      fatalities: seq<real>, recoveries: seq<real>, trackers: map<Id, Tracker>)
    returns (next: Seaird, residual: real)
    requires ShiftDefined(res, rates, seg, fatalities, recoveries)
    ensures next == Shifted(res, rates, seg, newE, newI, newA, fatalities, recoveries, trackers)
    ensures residual + Occupied(next, seg) == 1.0
  {
    var p := rates.precDivider;
    var n := |fatalities|;
    var deaths := res.fatalities[seg] + Sum(fatalities);
    var newS := 1.0 - deaths;

    // the last phase's deaths are taken off its recoveries a second time
    var recovered := recoveries[n - 1 := recoveries[n - 1] - fatalities[n - 1]];
    SumUpdate(recoveries, n - 1, recoveries[n - 1] - fatalities[n - 1]);

    var exposedNext, infectedNext, asymptomaticNext, recoveredNext;
    exposedNext, newS := ShiftExposed(res.exposed[seg], rates.incubation[seg], newE, p, newS);
    infectedNext, asymptomaticNext, newS :=
      ShiftInfected(res.infected[seg], res.asymptomatic[seg], recovered, fatalities, rates.asymptomatic, newI, newA, p, newS);
    recoveredNext, newS := ShiftRecovered(res.recovered[seg], rates.siirs, Sum(recovered), newS);

    next := res.(exposed := res.exposed[seg := exposedNext],
                 infected := res.infected[seg := infectedNext],
                 asymptomatic := res.asymptomatic[seg := asymptomaticNext],
                 recovered := res.recovered[seg := recoveredNext],
                 fatalities := res.fatalities[seg := deaths],
                 hysteresisFactors := trackers);
    ShiftedParts(res, rates, seg, newE, newI, newA, fatalities, recoveries, trackers,
                 exposedNext, infectedNext, asymptomaticNext, recoveredNext, deaths);
    residual := newS;
  }

  /** Shifted is the state assembled from the shifted vectors of segment seg. */
  lemma ShiftedParts(res: Seaird, rates: Rates, seg: nat, newE: real, newI: real, newA: real,
                     fatalities: seq<real>, recoveries: seq<real>, trackers: map<Id, Tracker>,
                     exposedNext: seq<real>, infectedNext: seq<real>, asymptomaticNext: seq<real>,
                     recoveredNext: seq<real>, deaths: real)
    requires ShiftDefined(res, rates, seg, fatalities, recoveries)
    requires exposedNext == ExposedAfter(res.exposed[seg], rates.incubation[seg], newE, rates.precDivider)
    requires var last := |fatalities| - 1;
      var recovered := recoveries[last := recoveries[last] - fatalities[last]];
      infectedNext == InfectedAfter(res.infected[seg], recovered, fatalities, rates.asymptomatic, newI, rates.precDivider) &&
      asymptomaticNext == AsymptomaticAfter(res.asymptomatic[seg], recovered, rates.asymptomatic, newA, rates.precDivider) &&
      recoveredNext == RecoveredAfter(res.recovered[seg], rates.siirs, Sum(recovered))
    requires deaths == res.fatalities[seg] + Sum(fatalities)
    ensures Shifted(res, rates, seg, newE, newI, newA, fatalities, recoveries, trackers) ==
      res.(exposed := res.exposed[seg := exposedNext],
           infected := res.infected[seg := infectedNext],
           asymptomatic := res.asymptomatic[seg := asymptomaticNext],
           recovered := res.recovered[seg := recoveredNext],
           fatalities := res.fatalities[seg := deaths],
           hysteresisFactors := trackers)
  {
  }

  /** Segment seg of the working state `res` advanced by one cycle, before the susceptible
      share is set: new_exposed (against the trackers of `res`) enters exposed phase 0, the
      split of the current state's progressing exposed enters infected and asymptomatic
      phase 0, the deaths and recoveries of `res` drive the infected and recovered shifts,
      and the deaths are added to the cumulative fatalities. */
  function SegmentStep(cell: Cell, ns: map<Id, Seaird>, res: Seaird, seg: nat): (next: Seaird)
    requires SegmentDefined(cell, ns, res, seg)
    ensures SameShape(res, next) && next.susceptible == res.susceptible
    ensures next.disobedient == res.disobedient
    ensures next.hospitalCapacity == res.hospitalCapacity && next.fatalityModifier == res.fatalityModifier
    ensures next.hysteresisFactors.Keys == res.hysteresisFactors.Keys
    ensures forall j :: 0 <= j < NumAgeSegments(res) && j != seg ==> SegmentUnchanged(res, next, j)
  {
    var p := cell.rates.precDivider;
    var exposure := Exposed(cell, ns, seg, res.hysteresisFactors);
    var progressing := Progressing(cell.current.exposed[seg], cell.rates.incubation[seg]);
    var fatalities := Fatalities(res, cell.rates, seg);
    Shifted(res, cell.rates, seg, Round(exposure.0, p),
            SplitPart(1.0 - cell.rates.asymptomatic, progressing, p), SplitPart(cell.rates.asymptomatic, progressing, p),
            fatalities, Recoveries(res, cell.rates, seg, fatalities), exposure.1)
  }

  /** What one step writes into segment seg: the rounded new exposed and the exposed that
      stay in their phase, the split of the progressing exposed and what every infected and
      asymptomatic phase carries over after its deaths and recoveries, this cycle's
      recoveries (less the last phase's deaths, as at geographical_cell.hpp:121) and the shifted recovered phases,
      and the deaths added to the cumulative fatalities. */
  lemma SegmentStepMovesPhases(cell: Cell, ns: map<Id, Seaird>, res: Seaird, seg: nat)
    requires SegmentDefined(cell, ns, res, seg)
    ensures var next := SegmentStep(cell, ns, res, seg);
      var p := cell.rates.precDivider;
      var fatalities := Fatalities(res, cell.rates, seg);
      var progressing := Progressing(cell.current.exposed[seg], cell.rates.incubation[seg]);
      next.fatalities[seg] == res.fatalities[seg] + Sum(fatalities) &&
      next.exposed[seg][0] == Round(Exposed(cell, ns, seg, res.hysteresisFactors).0, p) &&
      (forall i :: 1 <= i < NumExposedPhases(res) ==>
        next.exposed[seg][i] == StaysExposed(res.exposed[seg][i - 1], cell.rates.incubation[seg][i - 1], p)) &&
      next.infected[seg][0] == SplitPart(1.0 - cell.rates.asymptomatic, progressing, p) &&
      next.asymptomatic[seg][0] == SplitPart(cell.rates.asymptomatic, progressing, p) &&
      (forall i :: 1 <= i < NumInfectedPhases(res) ==>
        next.infected[seg][i] == InfectedCarried(res.infected[seg][i - 1], RecoveryAt(res, cell.rates, seg, fatalities, i - 1),
                                                 fatalities[i - 1], cell.rates.asymptomatic, p) &&
        next.asymptomatic[seg][i] == AsymptomaticCarried(res.asymptomatic[seg][i - 1], RecoveryAt(res, cell.rates, seg, fatalities, i - 1),
                                                         cell.rates.asymptomatic, p)) &&
      next.recovered[seg][0] == Sum(Recoveries(res, cell.rates, seg, fatalities)) - fatalities[|fatalities| - 1] &&
      (forall i :: 1 <= i < NumRecoveredPhases(res) ==>
        next.recovered[seg][i] == RecoveredTarget(res.recovered[seg], cell.rates.siirs, i))
  {
    var fatalities := Fatalities(res, cell.rates, seg);
    var recoveries := Recoveries(res, cell.rates, seg, fatalities);
    var last := |fatalities| - 1;
    SumUpdate(recoveries, last, recoveries[last] - fatalities[last]);
  }

  /** The body of local_computation's segment loop up to the clamp: `res` is the working
      state with the earlier segments already advanced, `residual` the susceptible share
      before the clamp. Exposures are gathered against the cell's current state, infections
      come from its current exposed phases, and deaths and recoveries from `res`. */
  method AdvanceSegment(cell: Cell, ns: map<Id, Seaird>, res: Seaird, seg: nat)
    returns (next: Seaird, residual: real)
    requires SegmentDefined(cell, ns, res, seg)
    ensures next == SegmentStep(cell, ns, res, seg)
    ensures residual + Occupied(next, seg) == 1.0
  {
    var p := cell.rates.precDivider;
    var exposedShare, trackers := NewExposed(cell, ns, seg, res.hysteresisFactors);
    var newE := Round(exposedShare, p);
    var infectedShare := NewInfections(cell.current.exposed[seg], cell.rates.incubation[seg], cell.rates.asymptomatic, p);
    var newI := Round(infectedShare, p);
    var asymptomaticShare := NewAsymptomatic(cell.current.exposed[seg], cell.rates.incubation[seg], cell.rates.asymptomatic, p);
    var newA := Round(asymptomaticShare, p);
    SplitPartRoundedAgain(1.0 - cell.rates.asymptomatic, Progressing(cell.current.exposed[seg], cell.rates.incubation[seg]), p);
    SplitPartRoundedAgain(cell.rates.asymptomatic, Progressing(cell.current.exposed[seg], cell.rates.incubation[seg]), p);
    var fatalities := NewFatalities(res, cell.rates, seg);
    var recoveries := NewRecoveries(res, cell.rates, seg, fatalities);
    next, residual := ShiftSegment(res, cell.rates, seg, newE, newI, newA, fatalities, recoveries, trackers);
    SegmentStepShifts(cell, ns, res, seg, exposedShare, trackers, newE, newI, newA, fatalities, recoveries);
  }

  /** SegmentStep is Shifted applied to the values AdvanceSegment computes. */
  lemma SegmentStepShifts(cell: Cell, ns: map<Id, Seaird>, res: Seaird, seg: nat, exposedShare: real,
                          trackers: map<Id, Tracker>, newE: real, newI: real, newA: real,
                          fatalities: seq<real>, recoveries: seq<real>)
    requires SegmentDefined(cell, ns, res, seg)
    requires (exposedShare, trackers) == Exposed(cell, ns, seg, res.hysteresisFactors)
    requires newE == Round(exposedShare, cell.rates.precDivider)
    requires newI == SplitPart(1.0 - cell.rates.asymptomatic,
      Progressing(cell.current.exposed[seg], cell.rates.incubation[seg]), cell.rates.precDivider)
    requires newA == SplitPart(cell.rates.asymptomatic,
      Progressing(cell.current.exposed[seg], cell.rates.incubation[seg]), cell.rates.precDivider)
    requires fatalities == Fatalities(res, cell.rates, seg)
    requires recoveries == Recoveries(res, cell.rates, seg, fatalities)
    requires ShiftDefined(res, cell.rates, seg, fatalities, recoveries)
    ensures SegmentStep(cell, ns, res, seg) == Shifted(res, cell.rates, seg, newE, newI, newA, fatalities, recoveries, trackers)
  {
  }

  /** The deaths of the last infected phase are subtracted from its recoveries although its
      recoveries already exclude them: what the phase passes on to the recovered and the
      fatalities falls short of its population by exactly those deaths, and that share is
      left in the susceptible residual. */
  lemma LastPhaseDeathsSubtractedTwice(res: Seaird, rates: Rates, seg: nat)
    requires FatalitiesDefined(res, rates, seg)
    requires RecoveriesDefined(res, rates, seg, Fatalities(res, rates, seg))
    ensures var fatalities := Fatalities(res, rates, seg);
            var last := |fatalities| - 1;
            (Recoveries(res, rates, seg, fatalities)[last] - fatalities[last]) + fatalities[last] ==
              res.infected[seg][last] + res.asymptomatic[seg][last] - fatalities[last]
  {
  }

  // ---------------------------------------------------------------- the whole cell

  /** local_computation either produces the next state or stops at the conservation assertion
      for a segment whose susceptible residual is 0.001 or more below zero. */
  datatype Outcome = Next(state: Seaird) | ConservationViolation(segment: nat, residual: real)

  /** Segment k of s is conserved as local_computation leaves it: a non-negative susceptible
      share, and a total of exactly 1 unless a slightly negative residual was clamped to 0,
      in which case the total exceeds 1 by less than 0.001. */
  predicate Conserved(s: Seaird, k: nat)
    requires WellShaped(s) && k < NumAgeSegments(s)
  {
    s.susceptible[k] >= 0.0 &&
    (Mass(s, k) == 1.0 || (s.susceptible[k] == 0.0 && 1.0 < Mass(s, k) < 1.001))
  }

  /** The phase counts and rate tables let every segment of the current state be advanced. */
  predicate Shaped(cell: Cell)
  {
    var s := cell.current;
    var rates := cell.rates;
    WellShaped(s) && rates.precDivider > 0 &&
    NumExposedPhases(s) >= 1 && NumInfectedPhases(s) >= 1 &&
    NumRecoveredPhases(s) >= (if rates.siirs then 1 else 2) &&
    NumAgeSegments(s) <= |rates.incubation| && NumAgeSegments(s) <= |rates.fatality| &&
    NumAgeSegments(s) <= |rates.recovery| &&
    forall seg :: 0 <= seg < NumAgeSegments(s) ==>
      NumExposedPhases(s) - 1 <= |rates.incubation[seg]| &&
      NumInfectedPhases(s) <= |rates.fatality[seg]| &&
      NumInfectedPhases(s) - 1 <= |rates.recovery[seg]|
  }

  /** Every segment of the cell's current state can be advanced (SegmentDefined for each). */
  predicate Ready(cell: Cell, ns: map<Id, Seaird>)
  {
    Shaped(cell) &&
    forall seg :: 0 <= seg < NumAgeSegments(cell.current) ==>
      ExposureDefined(cell, ns, seg, cell.current.hysteresisFactors.Keys)
  }

  /** Segment j of s has been advanced from the cell's current state: it is conserved, every
      exposed phase but the first holds the share of the previous phase that stays exposed,
      the first infected and asymptomatic phases hold the split of the progressing exposed,
      and every recovered phase but the first holds its shifted value. */
  predicate Advanced(cell: Cell, s: Seaird, j: nat)
    requires Shaped(cell) && SameShape(cell.current, s) && j < NumAgeSegments(s)
  {
    var p := cell.rates.precDivider;
    var progressing := Progressing(cell.current.exposed[j], cell.rates.incubation[j]);
    Conserved(s, j) &&
    (forall i :: 1 <= i < NumExposedPhases(s) ==>
      s.exposed[j][i] == StaysExposed(cell.current.exposed[j][i - 1], cell.rates.incubation[j][i - 1], p)) &&
    s.infected[j][0] == SplitPart(1.0 - cell.rates.asymptomatic, progressing, p) &&
    s.asymptomatic[j][0] == SplitPart(cell.rates.asymptomatic, progressing, p) &&
    (forall i :: 1 <= i < NumRecoveredPhases(s) ==>
      s.recovered[j][i] == RecoveredTarget(cell.current.recovered[j], cell.rates.siirs, i))
  }

  /** A segment left as it was keeps its total. */
  lemma MassOfUnchangedSegment(a: Seaird, b: Seaird, j: nat)
    requires WellShaped(a) && WellShaped(b) && j < NumAgeSegments(a) && j < NumAgeSegments(b)
    requires SegmentUnchanged(a, b, j)
    ensures Mass(a, j) == Mass(b, j)
  {
  }

  /** An advanced segment stays advanced while later segments are processed. */
  lemma AdvancedKept(cell: Cell, a: Seaird, b: Seaird, j: nat)
    requires Shaped(cell) && SameShape(cell.current, a) && SameShape(cell.current, b) && j < NumAgeSegments(a)
    requires SegmentUnchanged(a, b, j) && Advanced(cell, a, j)
    ensures Advanced(cell, b, j)
  {
    MassOfUnchangedSegment(a, b, j);
  }

  /** A state with the current state's shape and tracker keys can be advanced at any of its
      segments. */
  lemma ReadySegment(cell: Cell, ns: map<Id, Seaird>, s: Seaird, k: nat)
    requires Ready(cell, ns) && SameShape(cell.current, s)
    requires s.hysteresisFactors.Keys == cell.current.hysteresisFactors.Keys && k < NumAgeSegments(s)
    ensures SegmentDefined(cell, ns, s, k)
  {
    assert ExposureDefined(cell, ns, k, cell.current.hysteresisFactors.Keys);
  }

  /** The clamp of local_computation: a residual just below zero is taken to be zero. */
  function Clamp(residual: real): (c: real)
    ensures c < 0.0 <==> residual <= -0.001
    ensures c >= 0.0 ==> c == residual || (c == 0.0 && -0.001 < residual < 0.0)
  {
    if residual > -0.001 && residual < 0.0 then 0.0 else residual
  }

  /** The segment loop of local_computation from segment k on, over the working state s:
      each segment is stepped, its susceptible share is set to the clamped residual, and the
      loop stops at the first segment whose clamped residual is still negative. */
  function Run(cell: Cell, ns: map<Id, Seaird>, s: Seaird, k: nat): (r: Outcome)
    requires Ready(cell, ns) && SameShape(cell.current, s)
    requires s.hysteresisFactors.Keys == cell.current.hysteresisFactors.Keys && k <= NumAgeSegments(s)
    ensures r.Next? ==>
      SameShape(cell.current, r.state) && r.state.hysteresisFactors.Keys == cell.current.hysteresisFactors.Keys
    ensures r.Next? ==>
      r.state.disobedient == s.disobedient &&
      r.state.hospitalCapacity == s.hospitalCapacity && r.state.fatalityModifier == s.fatalityModifier
    ensures r.ConservationViolation? ==> k <= r.segment < NumAgeSegments(s) && r.residual <= -0.001
    decreases NumAgeSegments(s) - k
  {
    if k == NumAgeSegments(s) then Next(s)
    else
      ReadySegment(cell, ns, s, k);
      ClampedStepFrame(cell, ns, s, k);
      var next := SegmentStep(cell, ns, s, k);
      var residual := 1.0 - Occupied(next, k);
      if Clamp(residual) < 0.0 then ConservationViolation(k, residual)
      else Run(cell, ns, next.(susceptible := next.susceptible[k := Clamp(residual)]), k + 1)
  }

  /** A segment stepped from a working state that still holds the current state's values
      there, with its susceptible share set to a non-negative clamped residual, is advanced. */
  lemma StepAdvances(cell: Cell, ns: map<Id, Seaird>, res: Seaird, k: nat)
    requires Shaped(cell) && SegmentDefined(cell, ns, res, k)
    requires SegmentUnchanged(cell.current, res, k)
    requires Clamp(1.0 - Occupied(SegmentStep(cell, ns, res, k), k)) >= 0.0
    ensures var next := SegmentStep(cell, ns, res, k);
      var after := next.(susceptible := next.susceptible[k := Clamp(1.0 - Occupied(next, k))]);
      SameShape(cell.current, after) && Advanced(cell, after, k)
  {
    SegmentStepMovesPhases(cell, ns, res, k);
    var next := SegmentStep(cell, ns, res, k);
    var after := next.(susceptible := next.susceptible[k := Clamp(1.0 - Occupied(next, k))]);
    assert Occupied(after, k) == Occupied(next, k);
  }

  /** One turn of the segment loop: Run at segment k steps that segment and either stops with
      its residual or goes on from the next segment with the clamped residual in place. */
  lemma RunUnfold(cell: Cell, ns: map<Id, Seaird>, s: Seaird, k: nat, next: Seaird, residual: real)
    requires Ready(cell, ns) && SameShape(cell.current, s)
    requires s.hysteresisFactors.Keys == cell.current.hysteresisFactors.Keys && k < NumAgeSegments(s)
    requires SegmentDefined(cell, ns, s, k)
    requires next == SegmentStep(cell, ns, s, k) && residual == 1.0 - Occupied(next, k)
    ensures Clamp(residual) < 0.0 ==> Run(cell, ns, s, k) == ConservationViolation(k, residual)
    ensures Clamp(residual) >= 0.0 ==>
      SameShape(cell.current, next.(susceptible := next.susceptible[k := Clamp(residual)])) &&
      Run(cell, ns, s, k) == Run(cell, ns, next.(susceptible := next.susceptible[k := Clamp(residual)]), k + 1)
  {
  }

  /** The state of local_computation's loop before segment k: the working state keeps the
      current state's shape, tracker keys, disobedient shares, capacity and modifier; the
      segments from k on are untouched and those before k are advanced. */
  predicate Progress(cell: Cell, ns: map<Id, Seaird>, res: Seaird, k: nat)
  {
    Ready(cell, ns) && SameShape(cell.current, res) && k <= NumAgeSegments(res) &&
    res.hysteresisFactors.Keys == cell.current.hysteresisFactors.Keys &&
    res.disobedient == cell.current.disobedient && res.hospitalCapacity == cell.current.hospitalCapacity &&
    res.fatalityModifier == cell.current.fatalityModifier &&
    (forall j :: k <= j < NumAgeSegments(res) ==> SegmentUnchanged(cell.current, res, j)) &&
    (forall j :: 0 <= j < k ==> Advanced(cell, res, j))
  }

  /** A segment whose clamped residual is non-negative takes the loop one segment further. */
  lemma ProgressStep(cell: Cell, ns: map<Id, Seaird>, res: Seaird, k: nat, next: Seaird, newS: real)
    requires Progress(cell, ns, res, k) && k < NumAgeSegments(res) && SegmentDefined(cell, ns, res, k)
    requires next == SegmentStep(cell, ns, res, k)
    requires newS == Clamp(1.0 - Occupied(next, k)) && newS >= 0.0
    ensures Progress(cell, ns, next.(susceptible := next.susceptible[k := newS]), k + 1)
  {
    StepAdvances(cell, ns, res, k);
    ClampedStepFrame(cell, ns, res, k);
    ProgressKept(cell, ns, res, k, next.(susceptible := next.susceptible[k := newS]));
  }

  /** One pass of local_computation's segment loop, as Run sees it: either the run stops at
      segment k with a violation, or the loop moves on from the clamped state with Progress kept. */
  lemma LoopStep(cell: Cell, ns: map<Id, Seaird>, res: Seaird, k: nat, next: Seaird, residual: real)
    requires Progress(cell, ns, res, k) && k < NumAgeSegments(res) && SegmentDefined(cell, ns, res, k)
    requires next == SegmentStep(cell, ns, res, k) && residual == 1.0 - Occupied(next, k)
    ensures Clamp(residual) < 0.0 ==> Run(cell, ns, res, k) == ConservationViolation(k, residual)
    ensures Clamp(residual) >= 0.0 ==>
      Progress(cell, ns, next.(susceptible := next.susceptible[k := Clamp(residual)]), k + 1) &&
      Run(cell, ns, res, k) == Run(cell, ns, next.(susceptible := next.susceptible[k := Clamp(residual)]), k + 1)
  {
    RunUnfold(cell, ns, res, k, next, residual);
    if Clamp(residual) >= 0.0 {
      ProgressStep(cell, ns, res, k, next, Clamp(residual));
    }
  }

  /** Progress moves past segment k once segment k has advanced, the others are untouched and
      the cell-wide fields are kept. */
  lemma ProgressKept(cell: Cell, ns: map<Id, Seaird>, res: Seaird, k: nat, after: Seaird)
    requires Progress(cell, ns, res, k) && k < NumAgeSegments(res) && SameShape(res, after)
    requires after.hysteresisFactors.Keys == res.hysteresisFactors.Keys && after.disobedient == res.disobedient
    requires after.hospitalCapacity == res.hospitalCapacity && after.fatalityModifier == res.fatalityModifier
    requires SameShape(cell.current, after) && Advanced(cell, after, k)
    requires forall j :: 0 <= j < NumAgeSegments(res) && j != k ==> SegmentUnchanged(res, after, j)
    ensures Progress(cell, ns, after, k + 1)
  {
    AdvancedPrefixKept(cell, res, after, k);
    UnchangedSuffixKept(cell.current, res, after, k);
  }

  lemma ClampedStepFrame(cell: Cell, ns: map<Id, Seaird>, res: Seaird, k: nat)
    requires SegmentDefined(cell, ns, res, k)
    ensures var next := SegmentStep(cell, ns, res, k);
      var after := next.(susceptible := next.susceptible[k := Clamp(1.0 - Occupied(next, k))]);
      SameShape(res, after) &&
      forall j :: 0 <= j < NumAgeSegments(res) && j != k ==> SegmentUnchanged(res, after, j)
  {
    var next := SegmentStep(cell, ns, res, k);
    var after := next.(susceptible := next.susceptible[k := Clamp(1.0 - Occupied(next, k))]);
    forall j | 0 <= j < NumAgeSegments(res) && j != k
      ensures SegmentUnchanged(res, after, j)
    {
      assert SegmentUnchanged(res, next, j);
    }
  }

  /** Segments before k stay advanced when a step leaves them as they were. */
  lemma AdvancedPrefixKept(cell: Cell, a: Seaird, b: Seaird, k: nat)
    requires Shaped(cell) && SameShape(cell.current, a) && SameShape(cell.current, b) && k <= NumAgeSegments(a)
    requires forall j :: 0 <= j < k ==> Advanced(cell, a, j)
    requires forall j :: 0 <= j < k ==> SegmentUnchanged(a, b, j)
    ensures forall j :: 0 <= j < k ==> Advanced(cell, b, j)
  {
    forall j | 0 <= j < k
      ensures Advanced(cell, b, j)
    {
      AdvancedKept(cell, a, b, j);
    }
  }

  /** Segments after k stay as in the current state when a step leaves them as they were. */
  lemma UnchangedSuffixKept(c: Seaird, a: Seaird, b: Seaird, k: nat)
    requires SameShape(c, a) && SameShape(c, b) && k < NumAgeSegments(a)
    requires forall j :: k <= j < NumAgeSegments(a) ==> SegmentUnchanged(c, a, j)
    requires forall j :: k < j < NumAgeSegments(a) ==> SegmentUnchanged(a, b, j)
    ensures forall j :: k + 1 <= j < NumAgeSegments(b) ==> SegmentUnchanged(c, b, j)
  {
    forall j | k + 1 <= j < NumAgeSegments(b)
      ensures SegmentUnchanged(c, b, j)
    {
      assert SegmentUnchanged(c, a, j) && SegmentUnchanged(a, b, j);
    }
  }

  /** local_computation: advances every age segment in turn on a working copy of the current
      state, whose trackers are threaded from one segment to the next. A residual within
      0.001 below zero is clamped to 0; a lower one fails the conservation assertion. */
  method LocalComputation(cell: Cell, ns: map<Id, Seaird>) returns (outcome: Outcome)
    requires Ready(cell, ns)
    ensures outcome == Run(cell, ns, cell.current, 0)
    ensures outcome.Next? ==> SameShape(cell.current, outcome.state)
    ensures outcome.Next? ==> outcome.state.hysteresisFactors.Keys == cell.current.hysteresisFactors.Keys
    ensures outcome.Next? ==>
      outcome.state.disobedient == cell.current.disobedient &&
      outcome.state.hospitalCapacity == cell.current.hospitalCapacity &&
      outcome.state.fatalityModifier == cell.current.fatalityModifier
    ensures outcome.Next? ==> forall k :: 0 <= k < NumAgeSegments(cell.current) ==> Advanced(cell, outcome.state, k)
    ensures outcome.ConservationViolation? ==>
      outcome.segment < NumAgeSegments(cell.current) && outcome.residual <= -0.001
  {
    var res := cell.current;
    var k := 0;
    while k < NumAgeSegments(cell.current)
      invariant Progress(cell, ns, res, k)
      invariant Run(cell, ns, res, k) == Run(cell, ns, cell.current, 0)
      decreases NumAgeSegments(cell.current) - k
    {
      ReadySegment(cell, ns, res, k);
      var next, residual := AdvanceSegment(cell, ns, res, k);
      var newS := residual;
      if newS > -0.001 && newS < 0.0 {
        newS := 0.0;
      }
      assert newS == Clamp(residual);
      LoopStep(cell, ns, res, k, next, residual);
      if newS < 0.0 {
        return ConservationViolation(k, residual);
      }
      res := next.(susceptible := next.susceptible[k := newS]);
      k := k + 1;
    }
    outcome := Next(res);
  }
}
