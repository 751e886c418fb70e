/** The sticky mobility-restriction policy of geographical_cell::movement_correction_factor.
    A vicinity's correction table maps infection thresholds (ascending, as the keys of a
    std::map) to a mobility factor and a hysteresis width; one tracker per neighbour relation
    remembers which restriction is in force and the infection range it covers. */
module Hysteresis {

  /** One table entry: from `threshold` infections upward mobility is scaled by `factor`; once
      applied, the restriction holds until infections drop to `threshold - width` or below. */
  datatype Threshold = Threshold(threshold: real, factor: real, width: real)

  /** Strictly increasing thresholds: the iteration order of a std::map keyed by threshold. */
  predicate Ascending(table: seq<Threshold>)
  {
    forall i, j :: 0 <= i < j < |table| ==> table[i].threshold < table[j].threshold
  }

  /** The hysteresis_factor record kept per neighbour: whether a restriction is in effect,
      the infection range (lowerBound, higherBound] it covers, and its factor. */
  datatype Tracker = Tracker(inEffect: bool, lowerBound: real, higherBound: real, factor: real)

  /** A value-initialised hysteresis_factor{}: nothing in effect. */
  const DefaultTracker := Tracker(false, 0.0, 0.0, 0.0)

  /** The stored restriction still applies: it is in effect, the load has not grown past its
      higher bound, and it is strictly above its lower bound. */
  predicate Holds(t: Tracker, load: real)
  {
    t.inEffect && t.lowerBound < load <= t.higherBound
  }

  /** The position where the ascending scan stops: the number of leading entries whose
      threshold is at most `load`. */
  function ScanEnd(table: seq<Threshold>, load: real): (c: nat)
    ensures c <= |table|
    decreases |table|
  {
    if |table| == 0 || table[0].threshold > load then 0 else 1 + ScanEnd(table[1..], load)
  }

  /** ScanEnd is the first entry above `load`: everything before it is at most `load`. */
  lemma {:induction false} ScanEndSplits(table: seq<Threshold>, load: real)
    ensures forall j :: 0 <= j < ScanEnd(table, load) ==> table[j].threshold <= load
    ensures ScanEnd(table, load) < |table| ==> table[ScanEnd(table, load)].threshold > load
    decreases |table|
  {
    if |table| > 0 && table[0].threshold <= load {
      ScanEndSplits(table[1..], load);
    }
  }

  /** Any position with only entries at most `load` before it and an entry above `load` (or
      the end) at it is where the scan stops. */
  lemma {:induction false} ScanEndUnique(table: seq<Threshold>, load: real, i: nat)
    requires i <= |table|
    requires forall j :: 0 <= j < i ==> table[j].threshold <= load
    requires i < |table| ==> table[i].threshold > load
    ensures ScanEnd(table, load) == i
    decreases i
  {
    if i > 0 {
      ScanEndUnique(table[1..], load, i - 1);
    }
  }

  /** The outcome of a scan that applied the first `c` entries: no restriction when c is 0,
      otherwise the restriction of entry c - 1, covering up to the next threshold (or its own
      threshold when it is the last entry). `cleared` is the tracker the scan started from. */
  function Applied(table: seq<Threshold>, c: nat, cleared: Tracker): (real, Tracker)
    requires c <= |table|
  {
    if c == 0 then (1.0, cleared)
    else
      var k := c - 1;
      var next := if k == |table| - 1 then k else k + 1;
      (table[k].factor,
       Tracker(true, table[k].threshold - table[k].width, table[next].threshold, table[k].factor))
  }

  /** The correction factor and the updated tracker for one call of movement_correction_factor. */
  function Correction(table: seq<Threshold>, load: real, t: Tracker): (real, Tracker)
  {
    if Holds(t, load) then (t.factor, t)
    else Applied(table, ScanEnd(table, load), t.(inEffect := false))
  }

  /** movement_correction_factor: returns the mobility correction factor for `load` and the
      tracker as the call leaves it (the C++ updates it through a reference). */
  method MovementCorrectionFactor(table: seq<Threshold>, load: real, tracker: Tracker)
    returns (correction: real, updated: Tracker)
    ensures (correction, updated) == Correction(table, load, tracker)
    ensures Holds(tracker, load) ==> correction == tracker.factor && updated == tracker
    ensures !Holds(tracker, load) ==> (updated.inEffect <==> ScanEnd(table, load) > 0)
  {
    updated := tracker;
    if load > updated.higherBound {
      updated := updated.(inEffect := false);
    }
    if updated.inEffect && load > updated.lowerBound {
      return updated.factor, updated;
    }
    updated := updated.(inEffect := false);
    ghost var cleared := updated;
    correction := 1.0;
    var i := 0;
    while i < |table|
      invariant 0 <= i <= |table|
      invariant forall j :: 0 <= j < i ==> table[j].threshold <= load
      invariant (correction, updated) == Applied(table, i, cleared)
    {
      if load >= table[i].threshold {
        correction := table[i].factor;
        var next := if i != |table| - 1 then i + 1 else i;
        updated := Tracker(true, table[i].threshold - table[i].width, table[next].threshold, table[i].factor);
        i := i + 1;
      } else {
        break;
      }
    }
    ScanEndUnique(table, load, i);
  }

  /** Sticky hysteresis: while the stored restriction covers the load, the call returns the
      stored factor and leaves the tracker as it was. */
  lemma StickyWhileCovered(table: seq<Threshold>, load: real, t: Tracker)
    requires t.inEffect && t.lowerBound < load <= t.higherBound
    ensures Correction(table, load, t) == (t.factor, t)
  {
  }

  /** A load above the higher bound always drops the stored restriction first: the result is
      the same as for a tracker that was never in effect. */
  lemma AboveHigherBoundClears(table: seq<Threshold>, load: real, t: Tracker)
    requires load > t.higherBound
    ensures Correction(table, load, t) == Correction(table, load, t.(inEffect := false))
  {
  }

  /** Re-scan with no threshold at most the load: no restriction (factor 1) and the tracker
      is left out of effect, its other fields untouched. */
  lemma RescanBelowAllThresholds(table: seq<Threshold>, load: real, t: Tracker)
    requires Ascending(table)
    requires !Holds(t, load)
    requires |table| == 0 || load < table[0].threshold
    ensures Correction(table, load, t) == (1.0, t.(inEffect := false))
  {
    ScanEndUnique(table, load, 0);
  }

  /** Re-scan that reaches entry k, the greatest threshold at most the load: its factor is
      returned and stored, the lower bound is its threshold minus its width, and the higher
      bound is the next threshold, or its own when it is the last entry. */
  lemma RescanPicksGreatestThreshold(table: seq<Threshold>, load: real, t: Tracker, k: nat)
    requires Ascending(table)
    requires !Holds(t, load)
    requires k < |table| && table[k].threshold <= load
    requires k + 1 < |table| ==> load < table[k + 1].threshold
    ensures Correction(table, load, t).0 == table[k].factor
    ensures Correction(table, load, t).1 ==
      Tracker(true, table[k].threshold - table[k].width,
              if k + 1 == |table| then table[k].threshold else table[k + 1].threshold,
              table[k].factor)
  {
    ScanEndUnique(table, load, k + 1);
  }

  /** With an ascending table, the entry the re-scan applies is the greatest threshold that is
      at most the load, and every later threshold is above the load. */
  lemma {:induction false} ScanEndIsGreatest(table: seq<Threshold>, load: real)
    requires Ascending(table)
    ensures forall j :: 0 <= j < |table| ==> (table[j].threshold <= load <==> j < ScanEnd(table, load))
  {
    ScanEndSplits(table, load);
    var c := ScanEnd(table, load);
    forall j | 0 <= j < |table|
      ensures table[j].threshold <= load <==> j < c
    {
      if c <= j {
        assert table[c].threshold > load;
        assert c == j || table[c].threshold < table[j].threshold;
      }
    }
  }

  /** Calling twice with the same table and load is calling once: new_exposed touches the
      cell's own tracker twice per age segment (once for the cell, once when the neighbour
      loop reaches the cell itself), and the second touch changes nothing. */
  lemma CorrectionIdempotent(table: seq<Threshold>, load: real, t: Tracker)
    ensures var (f, t1) := Correction(table, load, t); Correction(table, load, t1) == (f, t1)
  {
    var (f, t1) := Correction(table, load, t);
    if !Holds(t, load) && !Holds(t1, load) {
      var c := ScanEnd(table, load);
      if c == 0 {
        assert t1 == t.(inEffect := false);
      }
    }
  }

  /** Factors taken from the table or the tracker stay in [0, 1] when those do. */
  lemma CorrectionInUnitInterval(table: seq<Threshold>, load: real, t: Tracker)
    requires forall i :: 0 <= i < |table| ==> 0.0 <= table[i].factor <= 1.0
    requires 0.0 <= t.factor <= 1.0
    ensures 0.0 <= Correction(table, load, t).0 <= 1.0
    ensures 0.0 <= Correction(table, load, t).1.factor <= 1.0
  {
  }

  /** The cell-wide no-oscillation example: with the single entry 0.1 -> (0.5, 0.05) and the
      loads 0.05, 0.12, 0.09, 0.07, 0.02 the factors are 1, 0.5, 0.5, 0.5, 1; the dips to 0.09
      and 0.07 stay above the lower bound 0.05 and keep the restriction. */
  lemma NoOscillationExample()
    ensures var table := [Threshold(0.1, 0.5, 0.05)];
            var (f1, t1) := Correction(table, 0.05, DefaultTracker);
            var (f2, t2) := Correction(table, 0.12, t1);
            var (f3, t3) := Correction(table, 0.09, t2);
            var (f4, t4) := Correction(table, 0.07, t3);
            var (f5, t5) := Correction(table, 0.02, t4);
            f1 == 1.0 && f2 == 0.5 && f3 == 0.5 && f4 == 0.5 && f5 == 1.0 && !t5.inEffect
  {
    var table := [Threshold(0.1, 0.5, 0.05)];
    ScanEndUnique(table, 0.05, 0);
    ScanEndUnique(table, 0.12, 1);
    ScanEndUnique(table, 0.02, 0);
  }

  /** An empty table never restricts: an isolated cell without correction entries always
      gets factor 1 unless a restriction was already stored. */
  lemma EmptyTableNeverRestricts(load: real, t: Tracker)
    requires !t.inEffect
    ensures Correction([], load, t) == (1.0, t)
  {
  }
}
