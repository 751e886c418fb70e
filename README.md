# Geographical SEAIRD cell — state-transition engine

This project models the state-transition engine of one geographical cell in a spatially
distributed SEAIRD epidemic simulation (`model/cells/geographical_cell.hpp`). The model is
written in Dafny.

A cell holds its population as shares, one set per age segment:
- susceptible (S);
- exposed (E) and infected (I), each in phases;
- asymptomatic infected (A) and recovered (R), each in phases;
- the cumulative dead (D).

Once per cycle `local_computation` advances every age segment by one step. The steps are:
1. New exposures are gathered from the neighbours (the cell itself among them).
   Mobility restrictions damp the symptomatic contacts. Each restriction is chosen by a
   sticky threshold policy (hysteresis), with one tracker per neighbour relation.
2. The exposed who become infectious are split into symptomatic and asymptomatic cases.
3. Deaths are computed before recoveries.
4. The exposed, infected, asymptomatic and recovered phases are shifted one step in place.
5. The susceptible share is derived as what is left of 1. A tiny negative residual is
   clamped to 0; a larger one fails the conservation assertion.

The modules follow the parts of the source:

| module | file | models |
|---|---|---|
| `Numerics` | numerics.dfy | `std::min`; `std::accumulate`; `std::round(x * p) / p` as `Round` (exact, halfway away from zero) |
| `Hysteresis` | hysteresis.dfy | `movement_correction_factor`, the `hysteresis_factor` tracker |
| `Records` | records.dfy | the `seaird`, `vicinity` and configuration records; the cell |
| `Phases` | phases.dfy | `new_fatalities`, `new_recoveries`, `new_infections`, `new_asymptomatic`, the phase-shift loops of `local_computation` |
| `Contact` | contact.dfy | `new_exposed` |
| `GeographicalCell` | cell.dfy | the constructor, `local_computation`, `output_delay` |

**How the imperative code is modelled.**
- Each loop of the source is a Dafny `method` with the same loop, in the same direction, with its invariants. Each such method is proved equal to a specification function.
- For `local_computation` that function is `Run`: it steps one segment with `SegmentStep`, clamps its residual, and either stops with a `ConservationViolation` or goes on with the next segment. `LocalComputation` returns exactly `Run` from segment 0 of the current state.
- The copied working state `res` of `local_computation` is a datatype value. Each step returns an updated copy of it. All modelled members of the C++ class are `const`, so only this working copy changes.
- The hysteresis trackers the C++ updates through a reference are threaded through the calls as a map, in call order:
  - the cell's own tracker is used first;
  - then every neighbour's tracker, in neighbour order (the cell's own tracker a second time when the loop reaches the cell);
  - all of this once per age segment.

**Behaviour of the code worth knowing** (the model follows the code as written):
- **Neighbour load per phase.** Every phase term of `new_exposed` is multiplied by the neighbour's *total* infections (symptomatic) or *total* asymptomatic share, whatever the phase (`geographical_cell.hpp:260-269`).
- **Last phase's deaths subtracted twice.** Those deaths are taken off that phase's recoveries a second time (:121), although `new_recoveries` already excluded them (:309-312). That share is then left in the susceptible residual (`LastPhaseDeathsSubtractedTwice`).
- **Hospital check reads the working copy.** "Hospitals overwhelmed" is judged on the total infections of the working copy `res`, where the earlier age segments have already been advanced (:109, :344).
- **Conservation after a clamp.** When a residual in (-0.001, 0) is clamped to 0 (:207), the segment's total exceeds 1 by less than 0.001 (`Conserved`).
- **Only the susceptible share is checked for sign.** The assertion at :208 covers the susceptible share alone. A carried-over infected share can be negative: 0.9 infected and 0.1 asymptomatic at fatality rate 0.5 and recovery rate 0.9 carry -0.05 into the next phase (`InfectedCarriedCanTurnNegative`).

## Model

| member | source | states |
|---|---|---|
| Hysteresis.MovementCorrectionFactor | model/cells/geographical_cell.hpp:355-401 | The returned factor and tracker are `Correction`. A tracker that holds the load is returned unchanged with its own factor. Otherwise the new tracker is in effect exactly when the table's first threshold is at most the load (for an ascending table: when some threshold is). |
| Hysteresis.StickyWhileCovered | model/cells/geographical_cell.hpp:361-369 | A tracker in effect with lower bound < load <= higher bound gives back its stored factor and stays as it was. |
| Hysteresis.AboveHigherBoundClears | model/cells/geographical_cell.hpp:361-363 | A load above the higher bound gives the same result as a tracker that is not in effect. |
| Hysteresis.RescanBelowAllThresholds | model/cells/geographical_cell.hpp:371-400 | If the tracker does not hold and no threshold is at most the load, the factor is 1.0. The tracker then ends out of effect, with its other fields untouched. |
| Hysteresis.RescanPicksGreatestThreshold | model/cells/geographical_cell.hpp:374-398 | The re-scan returns the factor of the greatest threshold at most the load. The tracker ends in effect with lower bound = threshold - width and higher bound = the next threshold (its own if last). It stores the returned factor. |
| Hysteresis.ScanEndIsGreatest | model/cells/geographical_cell.hpp:374-398 | With ascending thresholds, an entry is at most the load iff it lies before the position where the scan breaks. |
| Hysteresis.CorrectionIdempotent | model/cells/geographical_cell.hpp:229-246 | A second call with the same table and load returns the same factor and leaves the tracker as the first call left it. This covers the cell's own tracker being used twice per segment. |
| Hysteresis.CorrectionInUnitInterval | model/cells/geographical_cell.hpp:355-401 | With table and stored factors in [0, 1], the returned and stored factors stay in [0, 1]. |
| Hysteresis.NoOscillationExample | model/cells/geographical_cell.hpp:356-369 | Table {0.1: (0.5, 0.05)} with loads 0.05, 0.12, 0.09, 0.07, 0.02 gives factors 1, 0.5, 0.5, 0.5, 1, and the last tracker is out of effect. |
| Hysteresis.EmptyTableNeverRestricts | model/cells/geographical_cell.hpp:371-400 | With no table entries and no restriction in effect, the factor is 1 and the tracker is unchanged. |
| Contact.Blend | model/cells/geographical_cell.hpp:230-245 | The disobedient share d blended with a factor f in [0, 1] lies between max(d, f) and 1. |
| Contact.EffectiveFactor | model/cells/geographical_cell.hpp:249 | The factor applied to a neighbour is at most both the cell's and the neighbour's factor, and equals one of them. |
| Contact.Contribution | model/cells/geographical_cell.hpp:238-272 | One neighbour's pass (its correction call, effective factor and inflow) keeps the tracker map's keys. |
| Contact.Accumulate | model/cells/geographical_cell.hpp:236-272 | The neighbour loop keeps the tracker map's keys. |
| Contact.Exposed | model/cells/geographical_cell.hpp:221-277 | new_exposed never exceeds the segment's susceptible share and keeps the tracker map's keys. |
| Contact.AddPhaseInflows | model/cells/geographical_cell.hpp:251-273 | The inner loop over a neighbour's infectious phases adds `SymptomaticInflow` (scaled by the effective factor) and `AsymptomaticInflow` (unscaled) to the running totals. |
| Contact.AddNeighbour | model/cells/geographical_cell.hpp:237-274 | One pass of the neighbour loop computes `Contribution`: the correction call with the tracker update, the blended and effective factor, and both inflows. |
| Contact.NewExposed | model/cells/geographical_cell.hpp:221-277 | The nested loops compute `Exposed`: result at most the susceptible share, trackers threaded in call order, tracker keys kept. |
| Contact.AsymptomaticUnrestricted | model/cells/geographical_cell.hpp:260-269 | The asymptomatic inflow equals the symptomatic inflow at factor 1: no restriction applies to it. |
| Contact.AsymptomaticIgnoresRestriction | model/cells/geographical_cell.hpp:266-269 | What one neighbour's pass adds to the asymptomatic total is the same for any cell factor and any trackers in force. |
| Contact.SymptomaticInflowMonotone | model/cells/geographical_cell.hpp:251-264 | With non-negative rates, shares and load, a smaller factor never gives a larger symptomatic inflow. |
| Contact.ContributionWithinSelfRestriction | model/cells/geographical_cell.hpp:241-264 | The symptomatic inflow a neighbour adds is at most what the cell's own factor would let through. |
| Contact.InflowWithoutLoad | model/cells/geographical_cell.hpp:251-271 | A neighbour with zero load adds no symptomatic and no asymptomatic inflow, whatever the factor. |
| Contact.AccumulateWithoutLoad | model/cells/geographical_cell.hpp:236-272 | Neighbours with zero total infections and asymptomatics leave both running totals at 0. |
| Contact.NoInfectiousNeighboursNoExposure | model/cells/geographical_cell.hpp:221-277 | When no neighbour has infected or asymptomatic people, new_exposed is 0 (given a non-negative susceptible share). |
| Phases.PhaseFatalities | model/cells/geographical_cell.hpp:339-349 | One phase's deaths never exceed its infected plus asymptomatic share. |
| Phases.PhaseFatalitiesNonNegative | model/cells/geographical_cell.hpp:339-349 | With non-negative shares, rate and modifier, one phase's deaths are non-negative. |
| Phases.OverwhelmedNeverFewerDeaths | model/cells/geographical_cell.hpp:344-349 | With a modifier of at least 1, overwhelmed hospitals never give fewer deaths. When not overwhelmed, the modifier is ignored. |
| Phases.FatalityAt | model/cells/geographical_cell.hpp:337-350 | The deaths of phase i are capped by that phase's infected plus asymptomatic share. |
| Phases.Fatalities | model/cells/geographical_cell.hpp:332-353 | One entry per infected phase, entry i being `FatalityAt` i. |
| Phases.NewFatalities | model/cells/geographical_cell.hpp:332-353 | The loop fills the vector with `Fatalities`, and every entry respects the phase cap. |
| Phases.RecoveryAt | model/cells/geographical_cell.hpp:309-326 | Recoveries plus deaths of phase i never exceed the phase population. In the last phase they equal it. |
| Phases.Recoveries | model/cells/geographical_cell.hpp:305-330 | One entry per infected phase, entry i being `RecoveryAt` i. |
| Phases.RecoveriesNonNegative | model/cells/geographical_cell.hpp:314-326 | With non-negative shares and rates and capped deaths, every recovery entry is non-negative. |
| Phases.NewRecoveries | model/cells/geographical_cell.hpp:305-330 | The last entry first, then the loop, give `Recoveries`. Every entry respects the cap recovered + deaths <= population. |
| Phases.DotBounded | model/cells/geographical_cell.hpp:284-286 | With non-negative shares and incubation rates in [0, 1], the incubation-weighted sum lies between 0 and the plain sum. |
| Phases.ProgressingBounded | model/cells/geographical_cell.hpp:279-287 | The exposed share that becomes infectious lies between 0 and the sum of the exposed phases. |
| Phases.ProgressingExposed | model/cells/geographical_cell.hpp:281-286 | The loop computes the last exposed phase plus the incubation share of every other phase (`Progressing`). |
| Phases.SplitPartOnGrid | model/cells/geographical_cell.hpp:288-301 | Each rounded part of the progressing exposed lies on the precision grid. |
| Phases.SplitPartRoundedAgain | model/cells/geographical_cell.hpp:100-106 | The second rounding applied by local_computation leaves new_infections and new_asymptomatic unchanged. |
| Phases.NewInfections | model/cells/geographical_cell.hpp:279-290 | new_infections is the rounded (1 - asymptomatic rate) part of `Progressing`, on the grid. |
| Phases.NewAsymptomatic | model/cells/geographical_cell.hpp:292-303 | new_asymptomatic is the rounded asymptomatic-rate part of `Progressing`, on the grid. |
| Phases.SplitWithinOneStep | model/cells/geographical_cell.hpp:279-303 | The two rounded parts together differ from the progressing exposed by at most one grid step. |
| Phases.ShiftExposed | model/cells/geographical_cell.hpp:124-136 | After the descending loop, phase i >= 1 holds the pre-cycle phase i-1 reduced by its incubation share (rounded), and phase 0 holds new_e (the vector is `ExposedAfter`). The residual drops by the sum of all written values. |
| Phases.ShiftInfected | model/cells/geographical_cell.hpp:140-173 | Infected phase i >= 1 holds the pre-cycle phase i-1 minus its symptomatic recoveries and its deaths; asymptomatic phase i >= 1 holds its phase i-1 minus its asymptomatic recoveries (all rounded). Phase 0 holds new_i and new_a (the vectors are `InfectedAfter` and `AsymptomaticAfter`). The residual drops by both sums. |
| Phases.ShiftRecovered | model/cells/geographical_cell.hpp:175-205 | Recovered phase i >= 1 holds the pre-cycle phase i-1. Without waning immunity the last phase is a reservoir that adds the second-last phase. Phase 0 holds the entering recoveries (the vector is `RecoveredAfter`), and the residual drops by the sum. |
| Phases.InfectedCarriedCanTurnNegative | model/cells/geographical_cell.hpp:140-173 | With 0.9 infected and 0.1 asymptomatic, fatality rate 0.5 and recovery rate 0.9, the model's deaths (0.45) and capped recoveries (0.55) make the carried-over infected share -0.05. |
| Phases.RecoveredTail | model/cells/geographical_cell.hpp:177-198 | With permanent immunity the last recovered phase never decreases. With waning immunity it becomes the old second-last phase, and the old last share leaves the recovered phases. |
| Numerics.RoundIdempotent | model/cells/geographical_cell.hpp:100-106 | Rounding to the precision grid twice is rounding once. |
| Numerics.NegativeDividerRoundsAlike | model/cells/geographical_cell.hpp:99-103 | `std::round(x * p) / p` with a negative divider -p gives the same value as with p, because `std::round` is symmetric about zero. |
| Numerics.RoundClose | model/cells/geographical_cell.hpp:127-128 | Rounding to the precision grid moves a value by at most half a grid step. |
| GeographicalCell.InsertDefaultTrackers | model/cells/geographical_cell.hpp:58-60 | Every neighbourhood key gains a tracker. Existing trackers are kept (map insert never overwrites), and new ones are the value-initialised tracker. |
| GeographicalCell.NewCell | model/cells/geographical_cell.hpp:54-75 | Construction succeeds iff virulence, recovery, mobility and incubation tables have equal segment counts. The built cell carries the initial state with trackers inserted and the configuration unchanged. |
| GeographicalCell.OutputDelay | model/cells/geographical_cell.hpp:217-219 | The output delay is one time unit for every state. |
| GeographicalCell.Shifted | model/cells/geographical_cell.hpp:114-205 | The state after the shifts of segment seg keeps the shape, the susceptible and disobedient shares, the capacity and the modifier, and leaves every other segment as it was. It holds the rewritten trackers. Its vectors are `ExposedAfter`, `InfectedAfter`, `AsymptomaticAfter` and `RecoveredAfter`, where the recoveries have the last phase's deaths taken off a second time. Its fatalities are raised by the segment's deaths. |
| GeographicalCell.ShiftSegment | model/cells/geographical_cell.hpp:114-205 | The shifting part of the segment body builds exactly `Shifted`. The residual it threads through the three shift loops, plus everything outside the susceptible pool, equals 1. |
| GeographicalCell.SegmentStep | model/cells/geographical_cell.hpp:100-205 | One segment stepped on the working state keeps its shape, susceptible and disobedient shares, capacity, modifier and tracker keys, and leaves every other segment as it was. |
| GeographicalCell.SegmentStepMovesPhases | model/cells/geographical_cell.hpp:100-205 | A step writes the rounded `Exposed` into exposed phase 0 and the exposed that stay into phases >= 1; the `Progressing` split into infected and asymptomatic phase 0; the carry-over after `Fatalities` and `Recoveries` into infected and asymptomatic phases >= 1; the recoveries less the last phase's deaths into recovered phase 0 and the shifted recovered phases after it; the deaths into the cumulative fatalities. |
| GeographicalCell.AdvanceSegment | model/cells/geographical_cell.hpp:100-205 | The segment body of the loop computes `SegmentStep` (new_exposed, new_infections, new_asymptomatic, new_fatalities and new_recoveries followed by the shifts), and its residual plus the occupied shares equals 1. |
| GeographicalCell.LastPhaseDeathsSubtractedTwice | model/cells/geographical_cell.hpp:121 | The last phase passes on to recovered and dead its population minus its deaths: its deaths are missing from the compartments. |
| GeographicalCell.Clamp | model/cells/geographical_cell.hpp:207-208 | The clamped residual is negative exactly when the residual is at or below -0.001; otherwise it is the residual, or 0 for a residual in (-0.001, 0). |
| GeographicalCell.Run | model/cells/geographical_cell.hpp:84-213 | The segment loop from segment k: a violation names a segment at or after k with residual at or below -0.001; a finished run keeps the shape, tracker keys, disobedient shares, capacity and modifier. |
| GeographicalCell.LocalComputation | model/cells/geographical_cell.hpp:79-214 | The result is exactly `Run` from segment 0 of the current state: the first segment whose clamped residual is negative is reported with its own residual (at or below -0.001). Otherwise every segment is conserved (non-negative S; total 1, or just above 1 after a clamp), its exposed phases >= 1, first infectious phases and recovered phases >= 1 hold their shifted values from the current state, and shape, tracker keys, disobedient shares, capacity and modifier are kept. |

## Left out

- **Cadmium engine plumbing** (`cell<...>`: clock, scheduling, delivery of neighbour states, the `neighbors` vector). The neighbour states, the vicinities and the neighbour order of one cycle are inputs.
- **IEEE `float`/`double` behaviour.** The model uses exact reals. This leaves out:
  - `float` truncation of recoveries (:316, :321) and of `movement_correction_factor`'s load and result;
  - `std::accumulate` summing in `float` (:114, :202, :205);
  - the exact rounding of `std::round` on doubles.
  
  `Round` is exact rounding to the nearest multiple of 1/p, with halves rounded away from zero.
- **`seaird.hpp`, `vicinity.hpp` and `simulation_config.hpp`** are not part of this model:
  - only the fields the cell reads are declared;
  - `get_total_infections` / `get_total_asymptomatic` are plain sums over all segments and phases;
  - the value-initialised `hysteresis_factor{}` is taken to be (false, 0, 0, 0).
- GeographicalCell.Run: the contract does not state that a run from segment k leaves the segments before k unchanged. `LocalComputation` starts at segment 0, where that frame is empty, and every later segment's content is fixed by `Run` itself through `SegmentStep`.
- **GeographicalCell.Shaped, GeographicalCell.ShiftDefined, Phases.FatalitiesDefined and Phases.RecoveriesDefined** assume a positive precision divider, and every `Round` takes p > 0. In the code:
  - a negative `prec_divider` rounds exactly like its absolute value (`NegativeDividerRoundsAlike`), so such configurations behave like the modelled ones;
  - a zero `prec_divider` makes every rounded share 0/0 = NaN, and the assertion at geographical_cell.hpp:208 then fails.
- **Records.WellShaped** assumes every age segment has the same number of exposed, infected (= asymptomatic) and recovered phases. `seaird.hpp` is not part of this model, so that layout is an assumption, not a fact read from it.
- **Out-of-range `.at()` lookups** (missing neighbour, tracker, segment or phase) throw in C++. The model makes them preconditions (`ExposureDefined`, `SegmentDefined`, `Ready`, `FatalitiesDefined`, `RecoveriesDefined`).
- **Failing C++ `assert`s** abort the program. The model returns them as results: `SegmentCountMismatch` for the constructor (:72-74) and `ConservationViolation` for the residual (:208). Builds without assertions, where they are skipped, are not modelled.
