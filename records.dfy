/** The records the cell works on: the age-segmented SEAIRD state (`seaird`), the connection
    to one neighbour (`vicinity`), the rate tables of the configuration and the cell itself.
    Only the fields geographical_cell reads or writes are declared. */
module Records {
  import opened Numerics
  import opened Hysteresis

  /** Cell identifiers are strings. */
  type Id = string

  /** The epidemic state of one cell: per age segment the susceptible share, the exposed,
      infected, asymptomatic and recovered shares per phase (phase 0 = most recent), the
      cumulative fatalities and the disobedient share; cell-wide the hospital capacity, the
      fatality modifier and one hysteresis tracker per neighbour. */
  datatype Seaird = Seaird(
    susceptible: seq<real>,
    exposed: seq<seq<real>>,
    infected: seq<seq<real>>,
    asymptomatic: seq<seq<real>>,
    recovered: seq<seq<real>>,
    fatalities: seq<real>,
    disobedient: seq<real>,
    hospitalCapacity: real,
    fatalityModifier: real,
    hysteresisFactors: map<Id, Tracker>)

  /** The contact weight to one neighbour and its mobility correction table. */
  datatype Vicinity = Vicinity(correlation: real, correctionFactors: seq<Threshold>)

  /** The configuration the cell keeps: per age segment and phase the virulence, incubation,
      recovery, mobility and fatality rates; the asymptomatic share; the precision divider of
      the rounding; and the model variant (true: immunity wanes, SIIRS). */
  datatype Rates = Rates(
    virulence: seq<seq<real>>,
    incubation: seq<seq<real>>,
    recovery: seq<seq<real>>,
    mobility: seq<seq<real>>,
    fatality: seq<seq<real>>,
    asymptomatic: real,
    precDivider: int,
    siirs: bool)

  function NumAgeSegments(s: Seaird): nat { |s.susceptible| }

  function NumExposedPhases(s: Seaird): nat { if |s.exposed| == 0 then 0 else |s.exposed[0]| }

  function NumInfectedPhases(s: Seaird): nat { if |s.infected| == 0 then 0 else |s.infected[0]| }

  function NumRecoveredPhases(s: Seaird): nat { if |s.recovered| == 0 then 0 else |s.recovered[0]| }

  /** Every per-segment vector has one entry per age segment, and every segment has the same
      number of exposed, infected (= asymptomatic) and recovered phases. */
  predicate WellShaped(s: Seaird)
  {
    var n := NumAgeSegments(s);
    |s.exposed| == n && |s.infected| == n && |s.asymptomatic| == n && |s.recovered| == n &&
    |s.fatalities| == n && |s.disobedient| == n &&
    (forall k :: 0 <= k < n ==> |s.exposed[k]| == NumExposedPhases(s)) &&
    (forall k :: 0 <= k < n ==> |s.infected[k]| == NumInfectedPhases(s)) &&
    (forall k :: 0 <= k < n ==> |s.asymptomatic[k]| == NumInfectedPhases(s)) &&
    (forall k :: 0 <= k < n ==> |s.recovered[k]| == NumRecoveredPhases(s))
  }

  /** Two states with the same segment and phase counts. */
  predicate SameShape(a: Seaird, b: Seaird)
  {
    WellShaped(a) && WellShaped(b) &&
    NumAgeSegments(a) == NumAgeSegments(b) &&
    NumExposedPhases(a) == NumExposedPhases(b) &&
    NumInfectedPhases(a) == NumInfectedPhases(b) &&
    NumRecoveredPhases(a) == NumRecoveredPhases(b)
  }

  /** The sum of every segment's phase vector. */
  function SumAll(xss: seq<seq<real>>): real
    decreases |xss|
  {
    if xss == [] then 0.0 else Sum(xss[0]) + SumAll(xss[1..])
  }

  /** get_total_infections: all symptomatic infected shares of the cell. */
  function TotalInfections(s: Seaird): real { SumAll(s.infected) }

  /** get_total_asymptomatic: all asymptomatic shares of the cell. */
  function TotalAsymptomatic(s: Seaird): real { SumAll(s.asymptomatic) }

  /** Everything of segment k outside the susceptible pool. */
  function Occupied(s: Seaird, k: nat): real
    requires WellShaped(s) && k < NumAgeSegments(s)
  {
    Sum(s.exposed[k]) + Sum(s.infected[k]) + Sum(s.asymptomatic[k]) + Sum(s.recovered[k]) + s.fatalities[k]
  }

  /** The whole population share of segment k: 1 when the state is conserved. */
  function Mass(s: Seaird, k: nat): real
    requires WellShaped(s) && k < NumAgeSegments(s)
  {
    s.susceptible[k] + Occupied(s, k)
  }

  /** A geographical cell as local_computation sees it: its identifier, its neighbours in the
      order the cell engine lists them (the cell itself among them), the vicinity of every
      neighbour, its current state and its configuration. */
  datatype Cell = Cell(id: Id, neighbors: seq<Id>, vicinity: map<Id, Vicinity>, current: Seaird, rates: Rates)
}
