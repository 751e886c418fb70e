/** Exact real-number helpers shared by the cell model: the minimum, the sum of a phase
    vector, and rounding to the precision grid used by the cell (std::round(x * p) / p). */
module Numerics {

  /** std::min on two values: the smaller one. */
  function Min(a: real, b: real): (m: real)
    ensures m <= a && m <= b
    ensures m == a || m == b
  {
    if b < a then b else a
  }

  /** The sum of a phase vector (std::accumulate), in exact arithmetic. */
  function Sum(xs: seq<real>): real
    decreases |xs|
  {
    if xs == [] then 0.0 else xs[0] + Sum(xs[1..])
  }

  /** Splitting a sum at position i: the element there plus everything after it. */
  lemma SumFrom(xs: seq<real>, i: nat)
    requires i < |xs|
    ensures Sum(xs[i..]) == xs[i] + Sum(xs[i + 1..])
  {
    assert xs[i..][1..] == xs[i + 1..];
  }

  /** A sum with one more element at the end. */
  lemma {:induction false} SumSnoc(xs: seq<real>, x: real)
    ensures Sum(xs + [x]) == Sum(xs) + x
    decreases |xs|
  {
    if xs == [] {
      assert [x][1..] == [];
    } else {
      assert (xs + [x])[1..] == xs[1..] + [x];
      SumSnoc(xs[1..], x);
    }
  }

  /** Replacing one element changes the sum by the difference. */
  lemma {:induction false} SumUpdate(xs: seq<real>, i: nat, v: real)
    requires i < |xs|
    ensures Sum(xs[i := v]) == Sum(xs) - xs[i] + v
    decreases |xs|
  {
    if i > 0 {
      assert xs[i := v][1..] == xs[1..][i - 1 := v];
      SumUpdate(xs[1..], i - 1, v);
    } else {
      assert xs[i := v][1..] == xs[1..];
    }
  }

  /** A sum of non-negative values is non-negative. */
  lemma {:induction false} SumNonNegative(xs: seq<real>)
    requires forall i :: 0 <= i < |xs| ==> xs[i] >= 0.0
    ensures Sum(xs) >= 0.0
    decreases |xs|
  {
    if xs != [] {
      SumNonNegative(xs[1..]);
    }
  }

  /** std::round: the nearest integer, halfway cases rounded away from zero. */
  function RoundHalfAway(y: real): int
  {
    if y >= 0.0 then (y + 0.5).Floor else -((-y + 0.5).Floor)
  }

  /** std::round(x * p) / p: x rounded to the nearest multiple of 1/p. */
  function Round(x: real, p: int): real
    requires p > 0
  {
    (RoundHalfAway(x * (p as real)) as real) / (p as real)
  }

  /** std::round is symmetric about zero. */
  lemma RoundHalfAwayOdd(y: real)
    ensures RoundHalfAway(-y) == -RoundHalfAway(y)
  {
  }

  /** std::round(x * p) / p with a negative divider gives the same value as with |p|. */
  lemma NegativeDividerRoundsAlike(x: real, p: int)
    requires p > 0
    ensures (RoundHalfAway(x * ((-p) as real)) as real) / ((-p) as real) == Round(x, p)
  {
    var k := RoundHalfAway(x * (p as real));
    assert Round(x, p) == (k as real) / (p as real);
    var y := x * (p as real);
    assert x * ((-p) as real) == -y;
    RoundHalfAwayOdd(y);
    var m := RoundHalfAway(x * ((-p) as real));
    assert m == -k;
    assert (m as real) / ((-p) as real) == (k as real) / (p as real);
  }

  /** x is a whole multiple of 1/p. */
  predicate OnGrid(x: real, p: int)
    requires p > 0
  {
    (x * (p as real)).Floor as real == x * (p as real)
  }

  /** Rounding an integer leaves it alone. */
  lemma RoundHalfAwayInteger(n: int)
    ensures RoundHalfAway(n as real) == n
  {
    if n as real >= 0.0 {
      assert (n as real + 0.5).Floor == n;
    } else {
      assert (-(n as real) + 0.5).Floor == -n;
    }
  }

  /** A rounded value, scaled back up by p, is the integer std::round produced. */
  lemma RoundScaled(x: real, p: int)
    requires p > 0
    ensures Round(x, p) * (p as real) == RoundHalfAway(x * (p as real)) as real
  {
    var n := RoundHalfAway(x * (p as real));
    assert Round(x, p) == (n as real) / (p as real);
    assert ((n as real) / (p as real)) * (p as real) == n as real;
  }

  /** Every rounded value lies on the precision grid. */
  lemma RoundOnGrid(x: real, p: int)
    requires p > 0
    ensures OnGrid(Round(x, p), p)
  {
    var n := RoundHalfAway(x * (p as real));
    RoundScaled(x, p);
    assert (n as real).Floor == n;
  }

  /** A value already on the grid is left alone by rounding. */
  lemma RoundGridPoint(r: real, p: int, n: int)
    requires p > 0 && r * (p as real) == n as real
    ensures Round(r, p) == r
  {
    RoundHalfAwayInteger(n);
    assert RoundHalfAway(r * (p as real)) == n;
    assert r == (n as real) / (p as real);
  }

  /** Rounding twice is rounding once: the second std::round applied to new_infections and
      new_asymptomatic by local_computation changes nothing. */
  lemma RoundIdempotent(x: real, p: int)
    requires p > 0
    ensures Round(Round(x, p), p) == Round(x, p)
  {
    RoundScaled(x, p);
    RoundGridPoint(Round(x, p), p, RoundHalfAway(x * (p as real)));
  }

  /** The width of one step of the precision grid. */
  function Step(p: int): real
    requires p > 0
  {
    1.0 / (p as real)
  }

  /** Rounding moves a value by at most half a grid step. */
  lemma RoundClose(x: real, p: int)
    requires p > 0
    ensures -Step(p) / 2.0 <= Round(x, p) - x <= Step(p) / 2.0
  {
    var n := RoundHalfAway(x * (p as real)) as real;
    assert -0.5 <= n - x * (p as real) <= 0.5;
    RoundScaled(x, p);
    var d := Round(x, p) - x;
    assert d * (p as real) == n - x * (p as real);
    assert Step(p) / 2.0 == 0.5 / (p as real);
  }

  /** Rounding a non-negative value gives a non-negative value. */
  lemma RoundNonNegative(x: real, p: int)
    requires p > 0 && x >= 0.0
    ensures Round(x, p) >= 0.0
  {
    var P := p as real;
    assert x * P >= 0.0;
    assert RoundHalfAway(x * P) >= 0;
  }
}
