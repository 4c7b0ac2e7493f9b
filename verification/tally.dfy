/**
  Running (sum, count) tallies of hop distances and their mean. The source
  accumulates these in integers or floats and divides at the end; here the
  division is exact.
 */
module Tallies {

  /** A sum of distances and the number of distances summed. */
  datatype Tally = Tally(total: nat, count: nat)

  /** The tally with one more distance `d` counted. */
  function Add(t: Tally, d: nat): Tally {
    Tally(t.total + d, t.count + 1)
  }

  /** Two tallies taken together. */
  function Merge(a: Tally, b: Tally): Tally {
    Tally(a.total + b.total, a.count + b.count)
  }

  /**
    The mean of a tally, with 0 when nothing was counted: a non-negative value
    that is 0 exactly when the counted distances add up to 0.
   */
  function Mean(t: Tally): (r: real)
    ensures r >= 0.0
    ensures r == 0.0 <==> t.total == 0 || t.count == 0
  {
    if t.count == 0 then 0.0 else t.total as real / t.count as real
  }

  /** The mean of a non-empty tally, multiplied by the count, gives back the total. */
  lemma MeanTimesCount(t: Tally)
    requires t.count > 0
    ensures Mean(t) * t.count as real == t.total as real
  {
  }

  /** When every counted distance is at least 1, a non-empty tally has mean at least 1. */
  lemma MeanAtLeastOne(t: Tally)
    requires t.count > 0 && t.count <= t.total
    ensures Mean(t) >= 1.0
  {
    MeanTimesCount(t);
    var a, b := Mean(t), t.count as real;
    assert a * b == t.total as real >= b;
    AtLeastOneFactor(a, b);
  }

  /** A factor whose product with a positive `b` is at least `b` is at least 1. */
  lemma AtLeastOneFactor(a: real, b: real)
    requires b > 0.0 && a * b >= b
    ensures a >= 1.0
  {
  }
}
