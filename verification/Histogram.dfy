/** The latency histogram of include/observability/Metrics.hpp. */
module Histogram {

  const OVERFLOW: nat := 0xFFFF_FFFF_FFFF_FFFF

  const BOUNDS: seq<nat> :=
    [100, 250, 500, 1000, 2500, 5000, 10000, 25000, 50000, 100000, 250000, 500000, 1000000, OVERFLOW]

  const BUCKETS: nat := 14

  /** How many samples are at or below a bound. */
  function AtMost(samples: seq<nat>, bound: nat): (n: nat)
    ensures n <= |samples|
  {
    if samples == [] then 0
    else AtMost(samples[..|samples| - 1], bound) + if samples[|samples| - 1] <= bound then 1 else 0
  }

  lemma {:induction false} AtMostGrows(samples: seq<nat>, a: nat, b: nat)
    requires a <= b
    ensures AtMost(samples, a) <= AtMost(samples, b)
  {
    if samples == [] {
    } else {
      AtMostGrows(samples[..|samples| - 1], a, b);
    }
  }

  lemma {:induction false} AtMostAll(samples: seq<nat>)
    requires forall i :: 0 <= i < |samples| ==> samples[i] <= OVERFLOW
    ensures AtMost(samples, OVERFLOW) == |samples|
  {
    if samples == [] {
    } else {
      AtMostAll(samples[..|samples| - 1]);
    }
  }

  /** How many samples fall into the first `i` buckets, and into bucket `i`. */
  function Below(samples: seq<nat>, i: nat): nat
    requires i <= BUCKETS
  {
    if i == 0 then 0 else AtMost(samples, BOUNDS[i - 1])
  }

  function InBucket(samples: seq<nat>, i: nat): int
    requires i < BUCKETS
  {
    Below(samples, i + 1) - Below(samples, i)
  }

  function Target(p: real, total: nat): (t: nat)
    requires p >= 0.0
    ensures t as real <= p * total as real < (t + 1) as real
  {
    assert p * total as real >= 0.0;
    (p * total as real).Floor
  }

  /** The bound reported for a bucket; the open-ended one reports the last finite bound. */
  function Shown(i: nat): nat
    requires i < BUCKETS
  {
    if i == BUCKETS - 1 then BOUNDS[i - 1] else BOUNDS[i]
  }

  /** The least bucket with at least `target` samples at or below its bound. */
  ghost predicate LeastBucket(samples: seq<nat>, target: nat, i: nat) {
    && i < BUCKETS && AtMost(samples, BOUNDS[i]) >= target
    && forall j :: 0 <= j < i ==> AtMost(samples, BOUNDS[j]) < target
  }

  /** The first bucket from `from` on with at least `target` samples at or below its bound, or BUCKETS. */
  function FirstReaching(samples: seq<nat>, target: nat, from: nat): (i: nat)
    requires from <= BUCKETS
    ensures from <= i <= BUCKETS && forall j :: from <= j < i ==> AtMost(samples, BOUNDS[j]) < target
    ensures i < BUCKETS ==> AtMost(samples, BOUNDS[i]) >= target
    decreases BUCKETS - from
  {
    if from == BUCKETS || AtMost(samples, BOUNDS[from]) >= target then from
    else FirstReaching(samples, target, from + 1)
  }

  /** What a percentile of these samples reads as. */
  function Reported(samples: seq<nat>, p: real): nat
    requires p >= 0.0
  {
    if samples == [] then 0
    else
      var i := FirstReaching(samples, Target(p, |samples|), 0);
      if i == BUCKETS then OVERFLOW else Shown(i)
  }

  class LatencyHistogram {
    var counts: array<nat>
    var total: nat
    ghost var samples: seq<nat>

    ghost predicate Valid()
      reads this, counts
    {
      && counts.Length == BUCKETS && total == |samples|
      && (forall i :: 0 <= i < |samples| ==> samples[i] <= OVERFLOW)
      && forall i :: 0 <= i < BUCKETS ==> counts[i] == InBucket(samples, i)
    }

    constructor ()
      ensures Valid() && samples == [] && fresh(counts)
    {
      counts := new nat[BUCKETS](_ => 0);
      total, samples := 0, [];
    }

    /** One more sample, in the first bucket whose bound is not below it. */
    method Record(micros: nat)
      requires Valid() && micros <= OVERFLOW
      modifies this, counts
      ensures Valid() && samples == old(samples) + [micros] && counts == old(counts)
    {
      var idx := 0;
      while BOUNDS[idx] < micros
        invariant 0 <= idx < BUCKETS
        invariant forall j :: 0 <= j < idx ==> BOUNDS[j] < micros
        decreases BUCKETS - idx
      {
        idx := idx + 1;
      }
      ghost var before := samples;
      counts[idx] := counts[idx] + 1;
      total := total + 1;
      samples := samples + [micros];
      forall i | 0 <= i < BUCKETS
        ensures InBucket(samples, i) == InBucket(before, i) + if i == idx then 1 else 0
      {
        OneMore(before, micros, i, idx);
        OneMore(before, micros, i + 1, idx);
      }
    }

    /**
      With samples, the bound of the least bucket that reaches the target rank; past the
      number of samples no bucket does, and the largest value of all comes back.
     */
    method Percentile(p: real) returns (micros: nat)
      requires Valid() && p >= 0.0
      ensures micros == Reported(samples, p)
      ensures total == 0 ==> micros == 0
      ensures total > 0 && Target(p, total) <= total ==>
                exists i: nat :: LeastBucket(samples, Target(p, total), i) && micros == Shown(i)
      ensures total > 0 && Target(p, total) > total ==> micros == OVERFLOW
    {
      hide AtMost, Target, FirstReaching;
      if total == 0 { return 0; }
      var target := Target(p, total);
      var cumulative := 0;
      for i := 0 to BUCKETS
        invariant cumulative == Below(samples, i)
        invariant forall j :: 0 <= j < i ==> AtMost(samples, BOUNDS[j]) < target
      {
        cumulative := cumulative + counts[i];
        if cumulative >= target {
          assert LeastBucket(samples, target, i);
          LeastIsFirst(samples, target, i);
          assert BOUNDS[i] == OVERFLOW <==> i == BUCKETS - 1;
          return if BOUNDS[i] == OVERFLOW then BOUNDS[i - 1] else BOUNDS[i];
        }
      }
      AtMostAll(samples);
      return BOUNDS[BUCKETS - 1];
    }
  }

  lemma LeastIsFirst(samples: seq<nat>, target: nat, i: nat)
    requires LeastBucket(samples, target, i)
    ensures FirstReaching(samples, target, 0) == i
  {
    hide AtMost, FirstReaching;
  }

  lemma OneMore(before: seq<nat>, micros: nat, i: nat, idx: nat)
    requires i <= BUCKETS && idx < BUCKETS && micros <= BOUNDS[idx]
    requires forall j :: 0 <= j < idx ==> BOUNDS[j] < micros
    ensures Below(before + [micros], i) == Below(before, i) + if i > idx then 1 else 0
  {
  }

  lemma TargetGrows(p: real, q: real, total: nat)
    requires 0.0 <= p <= q
    ensures Target(p, total) <= Target(q, total)
  {
    var n := total as real;
    assert p * n <= q * n by { assert (q - p) * n >= 0.0; }
  }

  /** A larger rank never reports a smaller latency, with or without samples and past their number. */
  lemma PercentileIsMonotone(samples: seq<nat>, p: real, q: real)
    requires 0.0 <= p <= q
    ensures Reported(samples, p) <= Reported(samples, q)
    ensures Reported(samples, q) <= 1000000 || Reported(samples, q) == OVERFLOW
  {
    hide Target, AtMost;
    TargetGrows(p, q, |samples|);
    var i := FirstReaching(samples, Target(p, |samples|), 0);
    var j := FirstReaching(samples, Target(q, |samples|), 0);
    assert i <= j;
    if j < BUCKETS {
      ShownGrows(i, j);
    }
    if i < BUCKETS {
      ShownGrows(i, i);
    }
  }

  lemma ShownGrows(i: nat, j: nat)
    requires i < BUCKETS && j < BUCKETS
    ensures i <= j ==> Shown(i) <= Shown(j)
    ensures Shown(j) <= 1000000
  {
  }

  predicate IsBound(b: nat) {
    || b == 100 || b == 250 || b == 500 || b == 1000 || b == 2500 || b == 5000 || b == 10000 || b == 25000
    || b == 50000 || b == 100000 || b == 250000 || b == 500000 || b == 1000000
  }

  lemma BoundsAre()
    ensures forall i :: 0 <= i < BUCKETS - 1 ==> IsBound(BOUNDS[i])
    ensures forall b: nat :: IsBound(b) ==> exists i :: 0 <= i < BUCKETS - 1 && BOUNDS[i] == b
    ensures forall i, j :: 0 <= i < j < BUCKETS ==> BOUNDS[i] < BOUNDS[j]
  {
    assert BOUNDS[0] == 100 && BOUNDS[1] == 250 && BOUNDS[2] == 500 && BOUNDS[3] == 1000 && BOUNDS[4] == 2500;
    assert BOUNDS[5] == 5000 && BOUNDS[6] == 10000 && BOUNDS[7] == 25000 && BOUNDS[8] == 50000 && BOUNDS[9] == 100000;
    assert BOUNDS[10] == 250000 && BOUNDS[11] == 500000 && BOUNDS[12] == 1000000;
  }

  lemma TargetIs(p: real, total: nat, target: nat)
    requires p >= 0.0 && target as real <= p * total as real < (target + 1) as real
    ensures Target(p, total) == target
  {
  }

  /** The bound shown for the first bucket that reaches the target. */
  lemma ShownMeans(samples: seq<nat>, target: nat)
    requires target <= |samples| == AtMost(samples, OVERFLOW)
    ensures var i := FirstReaching(samples, target, 0);
            && i < BUCKETS
            && if AtMost(samples, 1000000) < target then Shown(i) == 1000000
               else IsBound(Shown(i)) && AtMost(samples, Shown(i)) >= target
                    && forall b: nat :: IsBound(b) && b < Shown(i) ==> AtMost(samples, b) < target
  {
    hide AtMost, FirstReaching, IsBound;
    BoundsAre();
    assert BOUNDS[BUCKETS - 1] == OVERFLOW && BOUNDS[BUCKETS - 2] == 1000000;
    var i := FirstReaching(samples, target, 0);
    assert i < BUCKETS;
    if i < BUCKETS - 1 {
      AtMostGrows(samples, BOUNDS[i], 1000000);
      forall b: nat | IsBound(b) && b < BOUNDS[i]
        ensures AtMost(samples, b) < target
      {
        var j :| 0 <= j < BUCKETS - 1 && BOUNDS[j] == b;
      }
    }
  }

  /**
    A percentile reads as the least of the thirteen bounds that enough samples do not exceed; as
    one second when enough samples exist but too few are below that; as the largest value past
    the number of samples.
   */
  lemma ReportedMeans(samples: seq<nat>, p: real, target: nat)
    requires p >= 0.0 && samples != [] && forall i :: 0 <= i < |samples| ==> samples[i] <= OVERFLOW
    requires target as real <= p * |samples| as real < (target + 1) as real
    ensures var r := Reported(samples, p);
            if target > |samples| then r == 0xFFFF_FFFF_FFFF_FFFF
            else if AtMost(samples, 1000000) < target then r == 1000000
            else IsBound(r) && AtMost(samples, r) >= target
                 && forall b: nat :: IsBound(b) && b < r ==> AtMost(samples, b) < target
  {
    hide AtMost, Target, FirstReaching, IsBound, Shown;
    TargetIs(p, |samples|, target);
    AtMostAll(samples);
    if target <= |samples| { ShownMeans(samples, target); }
  }
}
