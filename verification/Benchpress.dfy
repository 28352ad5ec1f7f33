/** The iteration scheduler of benchpress: `context::run` repeats a benchmark with growing numbers of
    iterations until it has run long enough. The time a run takes is an arbitrary number of nanoseconds. */
module Benchpress {

  const LIMIT: nat := 1_000_000_000

  function Min(a: nat, b: nat): nat { if a <= b then a else b }

  function Max(a: nat, b: nat): nat { if a >= b then a else b }

  function Pow10(k: nat): (p: nat)
    ensures p >= 1
  {
    if k == 0 then 1 else 10 * Pow10(k - 1)
  }

  /** round_down_10 */
  function RoundDown(n: nat): nat {
    if n > 10 then 10 * RoundDown(n / 10) else 1
  }

  function RoundUp(n: nat): nat {
    var base := RoundDown(n);
    if n < 2 * base then 2 * base
    else if n < 5 * base then 5 * base
    else 10 * base
  }

  function NsPerOp(duration: nat, iterations: nat): nat {
    if iterations == 0 then 0 else duration / iterations
  }

  function Estimate(last: nat, duration: nat): nat {
    var perOp := NsPerOp(duration, last);
    if perOp == 0 then LIMIT else duration / perOp
  }

  /** The number of iterations to try when `last` iterations took `duration`, before rounding. */
  function Wanted(last: nat, duration: nat): nat {
    var n := Estimate(last, duration);
    Max(Min(n + n / 2, 100 * last), last + 1)
  }

  /** Round k with `last` iterations is followed by one with n. */
  ghost predicate Repeats(measure: nat -> nat, benchtime: nat, k: nat, last: nat, n: nat) {
    measure(k) < benchtime && last < LIMIT && n == RoundUp(Wanted(last, measure(k)))
  }

  /** Round k takes place, and with n iterations, when round j takes measure(j). */
  ghost predicate Reaches(measure: nat -> nat, benchtime: nat, k: nat, n: nat) {
    if k == 0 then n == 1
    else
      var j := k - 1;
      exists last :: Reaches(measure, benchtime, j, last) && Repeats(measure, benchtime, j, last, n)
  }

  lemma PowTimes(k: nat, x: nat)
    ensures Pow10(k) * (10 * x) == Pow10(k + 1) * x
  {}

  method RoundDown10(initial: nat) returns (result: nat)
    ensures result == RoundDown(initial)
  {
    var n, tens := initial, 0;
    while n > 10
      invariant RoundDown(initial) == Pow10(tens) * RoundDown(n)
      decreases n
    {
      PowTimes(tens, RoundDown(n / 10));
      n := n / 10;
      tens := tens + 1;
    }
    result := 1;
    for i := 0 to tens
      invariant result == Pow10(i)
    {
      result := result * 10;
    }
  }

  /** round_up */
  method RoundUpTo(n: nat) returns (r: nat)
    ensures r == RoundUp(n)
  {
    var base := RoundDown10(n);
    if n < 2 * base {
      return 2 * base;
    }
    if n < 5 * base {
      return 5 * base;
    }
    return 10 * base;
  }

  // ----- rounding

  lemma {:induction false} RoundDownIsPower(n: nat) returns (k: nat)
    requires n >= 1
    ensures RoundDown(n) == Pow10(k) && Pow10(k) <= n < 11 * Pow10(k)
  {
    if n > 10 {
      var j := RoundDownIsPower(n / 10);
      k := j + 1;
    } else {
      k := 0;
    }
  }

  /** Which power of ten: the least one with n < 11 * 10^k. */
  lemma {:induction false} RoundDownIs(n: nat, k: nat)
    requires 1 <= n < 11 * Pow10(k) && (k > 0 ==> 11 * Pow10(k - 1) <= n)
    ensures RoundDown(n) == Pow10(k)
  {
    if k > 0 {
      assert Pow10(k) == 10 * Pow10(k - 1);
      if k > 1 {
        assert Pow10(k - 1) == 10 * Pow10(k - 2);
      }
      RoundDownIs(n / 10, k - 1);
    }
  }

  /** Two-sided bound: rounding may lose less than a tenth of the result and at most adds half as much
      again as n. */
  lemma RoundUpBounds(n: nat)
    requires n >= 1
    ensures RoundDown(n) <= n < 11 * RoundDown(n)
    ensures 10 * n < 11 * RoundUp(n) && 2 * RoundUp(n) <= 5 * n
  {
    var k := RoundDownIsPower(n);
  }

  predicate JustAbove(n: nat, k: nat) {
    Pow10(k + 1) < n < 11 * Pow10(k)
  }

  /** `round_up` does round up, except strictly between 10^(k+1) and 11 * 10^k, the first case being 101. */
  lemma RoundUpFallsShort(n: nat)
    requires n >= 1
    ensures RoundUp(n) < n <==> exists k: nat :: JustAbove(n, k)
    ensures RoundUp(n) < n ==> n >= 101
    ensures RoundUp(101) == 100
  {
    var j := RoundDownIsPower(n);
    if RoundUp(n) < n {
      assert JustAbove(n, j);
      assert j < 2 ==> Pow10(j) == 1 || Pow10(j) == 10;
      assert n >= 101;
    }
    if k: nat :| JustAbove(n, k) {
      if k > 0 {
        assert Pow10(k) == 10 * Pow10(k - 1);
      }
      RoundDownIs(n, k);
    }
    assert RoundDown(101) == 10 * RoundDown(10);
  }

  // ----- the numbers 1, 2, 5, 10, 20, 50, ...

  function Ladder(i: nat): (n: nat)
    ensures n >= 1
  {
    if i == 0 then 1 else if i == 1 then 2 else if i == 2 then 5 else 10 * Ladder(i - 3)
  }

  lemma {:induction false} LadderAt(k: nat)
    ensures Ladder(3 * k) == Pow10(k) && Ladder(3 * k + 1) == 2 * Pow10(k) && Ladder(3 * k + 2) == 5 * Pow10(k)
  {
    if k > 0 {
      LadderAt(k - 1);
    }
  }

  lemma {:induction false} LadderStep(i: nat)
    ensures Ladder(i) < Ladder(i + 1)
  {
    if i >= 3 {
      LadderStep(i - 3);
    }
  }

  lemma {:induction false} LadderMonotone(i: nat, j: nat)
    requires i < j
    ensures Ladder(i) < Ladder(j)
    decreases j
  {
    LadderStep(j - 1);
    if i < j - 1 {
      LadderMonotone(i, j - 1);
    }
  }

  lemma PowerNine()
    ensures Pow10(9) == LIMIT && Pow10(8) == LIMIT / 10
  {
    assert Pow10(3) == 1000;
    assert Pow10(6) == 1000 * Pow10(3);
    assert Pow10(9) == 1000 * Pow10(6);
  }

  lemma LadderLimit()
    ensures Ladder(27) == LIMIT && Ladder(28) == 2 * LIMIT && Ladder(2) == 5
  {
    PowerNine();
    LadderAt(9);
  }

  /** Every rounded number stands on the ladder. */
  lemma RoundUpOnLadder(n: nat) returns (i: nat)
    requires n >= 1
    ensures RoundUp(n) == Ladder(i) && i >= 1
  {
    var k := RoundDownIsPower(n);
    var base := Pow10(k);
    LadderAt(k);
    LadderAt(k + 1);
    if n < 2 * base {
      i := 3 * k + 1;
    } else if n < 5 * base {
      i := 3 * k + 2;
    } else {
      i := 3 * (k + 1);
    }
  }

  /** The result is the next number on the ladder; but for n from ten times the base on it is just that. */
  lemma RoundUpIsNext(n: nat) returns (i: nat)
    requires n >= 1
    ensures i >= 1 && RoundUp(n) == Ladder(i) && Ladder(i - 1) <= n
    ensures n < Ladder(i) || (n >= 10 * RoundDown(n) && RoundUp(n) == 10 * RoundDown(n))
  {
    i := RoundUpOnLadder(n);
    var k := RoundDownIsPower(n);
    LadderAt(k);
    var base := Pow10(k);
    if n >= 5 * base {
      LadderAt(k + 1);
      if i != 3 * k + 3 {
        LadderMonotone(if i < 3 * k + 3 then i else 3 * k + 3, if i < 3 * k + 3 then 3 * k + 3 else i);
      }
    } else {
      var j := if n < 2 * base then 3 * k + 1 else 3 * k + 2;
      if i != j {
        LadderMonotone(if i < j then i else j, if i < j then j else i);
      }
    }
  }

  // ----- the rounds

  lemma ProductMonotone(a: nat, b: nat, c: nat)
    requires a <= b
    ensures a * c <= b * c
  {}

  lemma DivBounds(d: nat, q: nat, last: nat)
    requires q >= 1 && q * last <= d < (q + 1) * last
    ensures last <= d / q < 2 * last
  {
    var x := d / q;
    assert x * q <= d < (x + 1) * q;
    if x < last {
      ProductMonotone(x + 1, last, q);
    } else if x >= 2 * last {
      ProductMonotone(2 * last, x, q);
      ProductMonotone(1, q, last);
    }
  }

  /** Dividing the duration by the time per operation gives back the last number of iterations, or up to but
      not including twice as many; only a duration too short for a time per operation gives the limit. */
  lemma EstimateBounds(last: nat, duration: nat)
    requires last >= 1
    ensures if duration < last then Estimate(last, duration) == LIMIT else last <= Estimate(last, duration) < 2 * last
  {
    if duration >= last {
      DivBounds(duration, duration / last, last);
    }
  }

  lemma QuotientIs(d: nat, q: nat)
    requires q >= 1
    ensures d / q * q <= d < (d / q + 1) * q
  {}

  /** The number before rounding: where a time per operation can be told, half as much again as the estimate
      from it, but 2 after 1; otherwise the least of a hundred times the last number and 1.5 * 10^9. */
  lemma WantedIs(last: nat, duration: nat) returns (perOp: nat, estimate: nat)
    requires 1 <= last < LIMIT
    ensures if duration < last then
              Wanted(last, duration) == if 100 * last < 1_500_000_000 then 100 * last else 1_500_000_000
            else
              && perOp * last <= duration < (perOp + 1) * last
              && estimate * perOp <= duration < (estimate + 1) * perOp
              && if last == 1 then Wanted(last, duration) == 2
                 else 2 * Wanted(last, duration) <= 3 * estimate <= 2 * Wanted(last, duration) + 1
  {
    EstimateBounds(last, duration);
    perOp, estimate := duration / last, Estimate(last, duration);
    if duration >= last {
      QuotientIs(duration, last);
      QuotientIs(duration, perOp);
    }
  }

  lemma {:induction false} PowMonotone(j: nat, k: nat)
    requires j <= k
    ensures Pow10(j) <= Pow10(k)
  {
    if j < k {
      PowMonotone(j, k - 1);
    }
  }

  /** The `int` holding the power of ten never exceeds 10^9 as long as n stays below 11 * 10^9. */
  lemma PowerOfTenFitsInt(n: nat)
    requires 1 <= n < 11 * LIMIT
    ensures RoundDown(n) <= LIMIT < 0x8000_0000
  {
    PowerNine();
    var k := RoundDownIsPower(n);
    if k <= 9 {
      PowMonotone(k, 9);
    } else {
      PowMonotone(10, k);
      RoundDownIs(n, 9);
    }
  }

  /** The new number before rounding: one and a half times the last one at least, and never so large that
      the arithmetic, or the power of ten in `round_down_10`, overflows. */
  lemma WantedBounds(last: nat, duration: nat)
    requires 1 <= last <= LIMIT / 2
    ensures Wanted(last, duration) >= last + 1 && Wanted(last, duration) >= last + last / 2
    ensures Wanted(last, duration) <= LIMIT + LIMIT / 2
    ensures Estimate(last, duration) + Estimate(last, duration) / 2 <= LIMIT + LIMIT / 2
    ensures RoundDown(Wanted(last, duration)) <= LIMIT
  {
    EstimateBounds(last, duration);
    PowerOfTenFitsInt(Wanted(last, duration));
  }

  lemma BelowLimit(i: nat)
    requires Ladder(i) < LIMIT
    ensures i < 27 && Ladder(i) <= LIMIT / 2
  {
    LadderLimit();
    if i >= 27 {
      if i > 27 { LadderMonotone(27, i); }
      assert false;
    }
    PowerNine();
    LadderAt(8);
    if i < 26 {
      LadderMonotone(i, 26);
    }
  }

  lemma OddOnLadder(i: nat)
    ensures Ladder(i) % 2 == 1 ==> Ladder(i) == 1 || Ladder(i) == 5
  {}

  lemma TopOfLadder(m: nat)
    requires 1 <= m <= LIMIT + LIMIT / 2
    ensures RoundUp(m) <= 2 * LIMIT
  {
    PowerNine();
    PowerOfTenFitsInt(m);
    var k := RoundDownIsPower(m);
    if k >= 9 {
      PowMonotone(9, k);
    } else {
      PowMonotone(k, 8);
    }
  }

  /** Strict progress: although rounding up can round down, the next number stands higher on the ladder;
      from 1 it even skips 2. */
  lemma Progress(i: nat, duration: nat) returns (j: nat)
    requires Ladder(i) < LIMIT
    ensures RoundUp(Wanted(Ladder(i), duration)) == Ladder(j) && j > i && j >= 2
    ensures Ladder(j) <= 2 * LIMIT
  {
    var last := Ladder(i);
    BelowLimit(i);
    WantedBounds(last, duration);
    var m := Wanted(last, duration);
    RoundUpBounds(m);
    j := RoundUpOnLadder(m);
    OddOnLadder(i);
    if j <= i {
      if j < i {
        LadderMonotone(j, i);
      }
      assert false;
    }
    assert j != 1 by {
      assert Ladder(1) == 2;
      var k := RoundDownIsPower(m);
    }
    TopOfLadder(m);
  }

  /** Where round k stands on the ladder. */
  lemma {:induction false} RoundOnLadder(measure: nat -> nat, benchtime: nat, k: nat, n: nat) returns (i: nat)
    requires Reaches(measure, benchtime, k, n)
    ensures n == Ladder(i) && n <= 2 * LIMIT
    ensures if k == 0 then i == 0 else i > k
  {
    if k == 0 {
      i := 0;
    } else {
      var last :| Reaches(measure, benchtime, k - 1, last) && Repeats(measure, benchtime, k - 1, last, n);
      var h := RoundOnLadder(measure, benchtime, k - 1, last);
      i := Progress(h, measure(k - 1));
    }
  }

  /** Termination: whatever the runs take, there are at most 26 rounds after the first. */
  lemma RoundsBounded(measure: nat -> nat, benchtime: nat, k: nat, n: nat)
    requires Reaches(measure, benchtime, k, n)
    ensures k <= 26 && n <= 2 * LIMIT
  {
    var i := RoundOnLadder(measure, benchtime, k, n);
    if k > 0 {
      var last :| Reaches(measure, benchtime, k - 1, last) && Repeats(measure, benchtime, k - 1, last, n);
      var h := RoundOnLadder(measure, benchtime, k - 1, last);
      BelowLimit(h);
    }
  }

  lemma RoundFollows(measure: nat -> nat, benchtime: nat, k: nat, last: nat, n: nat)
    requires Reaches(measure, benchtime, k, last) && Repeats(measure, benchtime, k, last, n)
    ensures Reaches(measure, benchtime, k + 1, n) && k < 26 && last < n
  {
    RoundsBounded(measure, benchtime, k + 1, n);
    var h := RoundOnLadder(measure, benchtime, k, last);
    var i := Progress(h, measure(k));
    LadderMonotone(h, i);
  }

  class Context {
    const benchtime: nat
    var numIterations: nat
    var duration: nat

    constructor (benchtime: nat)
      ensures this.benchtime == benchtime
    {
      this.benchtime := benchtime;
      numIterations, duration := 1, 0;
    }

    /** Rounded down, and 0 without iterations. */
    method GetNsPerOp() returns (r: nat)
      ensures numIterations == 0 ==> r == 0
      ensures numIterations > 0 ==> r * numIterations <= duration < (r + 1) * numIterations
      ensures r == NsPerOp(duration, numIterations)
    {
      if numIterations <= 0 {
        return 0;
      }
      return duration / numIterations;
    }

    /** Runs the benchmark n times; `measured` is how long that took. */
    method RunN(n: nat, measured: nat)
      modifies this
      ensures numIterations == n && duration == measured
    {
      numIterations := n;
      duration := 0;
      duration := duration + measured;
    }

    /** The next number of iterations to try, from the last one and the time it took. */
    method NextIterations(last: nat) returns (n: nat)
      requires last == numIterations
      ensures n == RoundUp(Wanted(last, duration))
    {
      var perOp := GetNsPerOp();
      if perOp == 0 {
        n := LIMIT;
      } else {
        n := duration / perOp;
      }
      n := Max(Min(n + n / 2, 100 * last), last + 1);
      n := RoundUpTo(n);
    }

    /** Whatever the runs take, the loop ends after at most 26 further rounds. */
    method Run(measure: nat -> nat) returns (n: nat, rounds: nat)
      modifies this
      ensures n == numIterations && duration == measure(rounds)
      ensures Reaches(measure, benchtime, rounds, n) && !(duration < benchtime && n < LIMIT)
      ensures rounds <= 26 && n <= 2 * LIMIT
    {
      n := 1;
      rounds := 0;
      RunN(n, measure(0));
      while duration < benchtime && n < LIMIT
        invariant n == numIterations && duration == measure(rounds)
        invariant Reaches(measure, benchtime, rounds, n)
        decreases 26 - rounds
      {
        ghost var last := n;
        n := NextIterations(n);
        RoundFollows(measure, benchtime, rounds, last, n);
        rounds := rounds + 1;
        RunN(n, measure(rounds));
      }
      RoundsBounded(measure, benchtime, rounds, n);
    }
  }

  // ----- the bound is exact

  function OnePerNanosecond(k: nat): nat {
    if k == 0 then 1 else Ladder(k + 1)
  }

  lemma WantedAtOnePerNanosecond(n: nat)
    requires n >= 1
    ensures Wanted(n, n) == Max(n + n / 2, n + 1)
  {
    assert n / n == 1 && n / 1 == n;
  }

  /** Half as much again as 1, 2 or 5 times a power of ten rounds up to the next such number. */
  lemma HalfAsMuchAgain(d: nat, k: nat)
    requires k >= 1 && (d == 1 || d == 2 || d == 5)
    ensures Pow10(k) >= 10
    ensures var n := d * Pow10(k);
      RoundUp(n + n / 2) == if d == 1 then 2 * Pow10(k) else if d == 2 then 5 * Pow10(k) else 10 * Pow10(k)
  {
    var p := Pow10(k - 1);
    assert Pow10(k) == 10 * p;
    var n := d * Pow10(k);
    var m := n + n / 2;
    assert m == if d == 1 then 15 * p else if d == 2 then 30 * p else 75 * p;
    RoundDownIs(m, k);
  }

  lemma OneRound(benchtime: nat, k: nat, n: nat)
    requires Reaches(OnePerNanosecond, benchtime, k, n) && OnePerNanosecond(k) == n && 2 <= n < LIMIT < benchtime
    ensures Reaches(OnePerNanosecond, benchtime, k + 1, RoundUp(n + n / 2))
  {
    WantedAtOnePerNanosecond(n);
    RoundFollows(OnePerNanosecond, benchtime, k, n, RoundUp(n + n / 2));
  }

  lemma ScaledRound(benchtime: nat, k: nat, d: nat, j: nat)
    requires j >= 1 && (d == 1 || d == 2 || d == 5) && d * Pow10(j) < LIMIT < benchtime
    requires OnePerNanosecond(k) == d * Pow10(j) && Reaches(OnePerNanosecond, benchtime, k, d * Pow10(j))
    ensures Reaches(OnePerNanosecond, benchtime, k + 1,
                    if d == 1 then 2 * Pow10(j) else if d == 2 then 5 * Pow10(j) else 10 * Pow10(j))
  {
    HalfAsMuchAgain(d, j);
    OneRound(benchtime, k, d * Pow10(j));
  }

  /** Three rounds of the benchmark that takes one nanosecond per iteration. */
  lemma ThreeRounds(benchtime: nat, k: nat, j: nat)
    requires j >= 1 && 5 * Pow10(j) < LIMIT < benchtime && k == 3 * j - 1
    requires Reaches(OnePerNanosecond, benchtime, k, Pow10(j))
    ensures Reaches(OnePerNanosecond, benchtime, k + 3, Pow10(j + 1))
  {
    var p := Pow10(j);
    LadderAt(j);
    ScaledRound(benchtime, k, 1, j);
    ScaledRound(benchtime, k + 1, 2, j);
    ScaledRound(benchtime, k + 2, 5, j);
  }

  /** The first two rounds: 1, 5, 10. */
  lemma FirstRounds(benchtime: nat)
    requires LIMIT < benchtime
    ensures Reaches(OnePerNanosecond, benchtime, 2, 10)
  {
    WantedAtOnePerNanosecond(1);
    assert RoundUp(2) == 5 && RoundUp(7) == 10;
    RoundFollows(OnePerNanosecond, benchtime, 0, 1, 5);
    WantedAtOnePerNanosecond(5);
    assert Ladder(2) == 5;
    RoundFollows(OnePerNanosecond, benchtime, 1, 5, 10);
  }

  lemma {:induction false} PowersReached(benchtime: nat, j: nat)
    requires LIMIT < benchtime && 1 <= j <= 9
    ensures Reaches(OnePerNanosecond, benchtime, 3 * j - 1, Pow10(j))
  {
    if j == 1 {
      FirstRounds(benchtime);
      assert Pow10(1) == 10;
    } else {
      PowersReached(benchtime, j - 1);
      PowerNine();
      PowMonotone(j - 1, 8);
      ThreeRounds(benchtime, 3 * (j - 1) - 1, j - 1);
    }
  }

  /** A benchmark that takes one nanosecond per iteration, given more than a second, does run 26 further
      rounds. */
  lemma TwentySixRoundsHappen(benchtime: nat)
    requires LIMIT < benchtime
    ensures Reaches(OnePerNanosecond, benchtime, 26, LIMIT)
  {
    PowersReached(benchtime, 9);
    PowerNine();
  }
}
