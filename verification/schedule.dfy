/** The cooling schedule of simulatedAnnealing: the temperature starts at
    `initial`, one pass of inner iterations runs while it is above `minTemp`,
    and after each pass it is multiplied by `rate`. The temperature is a real
    number here. */
module Schedule {

  /** The temperature after `k` passes. A non-negative temperature cooled
      at a non-negative rate stays non-negative, and at a rate of at most 1
      it never rises above where it started. */
  function TempAfter(initial: real, rate: real, k: nat): (t: real)
    ensures 0.0 <= initial && 0.0 <= rate ==> 0.0 <= t
    ensures 0.0 <= initial && 0.0 <= rate <= 1.0 ==> t <= initial
  {
    if k == 0 then initial
    else
      var prev := TempAfter(initial, rate, k - 1);
      Cooled(prev, rate, initial);
      prev * rate
  }

  /** One cooling of a temperature `t` that lies in [0, bound]. */
  lemma Cooled(t: real, rate: real, bound: real)
    ensures 0.0 <= t && 0.0 <= rate ==> 0.0 <= t * rate
    ensures 0.0 <= t <= bound && 0.0 <= rate <= 1.0 ==> t * rate <= bound
  {
    if 0.0 <= t && 0.0 <= rate {
      ScaleLe(t, 0.0, rate);
      if rate <= 1.0 {
        ScaleLe(t, rate, 1.0);
      }
    }
  }

  /** Each pass multiplies the temperature by the rate once. */
  lemma CoolOnce(initial: real, rate: real, k: nat, temp: real)
    requires temp == TempAfter(initial, rate, k)
    ensures temp * rate == TempAfter(initial, rate, k + 1)
  {
  }

  /** Inputs for which the outer loop is sure to stop: it never starts; or
      the rate is at most zero and the threshold is not negative, so one pass
      ends it; or the temperature shrinks towards zero past a positive
      threshold. This is sufficient, not necessary: some inputs with a
      negative threshold also end the loop. Within it, every pass runs at a
      positive temperature. */
  predicate Terminates(initial: real, rate: real, minTemp: real) {
    initial <= minTemp || (rate <= 0.0 && 0.0 <= minTemp) || (rate < 1.0 && 0.0 < minTemp)
  }

  /** Multiplying by a non-negative factor keeps an inequality. */
  lemma ScaleLe(t: real, a: real, b: real)
    requires 0.0 <= t && a <= b
    ensures t * a <= t * b
  {
  }

  /** One pass of cooling, in Bernoulli's terms:
      rate * (1 + (k + 1)(1 - rate)) <= 1 + k(1 - rate). */
  lemma RateStep(rate: real, kk: real)
    requires 0.0 <= rate <= 1.0 && 0.0 <= kk
    ensures rate * (1.0 + (kk + 1.0) * (1.0 - rate)) <= 1.0 + kk * (1.0 - rate)
  {
    var e := 1.0 - rate;
    assert rate * (1.0 + (kk + 1.0) * e) == (1.0 - e) * (1.0 + (kk + 1.0) * e);
    assert (1.0 - e) * (1.0 + (kk + 1.0) * e) == 1.0 + kk * e - (kk + 1.0) * (e * e);
    ScaleLe(kk + 1.0, 0.0, e * e);
  }

  /** The inductive step of Bernoulli's inequality for a temperature `t`
      reached after `kk` passes. */
  lemma BernoulliStep(initial: real, rate: real, t: real, kk: real, cooled: real, x: real)
    requires 0.0 <= rate <= 1.0 && 0.0 <= kk && 0.0 <= t
    requires t * (1.0 + kk * (1.0 - rate)) <= initial
    requires cooled == t * rate && x == 1.0 + (kk + 1.0) * (1.0 - rate)
    ensures cooled * x <= initial
  {
    var e := 1.0 - rate;
    RateStep(rate, kk);
    ScaleLe(t, rate * (1.0 + (kk + 1.0) * e), 1.0 + kk * e);
    assert t * rate * (1.0 + (kk + 1.0) * e) == t * (rate * (1.0 + (kk + 1.0) * e));
  }

  /** Bernoulli's inequality in the form the schedule needs:
      initial * rate^k * (1 + k * (1 - rate)) <= initial. */
  lemma {:induction false} Bernoulli(initial: real, rate: real, k: nat)
    requires 0.0 <= initial && 0.0 <= rate <= 1.0
    ensures 0.0 <= TempAfter(initial, rate, k)
    ensures TempAfter(initial, rate, k) * (1.0 + (k as real) * (1.0 - rate)) <= initial
  {
    if k > 0 {
      var t := TempAfter(initial, rate, k - 1);
      var kk := (k - 1) as real;
      Bernoulli(initial, rate, k - 1);
      CoolOnce(initial, rate, k - 1, t);
      assert (k as real) == kk + 1.0;
      BernoulliStep(initial, rate, t, kk, TempAfter(initial, rate, k), 1.0 + (k as real) * (1.0 - rate));
    } else {
      assert (k as real) * (1.0 - rate) == 0.0;
    }
  }

  /** A number of passes after which the temperature is at most `minTemp`. */
  function RoundBound(initial: real, rate: real, minTemp: real): (k: nat)
    requires Terminates(initial, rate, minTemp)
    ensures TempAfter(initial, rate, k) <= minTemp
  {
    if initial <= minTemp then 0
    else if rate <= 0.0 then
      assert TempAfter(initial, rate, 1) == initial * rate;
      ScaleLe(initial, rate, 0.0);
      1
    else
      var q := BoundQuotient(initial, rate, minTemp);
      var k: nat := q.Floor + 1;
      BoundSuffices(initial, rate, minTemp, k);
      k
  }

  /** The real number of passes Bernoulli's inequality asks for. */
  function BoundQuotient(initial: real, rate: real, minTemp: real): (q: real)
    requires 0.0 < minTemp < initial && 0.0 < rate < 1.0
    ensures 0.0 <= q
    ensures initial < minTemp * (1.0 + (q.Floor + 1) as real * (1.0 - rate))
  {
    var e := 1.0 - rate;
    var q := (initial / minTemp - 1.0) / e;
    var kr := (q.Floor + 1) as real;
    assert initial / minTemp - 1.0 == q * e;
    assert q < kr;
    ScaleLe(e, q, kr);
    assert initial == minTemp * (initial / minTemp);
    ScaleLe(minTemp, initial / minTemp, 1.0 + kr * e);
    q
  }

  lemma BoundSuffices(initial: real, rate: real, minTemp: real, k: nat)
    requires 0.0 < minTemp < initial && 0.0 < rate < 1.0
    requires initial < minTemp * (1.0 + (k as real) * (1.0 - rate))
    ensures TempAfter(initial, rate, k) <= minTemp
  {
    var x := 1.0 + (k as real) * (1.0 - rate);
    var t := TempAfter(initial, rate, k);
    Bernoulli(initial, rate, k);
    ScaleLe(k as real, 0.0, 1.0 - rate);
    if t > minTemp {
      ScaleLe(x, minTemp, t);
      assert false;
    }
  }

  /** The first pass count from `k` on whose temperature is at most `minTemp`. */
  function RoundsFrom(initial: real, rate: real, minTemp: real, k: nat, bound: nat): (r: nat)
    requires k <= bound && TempAfter(initial, rate, bound) <= minTemp
    requires forall j: nat :: j < k ==> minTemp < TempAfter(initial, rate, j)
    ensures k <= r <= bound
    ensures TempAfter(initial, rate, r) <= minTemp
    ensures forall j: nat :: j < r ==> minTemp < TempAfter(initial, rate, j)
    decreases bound - k
  {
    if TempAfter(initial, rate, k) <= minTemp then k
    else RoundsFrom(initial, rate, minTemp, k + 1, bound)
  }

  /** The number of passes the outer loop makes: the temperature is above
      `minTemp` before each of them and at most `minTemp` after the last. */
  function CoolingRounds(initial: real, rate: real, minTemp: real): (r: nat)
    requires Terminates(initial, rate, minTemp)
    ensures TempAfter(initial, rate, r) <= minTemp
    ensures forall j: nat :: j < r ==> minTemp < TempAfter(initial, rate, j)
  {
    RoundsFrom(initial, rate, minTemp, 0, RoundBound(initial, rate, minTemp))
  }

  /** The pass count is the only count with that property: a `k` whose
      temperature is the first at or below `minTemp` is the number of passes. */
  lemma CoolingRoundsUnique(initial: real, rate: real, minTemp: real, k: nat)
    requires Terminates(initial, rate, minTemp)
    requires TempAfter(initial, rate, k) <= minTemp
    requires forall j: nat :: j < k ==> minTemp < TempAfter(initial, rate, j)
    ensures CoolingRounds(initial, rate, minTemp) == k
  {
    var r := CoolingRounds(initial, rate, minTemp);
    assert k < r ==> minTemp < TempAfter(initial, rate, k);
  }

  /** Every pass of a stopping schedule runs at a positive temperature, so
      the Metropolis test never divides by zero or by a negative number. */
  lemma PassesArePositive(initial: real, rate: real, minTemp: real, j: nat)
    requires Terminates(initial, rate, minTemp)
    requires j < CoolingRounds(initial, rate, minTemp)
    ensures 0.0 < TempAfter(initial, rate, j)
  {
  }

  /** The loop makes no pass at all exactly when it starts at or below the
      threshold. */
  lemma NoRoundsIff(initial: real, rate: real, minTemp: real)
    requires Terminates(initial, rate, minTemp)
    ensures CoolingRounds(initial, rate, minTemp) == 0 <==> initial <= minTemp
  {
    var r := CoolingRounds(initial, rate, minTemp);
    if r != 0 {
      assert minTemp < TempAfter(initial, rate, 0);
    }
  }
}
