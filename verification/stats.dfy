/** Population mean and variance as `np.mean` and `np.std` compute them
    (backend/app/services/analytics_service.py:146-147), in exact arithmetic,
    with Samuelson's bound on how far one value can lie from the mean. */
module Stats {

  function Sum(xs: seq<real>): real {
    if |xs| == 0 then 0.0 else xs[0] + Sum(xs[1..])
  }

  function Sq(x: real): real {
    x * x
  }

  function SumSq(xs: seq<real>): (r: real)
    ensures r >= 0.0
  {
    if |xs| == 0 then 0.0 else Sq(xs[0]) + SumSq(xs[1..])
  }

  function Mean(xs: seq<real>): real
    requires |xs| > 0
  {
    Sum(xs) / (|xs| as real)
  }

  /** Every value minus `c`. */
  function Dev(xs: seq<real>, c: real): (d: seq<real>)
    ensures |d| == |xs|
    ensures forall i :: 0 <= i < |xs| ==> d[i] == xs[i] - c
  {
    seq(|xs|, i requires 0 <= i < |xs| => xs[i] - c)
  }

  /** Population variance (`ddof = 0`): the mean squared deviation. The standard
      deviation `np.std` is its square root. */
  function Variance(xs: seq<real>): (v: real)
    requires |xs| > 0
    ensures v >= 0.0
  {
    SumSq(Dev(xs, Mean(xs))) / (|xs| as real)
  }

  lemma {:induction false} SumAppend(a: seq<real>, b: seq<real>)
    ensures Sum(a + b) == Sum(a) + Sum(b)
    ensures SumSq(a + b) == SumSq(a) + SumSq(b)
    decreases |a|
  {
    if |a| == 0 {
      assert a + b == b;
    } else {
      assert (a + b)[1..] == a[1..] + b;
      SumAppend(a[1..], b);
    }
  }

  /** Subtracting `c` from every value subtracts `n * c` from the sum. */
  lemma {:induction false} SumDev(xs: seq<real>, c: real)
    ensures Sum(Dev(xs, c)) == Sum(xs) - (|xs| as real) * c
    decreases |xs|
  {
    if |xs| > 0 {
      assert Dev(xs, c)[1..] == Dev(xs[1..], c);
      SumDev(xs[1..], c);
    }
  }

  /** Deviations from the mean sum to zero. */
  lemma DeviationsSumToZero(xs: seq<real>)
    requires |xs| > 0
    ensures Sum(Dev(xs, Mean(xs))) == 0.0
  {
    SumDev(xs, Mean(xs));
    var n := |xs| as real;
    assert n * (Sum(xs) / n) == Sum(xs);
  }

  /** Cauchy-Schwarz against the all-ones vector: (sum x)^2 <= n * sum x^2. */
  lemma {:induction false} SquareOfSumBound(xs: seq<real>)
    ensures Sq(Sum(xs)) <= (|xs| as real) * SumSq(xs)
    decreases |xs|
  {
    if |xs| == 0 {
      return;
    }
    var a, t := xs[0], xs[1..];
    SquareOfSumBound(t);
    var s, q, m := Sum(t), SumSq(t), |t| as real;
    assert Sum(xs) == a + s;
    assert SumSq(xs) == Sq(a) + q;
    assert |xs| as real == m + 1.0;
    CauchyStep(a, s, q, m);
  }

  /** The inductive step of `SquareOfSumBound`, as plain arithmetic. */
  lemma CauchyStep(a: real, s: real, q: real, m: real)
    requires m >= 0.0 && q >= 0.0 && Sq(s) <= m * q
    requires m == 0.0 ==> s == 0.0
    ensures Sq(a + s) <= (m + 1.0) * (Sq(a) + q)
  {
    if m == 0.0 {
      return;
    }
    var k := m * a * a + q - 2.0 * a * s;
    assert m * k == (m * a - s) * (m * a - s) + (m * q - s * s);
    SquareNonNegative(m * a - s);
    PositiveFactor(m, k);
    assert (m + 1.0) * (a * a + q) - (a + s) * (a + s) == k + (m * q - s * s);
  }


  lemma PositiveFactor(m: real, k: real)
    requires m > 0.0 && m * k >= 0.0
    ensures k >= 0.0
  {
    if k < 0.0 {
      ProductPositive(m, -k);
    }
  }

  lemma ProductPositive(x: real, y: real)
    requires x > 0.0 && y > 0.0
    ensures x * y > 0.0
  {
  }

  lemma SquarePositive(x: real)
    requires x != 0.0
    ensures x * x > 0.0
  {
    if x > 0.0 {
      ProductPositive(x, x);
    } else {
      ProductPositive(-x, -x);
      assert (-x) * (-x) == x * x;
    }
  }

  lemma SquareNonNegative(x: real)
    ensures x * x >= 0.0
  {
    if x != 0.0 {
      SquarePositive(x);
    }
  }

  /** Samuelson's inequality: no value lies further than sqrt(n - 1) standard
      deviations from the mean of its own sample. */
  lemma {:induction false} Samuelson(xs: seq<real>, i: int)
    requires 0 <= i < |xs|
    ensures Sq(xs[i] - Mean(xs)) <= (|xs| as real - 1.0) * Variance(xs)
  {
    var m := Mean(xs);
    var d := Dev(xs, m);
    DeviationsSumToZero(xs);
    DeviationBound(d, i);
    SamuelsonArith(|xs| as real, Sq(d[i]), SumSq(d), Sq(xs[i] - m), Variance(xs));
  }

  /** The deviation of one value is bounded by the others' deviations, because
      all deviations sum to zero. */
  lemma DeviationBound(d: seq<real>, i: int)
    requires 0 <= i < |d| && Sum(d) == 0.0
    ensures Sq(d[i]) <= (|d| as real - 1.0) * (SumSq(d) - Sq(d[i]))
  {
    var r, q := RestSums(d, i);
    SqNeg(d[i]);
  }

  /** The sum and the sum of squares of `d` without its `i`-th element, with
      the Cauchy-Schwarz bound between them. */
  lemma RestSums(d: seq<real>, i: int) returns (r: real, q: real)
    requires 0 <= i < |d|
    ensures r == Sum(d) - d[i] && q == SumSq(d) - Sq(d[i])
    ensures Sq(r) <= (|d| as real - 1.0) * q
  {
    var rest := d[..i] + d[i + 1..];
    RemoveOne(d, i);
    SquareOfSumBound(rest);
    r, q := Sum(rest), SumSq(rest);
  }

  /** Sums over a sequence with its `i`-th element taken out. */
  lemma {:induction false} RemoveOne(d: seq<real>, i: int)
    requires 0 <= i < |d|
    ensures Sum(d[..i] + d[i + 1..]) == Sum(d) - d[i]
    ensures SumSq(d[..i] + d[i + 1..]) == SumSq(d) - Sq(d[i])
  {
    assert d == d[..i] + [d[i]] + d[i + 1..];
    SumAppend(d[..i] + [d[i]], d[i + 1..]);
    SumAppend(d[..i], [d[i]]);
    SumAppend(d[..i], d[i + 1..]);
    assert Sum([d[i]]) == d[i] && SumSq([d[i]]) == Sq(d[i]);
  }

  lemma SqNeg(x: real)
    ensures Sq(-x) == Sq(x)
  {
  }

  /** From e <= (n - 1) * (S - e) follows e <= (n - 1) * (S / n). */
  lemma SamuelsonArith(n: real, e: real, S: real, e': real, v: real)
    requires n >= 1.0
    requires e <= (n - 1.0) * (S - e)
    requires e' == e && v == S / n
    ensures e' <= (n - 1.0) * v
  {
    assert n * e <= (n - 1.0) * S;
    DivideBound(n, e, (n - 1.0) * S);
    assert (n - 1.0) * S / n == (n - 1.0) * (S / n);
  }

  lemma DivideBound(n: real, e: real, b: real)
    requires n > 0.0 && n * e <= b
    ensures e <= b / n
  {
    assert e == (n * e) / n;
  }

  function Abs(x: real): real {
    if x < 0.0 then -x else x
  }

  /** For a positive standard deviation `s`, the z-score test `|d| / s > k`
      is the square-free test `d^2 > k^2 * s^2`. */
  lemma ZScoreTest(d: real, s: real, k: real)
    requires s > 0.0 && k >= 0.0
    ensures Abs(d) / s > k <==> Sq(d) > k * k * Sq(s)
  {
    var a := Abs(d);
    var b := k * s;
    assert Abs(d) / s > k <==> a > b by {
      assert (a / s) * s == a;
      if a / s > k {
        ProductPositive(a / s - k, s);
        assert (a / s - k) * s == a - b;
      }
      if a > b {
        if a / s <= k {
          ProductNonNegative(k - a / s, s);
        }
      }
    }
    assert a * a == Sq(d);
    assert b * b == k * k * Sq(s);
    SquareMonotone(a, b);
  }

  lemma ProductNonNegative(x: real, y: real)
    requires x >= 0.0 && y >= 0.0
    ensures x * y >= 0.0
  {
    if x > 0.0 && y > 0.0 {
      ProductPositive(x, y);
    }
  }

  /** On non-negative numbers, comparing squares is comparing the numbers. */
  lemma SquareMonotone(a: real, b: real)
    requires a >= 0.0 && b >= 0.0
    ensures a > b <==> a * a > b * b
  {
    assert a * a - b * b == (a - b) * (a + b);
    if a > b {
      ProductPositive(a - b, a + b);
    } else {
      ProductNonNegative(b - a, a + b);
      assert (b - a) * (a + b) == b * b - a * a;
    }
  }
}
