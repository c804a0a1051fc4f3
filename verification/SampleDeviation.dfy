/** Calculate_StdDev (SS_CommandResult.cxx) over exact reals: what stands under its square root
    is the sample variance about the mean. */
module SampleDeviation {
  import opened Wrappers

  /** The CommandResult kinds that carry a number the formula reads; any other reads as 0.0. */
  datatype Value = Uint(u: nat) | Int(i: int) | Float(f: real) | Duration(d: int) | Interval(r: real) | Other

  datatype Kind = AsFloat | AsDuration | AsInterval

  /** The result is the square root of radicand, in the given kind. */
  datatype Root = Root(kind: Kind, radicand: real)

  function Number(v: Value): real {
    match v
    case Uint(u) => u as real
    case Int(i) => i as real
    case Float(f) => f
    case Duration(d) => d as real
    case Interval(r) => r
    case Other => 0.0
  }

  function KindOf(v: Value): Kind {
    match v
    case Duration(_) => AsDuration
    case Interval(_) => AsInterval
    case _ => AsFloat
  }

  function Sum(xs: seq<real>): real {
    if xs == [] then 0.0 else xs[0] + Sum(xs[1..])
  }

  function SumOfSquares(xs: seq<real>): real {
    if xs == [] then 0.0 else xs[0] * xs[0] + SumOfSquares(xs[1..])
  }

  /** Sum of squared distances from m. */
  function Spread(xs: seq<real>, m: real): (r: real)
    ensures r >= 0.0
    ensures r == 0.0 <==> forall i :: 0 <= i < |xs| ==> xs[i] == m
  {
    if xs == [] then 0.0
    else
      var rest := Spread(xs[1..], m);
      assert forall i :: 0 <= i < |xs| - 1 ==> xs[1..][i] == xs[i + 1];
      Square(xs[0] - m) + rest
  }

  function Times(x: real, y: real): (r: real)
    ensures x > 0.0 && y > 0.0 ==> r > 0.0
    ensures x < 0.0 && y < 0.0 ==> r > 0.0
    ensures x == 0.0 ==> r == 0.0
  {
    x * y
  }

  function Square(x: real): (r: real)
    ensures r >= 0.0 && (r == 0.0 <==> x == 0.0)
  {
    Times(x, x)
  }

  /** No result when an input is missing, there are fewer than two samples, or the root is not a number. */
  function StdDev(a: Option<Value>, b: Option<Value>, c: Option<Value>): Option<Root> {
    if a.None? || b.None? || c.None? then None
    else
      var A, B, C := Number(a.value), Number(b.value), Number(c.value);
      if C <= 1.0 then None
      else
        var radicand := Radicand(A, B, C);
        if radicand < 0.0 then None else Some(Root(KindOf(a.value), radicand))
  }

  lemma Positive(x: real, y: real)
    requires x > 0.0 && y > 0.0
    ensures x * y > 0.0
  {
  }

  lemma {:induction false} SpreadExpands(xs: seq<real>, m: real)
    ensures Spread(xs, m) == Expanded(SumOfSquares(xs), Sum(xs), |xs| as real, m)
  {
    if xs != [] {
      SpreadExpands(xs[1..], m);
      ExpandOne(xs[0], m, SumOfSquares(xs[1..]), Sum(xs[1..]), (|xs| - 1) as real,
                SumOfSquares(xs), Sum(xs), |xs| as real);
    }
  }

  function Expanded(q: real, s: real, n: real, m: real): real { q - 2.0 * m * s + n * (m * m) }

  lemma ExpandOne(x: real, m: real, q: real, s: real, n: real, q': real, s': real, n': real)
    requires q' == x * x + q && s' == x + s && n' == n + 1.0
    ensures Expanded(q', s', n', m) == Square(x - m) + Expanded(q, s, n, m)
  {
    var y := m * m;
    assert Square(x - m) == x * x - 2.0 * m * x + y;
    assert 2.0 * m * (x + s) == 2.0 * m * x + 2.0 * m * s;
    assert (n + 1.0) * y == n * y + y;
  }

  function Radicand(A: real, B: real, C: real): real
    requires C > 1.0
  {
    Positive(C, C - 1.0);
    (C * B - A * A) / (C * (C - 1.0))
  }

  function Mean(xs: seq<real>): real
    requires xs != []
  {
    Sum(xs) / |xs| as real
  }

  lemma NumeratorIsExpanded(A: real, B: real, n: real, m: real)
    requires n * m == A
    ensures n * Expanded(B, A, n, m) == n * B - A * A
  {
    assert n * (m * m) == (n * m) * m == A * m;
    assert Expanded(B, A, n, m) == B - m * A;
    assert n * (m * A) == (n * m) * A;
  }

  lemma CancelFactor(n: real, k: real, v: real)
    requires n > 0.0 && k > 0.0
    ensures n * k > 0.0 && n * v / (n * k) == v / k
  {
    Positive(n, k);
    var d := v / k;
    assert d * k == v;
    assert d * (n * k) == n * (d * k);
  }

  lemma RadicandIsExpanded(A: real, B: real, n: real, m: real)
    requires n > 1.0 && m == A / n
    ensures Radicand(A, B, n) == Expanded(B, A, n, m) / (n - 1.0)
  {
    MeanTimesCount(A, n, m);
    NumeratorIsExpanded(A, B, n, m);
    CancelFactor(n, n - 1.0, Expanded(B, A, n, m));
  }

  lemma MeanTimesCount(A: real, n: real, m: real)
    requires n > 1.0 && m == A / n
    ensures n * m == A
  {
  }

  lemma QuotientSign(x: real, d: real)
    requires d > 0.0
    ensures (x / d < 0.0 <==> x < 0.0) && (x / d == 0.0 <==> x == 0.0)
  {
    var r := x / d;
    assert r * d == x;
    if r < 0.0 { Positive(-r, d); }
    if r > 0.0 { Positive(r, d); }
  }

  lemma MeanOfEqual(xs: seq<real>, x: real)
    requires xs != [] && forall i :: 0 <= i < |xs| ==> xs[i] == x
    ensures Mean(xs) == x
  {
    SumOfEqual(xs, x);
    Divide(|xs| as real, x);
  }

  lemma Divide(n: real, x: real)
    requires n > 0.0
    ensures n * x / n == x
  {
  }

  lemma SpreadIsZeroIff(xs: seq<real>)
    requires xs != []
    ensures Spread(xs, Mean(xs)) == 0.0 <==> forall i, j :: 0 <= i < j < |xs| ==> xs[i] == xs[j]
  {
    if forall i, j :: 0 <= i < j < |xs| ==> xs[i] == xs[j] { MeanOfEqual(xs, xs[0]); }
  }

  lemma VarianceIsRadicand(xs: seq<real>)
    requires |xs| >= 2
    ensures Radicand(Sum(xs), SumOfSquares(xs), |xs| as real) == Spread(xs, Mean(xs)) / (|xs| as real - 1.0)
  {
    SpreadExpands(xs, Mean(xs));
    RadicandIsExpanded(Sum(xs), SumOfSquares(xs), |xs| as real, Mean(xs));
  }

  /** From the sum, the sum of squares and the number of any two or more samples, in whatever kinds
      they come, there is a result; under its root stands the mean-centred sample variance, which
      is zero exactly when all samples are equal. */
  lemma StdDevIsSampleDeviation(xs: seq<real>, a: Value, b: Value, c: Value)
    requires |xs| >= 2
    requires Number(a) == Sum(xs) && Number(b) == SumOfSquares(xs) && Number(c) == |xs| as real
    ensures var variance := Spread(xs, Mean(xs)) / (|xs| as real - 1.0);
      && StdDev(Some(a), Some(b), Some(c)) == Some(Root(KindOf(a), variance))
      && variance >= 0.0
      && (variance == 0.0 <==> forall i, j :: 0 <= i < j < |xs| ==> xs[i] == xs[j])
  {
    VarianceIsRadicand(xs);
    SpreadIsZeroIff(xs);
    QuotientSign(Spread(xs, Mean(xs)), |xs| as real - 1.0);
  }

  lemma {:induction false} SumOfEqual(xs: seq<real>, x: real)
    requires forall i :: 0 <= i < |xs| ==> xs[i] == x
    ensures Sum(xs) == |xs| as real * x
  {
    if xs != [] { SumOfEqual(xs[1..], x); }
  }

  function IntSum(xs: seq<int>): int { if xs == [] then 0 else xs[0] + IntSum(xs[1..]) }

  function IntSquares(xs: seq<int>): int { if xs == [] then 0 else xs[0] * xs[0] + IntSquares(xs[1..]) }

  function AsReals(xs: seq<int>): (rs: seq<real>)
    ensures |rs| == |xs| && forall i :: 0 <= i < |xs| ==> rs[i] == xs[i] as real
  {
    seq(|xs|, i requires 0 <= i < |xs| => xs[i] as real)
  }

  lemma {:induction false} IntegerTotals(xs: seq<int>)
    ensures Sum(AsReals(xs)) == IntSum(xs) as real && SumOfSquares(AsReals(xs)) == IntSquares(xs) as real
  {
    if xs != [] {
      assert AsReals(xs)[1..] == AsReals(xs[1..]);
      IntegerTotals(xs[1..]);
      assert (xs[0] * xs[0]) as real == xs[0] as real * xs[0] as real;
    }
  }

  /** The sample variance about the mean. */
  function Variance(xs: seq<real>): real
    requires |xs| >= 2
  {
    Spread(xs, Mean(xs)) / (|xs| as real - 1.0)
  }

  lemma DeviationOf(xs: seq<int>, a: Value, b: Value, c: Value)
    requires |xs| >= 2
    requires Number(a) == IntSum(xs) as real && Number(b) == IntSquares(xs) as real && Number(c) == |xs| as real
    ensures StdDev(Some(a), Some(b), Some(c)) == Some(Root(KindOf(a), Variance(AsReals(xs))))
  {
    IntegerTotals(xs);
    StdDevIsSampleDeviation(AsReals(xs), a, b, c);
  }

  /** Durations give a duration, whatever kind of whole numbers the other totals are. */
  lemma DeviationOfDurations(xs: seq<int>)
    requires |xs| >= 2
    ensures StdDev(Some(Duration(IntSum(xs))), Some(Int(IntSquares(xs))), Some(Int(|xs|)))
         == Some(Root(AsDuration, Variance(AsReals(xs))))
  {
    DeviationOf(xs, Duration(IntSum(xs)), Int(IntSquares(xs)), Int(|xs|));
  }

  /** Intervals give an interval. */
  lemma DeviationOfIntervals(xs: seq<int>)
    requires |xs| >= 2
    ensures StdDev(Some(Interval(IntSum(xs) as real)), Some(Interval(IntSquares(xs) as real)), Some(Float(|xs| as real)))
         == Some(Root(AsInterval, Variance(AsReals(xs))))
  {
    DeviationOf(xs, Interval(IntSum(xs) as real), Interval(IntSquares(xs) as real), Float(|xs| as real));
  }

  /** Floats and whole numbers give a float. */
  lemma DeviationOfIntegers(xs: seq<int>)
    requires |xs| >= 2
    ensures StdDev(Some(Int(IntSum(xs))), Some(Duration(IntSquares(xs))), Some(Duration(|xs|)))
         == Some(Root(AsFloat, Variance(AsReals(xs))))
  {
    DeviationOf(xs, Int(IntSum(xs)), Duration(IntSquares(xs)), Duration(|xs|));
  }

  lemma DeviationOfFloats(xs: seq<int>)
    requires |xs| >= 2
    ensures StdDev(Some(Float(IntSum(xs) as real)), Some(Float(IntSquares(xs) as real)), Some(Uint(|xs|)))
         == Some(Root(AsFloat, Variance(AsReals(xs))))
  {
    DeviationOf(xs, Float(IntSum(xs) as real), Float(IntSquares(xs) as real), Uint(|xs|));
  }

  lemma DeviationOfUints(xs: seq<int>)
    requires |xs| >= 2 && IntSum(xs) >= 0 && IntSquares(xs) >= 0
    ensures StdDev(Some(Uint(IntSum(xs))), Some(Uint(IntSquares(xs))), Some(Interval(|xs| as real)))
         == Some(Root(AsFloat, Variance(AsReals(xs))))
  {
    DeviationOf(xs, Uint(IntSum(xs)), Uint(IntSquares(xs)), Interval(|xs| as real));
  }

  /** A missing input, a count of another kind, or one sample at most: no result. */
  lemma NoDeviation(a: Option<Value>, b: Option<Value>, n: int)
    requires n <= 1
    ensures StdDev(None, a, b) == StdDev(a, None, b) == StdDev(a, b, None) == None
    ensures StdDev(a, b, Some(Other)) == StdDev(a, b, Some(Int(n))) == StdDev(a, b, Some(Duration(n))) == None
  {
  }

  /** Whatever the inputs, a result exists exactly when they could be totals of more than one
      sample: C above one and C*B at least A*A. */
  lemma StdDevExistsIff(a: Value, b: Value, c: Value)
    ensures StdDev(Some(a), Some(b), Some(c)).Some? <==>
              Number(c) > 1.0 && Number(c) * Number(b) >= Number(a) * Number(a)
  {
    if Number(c) > 1.0 { RadicandSign(Number(a), Number(b), Number(c)); }
  }

  lemma RadicandSign(A: real, B: real, C: real)
    requires C > 1.0
    ensures Radicand(A, B, C) < 0.0 <==> C * B < A * A
  {
    Positive(C, C - 1.0);
    QuotientSign(C * B - A * A, C * (C - 1.0));
  }
}
