/** Spearman's rank correlation, computed from squared rank differences. */
module Spearman {
  import opened RankStatistics
  import opened Sequences
  import opened Wrappers

  function Square(x: int): int { x * x }

  lemma SquareSign(x: int)
    ensures Square(x) >= 0 && (Square(x) == 0 <==> x == 0)
  {
  }

  // ---------------------------------------------------------------------------
  // Sums of number sequences
  // ---------------------------------------------------------------------------

  ghost function Sum(s: seq<int>): int {
    if s == [] then 0 else Sum(s[..|s| - 1]) + s[|s| - 1]
  }

  lemma {:induction false} SumPointwise(a: seq<int>, b: seq<int>, c: seq<int>, d: seq<int>, e: seq<int>)
    requires |a| == |b| == |c| == |d| == |e|
    requires forall i :: 0 <= i < |a| ==> a[i] + b[i] == c[i] + d[i] + e[i]
    ensures Sum(a) + Sum(b) == Sum(c) + Sum(d) + Sum(e)
  {
    if a != [] {
      var n := |a| - 1;
      SumPointwise(a[..n], b[..n], c[..n], d[..n], e[..n]);
    }
  }

  lemma {:induction false} SumNonNegative(s: seq<int>)
    requires forall i :: 0 <= i < |s| ==> s[i] >= 0
    ensures Sum(s) >= 0 && (Sum(s) == 0 <==> forall i :: 0 <= i < |s| ==> s[i] == 0)
  {
    if s != [] {
      SumNonNegative(s[..|s| - 1]);
    }
  }

  ghost function Constant(n: nat, c: int): (s: seq<int>)
    ensures |s| == n && forall i :: 0 <= i < n ==> s[i] == c
  {
    seq(n, _ => c)
  }

  lemma Distribute(n: int, c: int)
    ensures (n + 1) * c == n * c + c
  {
  }

  lemma {:induction false} SumConstant(n: nat, c: int)
    ensures Sum(Constant(n, c)) == n * c
  {
    if n > 0 {
      SumConstant(n - 1, c);
      assert Constant(n, c)[..n - 1] == Constant(n - 1, c);
      Distribute(n - 1, c);
    }
  }

  ghost function Applied(f: int -> int, s: seq<int>): (r: seq<int>)
    ensures |r| == |s| && forall i :: 0 <= i < |s| ==> r[i] == f(s[i])
  {
    seq(|s|, i requires 0 <= i < |s| => f(s[i]))
  }

  lemma {:induction false} SumByIsSum(f: int -> int, s: seq<int>)
    ensures SumBy(f, s) == Sum(Applied(f, s))
  {
    if s != [] {
      var n := |s| - 1;
      SumByIsSum(f, s[..n]);
      assert s == s[..n] + [s[n]] && [s[n]][1..] == [];
      SumByAppend(f, s[..n], [s[n]]);
      assert Applied(f, s)[..n] == Applied(f, s[..n]);
    }
  }

  // ---------------------------------------------------------------------------
  // Rankings
  // ---------------------------------------------------------------------------

  /** The numbers below n, in order. */
  ghost function Iota(n: nat): (s: seq<int>)
    ensures |s| == n && forall i :: 0 <= i < n ==> s[i] == i
  {
    seq(n, i => i)
  }

  /** Ranks are a rearrangement of 0 .. n-1. */
  ghost predicate IsRanking(p: seq<int>) {
    multiset(p) == multiset(Iota(|p|))
  }

  ghost function Differences(p: seq<int>): (s: seq<int>)
    ensures |s| == |p| && forall i :: 0 <= i < |p| ==> s[i] == Square(i - p[i])
  {
    seq(|p|, i requires 0 <= i < |p| => Square(i - p[i]))
  }

  /** Squared distances from the reversed ranking, with m the largest rank. */
  ghost function Reversals(p: seq<int>, m: int): (s: seq<int>)
    ensures |s| == |p| && forall i :: 0 <= i < |p| ==> s[i] == Square(i + p[i] - m)
  {
    seq(|p|, i requires 0 <= i < |p| => Square(i + p[i] - m))
  }

  /** Sum of the squared differences between position and rank. */
  ghost function Differential(p: seq<int>): int {
    Sum(Differences(p))
  }

  ghost function Reversal(p: seq<int>): int {
    Sum(Reversals(p, |p| - 1))
  }

  ghost function Moment(m: int): int -> int {
    x => 2 * x * x - 2 * m * x
  }

  lemma Expand(i: int, p: int, m: int)
    ensures Square(i - p) + Square(i + p - m) == Moment(m)(i) + Moment(m)(p) + Square(m)
  {
  }

  /** The two distances trade off: together they depend only on which ranks occur. */
  lemma Parallelogram(p: seq<int>, m: int)
    ensures Sum(Differences(p)) + Sum(Reversals(p, m))
            == Sum(Applied(Moment(m), Iota(|p|))) + Sum(Applied(Moment(m), p)) + Sum(Constant(|p|, Square(m)))
  {
    var a, b := Differences(p), Reversals(p, m);
    var c, d, e := Applied(Moment(m), Iota(|p|)), Applied(Moment(m), p), Constant(|p|, Square(m));
    forall i | 0 <= i < |p| ensures a[i] + b[i] == c[i] + d[i] + e[i] {
      Expand(i, p[i], m);
    }
    SumPointwise(a, b, c, d, e);
  }

  /** The moments of 0 .. n-1 in closed form. */
  lemma {:induction false} MomentSum(n: nat, m: int)
    ensures 3 * Sum(Applied(Moment(m), Iota(n))) == n * (n - 1) * (2 * n - 1) - 3 * m * (n * (n - 1))
  {
    if n > 0 {
      MomentSum(n - 1, m);
      assert Applied(Moment(m), Iota(n))[..n - 1] == Applied(Moment(m), Iota(n - 1));
      MomentStep(n, m);
    }
  }

  lemma MomentStep(n: int, m: int)
    ensures n * (n - 1) * (2 * n - 1) - 3 * m * (n * (n - 1))
            == (n - 1) * (n - 2) * (2 * n - 3) - 3 * m * ((n - 1) * (n - 2)) + 3 * (2 * (n - 1) * (n - 1) - 2 * m * (n - 1))
  {
  }

  lemma ClosedForm(n: int, x: int, y: int)
    requires 3 * x == n * (n - 1) * (2 * n - 1) - 3 * (n - 1) * (n * (n - 1)) && y == n * Square(n - 1)
    ensures 3 * (x + x + y) == n * n * n - n
  {
    assert 2 * (n * (n - 1) * (2 * n - 1) - 3 * (n - 1) * (n * (n - 1))) + 3 * (n * ((n - 1) * (n - 1))) == n * n * n - n;
  }

  /** For every ranking the squared differences and the distance from reversal share
      (n^3 - n) / 3 between them. */
  lemma SharedTotal(p: seq<int>)
    requires IsRanking(p)
    ensures 3 * (Differential(p) + Reversal(p)) == |p| * |p| * |p| - |p|
  {
    var n, m := |p|, |p| - 1;
    Parallelogram(p, m);
    SumByPermutation(Moment(m), p, Iota(n));
    SumByIsSum(Moment(m), p);
    SumByIsSum(Moment(m), Iota(n));
    MomentSum(n, m);
    SumConstant(n, Square(m));
    ClosedForm(n, Sum(Applied(Moment(m), Iota(n))), Sum(Constant(n, Square(m))));
  }

  /** Zero differences: every object has the same rank in both orders. */
  lemma DifferentialZero(p: seq<int>)
    ensures Differential(p) >= 0
    ensures Differential(p) == 0 <==> forall i :: 0 <= i < |p| ==> p[i] == i
  {
    var s := Differences(p);
    forall i | 0 <= i < |p| ensures s[i] >= 0 && (s[i] == 0 <==> p[i] == i) {
      SquareSign(i - p[i]);
    }
    SumNonNegative(s);
    assert (forall i :: 0 <= i < |p| ==> p[i] == i) <==> forall i :: 0 <= i < |p| ==> s[i] == 0;
  }

  lemma ReversalZero(p: seq<int>)
    ensures Reversal(p) >= 0
    ensures Reversal(p) == 0 <==> forall i :: 0 <= i < |p| ==> p[i] == |p| - 1 - i
  {
    var s := Reversals(p, |p| - 1);
    forall i | 0 <= i < |p| ensures s[i] >= 0 && (s[i] == 0 <==> p[i] == |p| - 1 - i) {
      SquareSign(i + p[i] - (|p| - 1));
    }
    SumNonNegative(s);
    assert (forall i :: 0 <= i < |p| ==> p[i] == |p| - 1 - i) <==> forall i :: 0 <= i < |p| ==> s[i] == 0;
  }

  // ---------------------------------------------------------------------------
  // The coefficient
  // ---------------------------------------------------------------------------

  lemma CubeExceeds(n: nat)
    requires n >= 2
    ensures n * n * n - n > 0
  {
    assert n * n >= 4;
    assert n * n * n == n * (n * n);
  }

  /** The coefficient for n objects and the given sum; it is not a number for n < 2. */
  function Coefficient(n: nat, differential: int): Option<real> {
    if n < 2 then None
    else
      CubeExceeds(n);
      Some(1.0 - 6.0 * differential as real / (n * n * n - n) as real)
  }

  /** It is 1 for the sum 0 and falls by the same amount with every further unit of the sum. */
  lemma CoefficientAffine(n: nat, d: int, e: int)
    requires n >= 2
    ensures Coefficient(n, d).Some? && Coefficient(n, 0) == Some(1.0)
    ensures Coefficient(n, d + 1).value - Coefficient(n, d).value
         == Coefficient(n, e + 1).value - Coefficient(n, e).value < 0.0
  {
    CubeExceeds(n);
    var t := (n * n * n - n) as real;
    UnitStep(d as real, t);
    UnitStep(e as real, t);
    assert (d + 1) as real == d as real + 1.0 && (e + 1) as real == e as real + 1.0;
  }

  lemma UnitStep(d: real, t: real)
    requires t > 0.0
    ensures 6.0 * (d + 1.0) / t == 6.0 * d / t + 6.0 / t && 6.0 / t > 0.0
  {
  }

  lemma Quotient(d: real, t: real)
    requires t > 0.0 && 0.0 <= 3.0 * d <= t
    ensures 0.0 <= 6.0 * d / t <= 2.0
    ensures 6.0 * d / t == 0.0 <==> d == 0.0
    ensures 6.0 * d / t == 2.0 <==> 3.0 * d == t
  {
    var q := 6.0 * d / t;
    assert q * t == 6.0 * d;
  }

  /** For at least two objects the coefficient lies between -1 and 1. It is 1 exactly if both
      orders agree, and -1 exactly if one is the other reversed. */
  lemma CoefficientRange(p: seq<int>)
    requires IsRanking(p) && |p| >= 2
    ensures var c := Coefficient(|p|, Differential(p));
            && c.Some? && -1.0 <= c.value <= 1.0
            && (c.value == 1.0 <==> forall i :: 0 <= i < |p| ==> p[i] == i)
            && (c.value == -1.0 <==> forall i :: 0 <= i < |p| ==> p[i] == |p| - 1 - i)
  {
    SharedTotal(p);
    DifferentialZero(p);
    ReversalZero(p);
    CubeExceeds(|p|);
    Quotient(Differential(p) as real, (|p| * |p| * |p| - |p|) as real);
  }

  // ---------------------------------------------------------------------------
  // SpearmanRank
  // ---------------------------------------------------------------------------

  ghost function Ranks<T>(pairs: seq<(T, int)>): (r: seq<int>)
    ensures |r| == |pairs| && forall i :: 0 <= i < |pairs| ==> r[i] == pairs[i].1
  {
    seq(|pairs|, i requires 0 <= i < |pairs| => pairs[i].1)
  }

  function Numbered<T>(objs: seq<T>): (r: seq<(T, int)>)
    ensures |r| == |objs| && forall i :: 0 <= i < |objs| ==> r[i] == (objs[i], i)
  {
    seq(|objs|, i requires 0 <= i < |objs| => (objs[i], i))
  }

  lemma RanksWithout<T>(a: seq<(T, int)>, i: nat)
    requires i < |a|
    ensures Ranks(Without(a, i)) == Without(Ranks(a), i)
  {
  }

  lemma PutBack<T>(a: multiset<T>, b: multiset<T>, x: T)
    requires x in a && x in b && a - multiset{x} == b - multiset{x}
    ensures a == b
  {
    assert a == (a - multiset{x}) + multiset{x} && b == (b - multiset{x}) + multiset{x};
  }

  /** Rearranging numbered objects rearranges their numbers. */
  lemma {:induction false} RanksPermutation<T>(a: seq<(T, int)>, b: seq<(T, int)>)
    requires multiset(a) == multiset(b)
    ensures multiset(Ranks(a)) == multiset(Ranks(b))
    decreases |a|
  {
    SameSize(a, b);
    if a != [] {
      assert a[0] in multiset(b);
      var i :| 0 <= i < |b| && b[i] == a[0];
      WithoutMultiset(a, 0);
      WithoutMultiset(b, i);
      RanksPermutation(Without(a, 0), Without(b, i));
      RanksWithout(a, 0);
      RanksWithout(b, i);
      WithoutMultiset(Ranks(a), 0);
      WithoutMultiset(Ranks(b), i);
      assert Ranks(b)[i] == a[0].1 == Ranks(a)[0];
      PutBack(multiset(Ranks(a)), multiset(Ranks(b)), a[0].1);
    }
  }

  /** `SpearmanRank`: sort by the left value, number, sort by the right value, and add up the
      squared differences. `pairs` are the numbered objects in their final order. */
  method SpearmanRank<T>(objs: seq<T>, left: T -> real, right: T -> real)
    returns (sorted: seq<T>, pairs: seq<(T, int)>, coefficient: Option<real>)
    ensures multiset(sorted) == multiset(objs) && NonIncreasing(sorted, left)
    ensures multiset(pairs) == multiset(Numbered(sorted)) && NonIncreasing(pairs, (p: (T, int)) => right(p.0))
    ensures IsRanking(Ranks(pairs)) && coefficient == Coefficient(|objs|, Differential(Ranks(pairs)))
    ensures |objs| >= 2 ==> coefficient.Some? && -1.0 <= coefficient.value <= 1.0
    ensures |objs| >= 2 ==> (coefficient.value == 1.0 <==> pairs == Numbered(sorted))
  {
    sorted := SortDescending(objs, left);
    pairs := SortDescending(Numbered(sorted), (p: (T, int)) => right(p.0));
    RanksPermutation(pairs, Numbered(sorted));
    SameSize(sorted, objs);
    SameSize(pairs, Numbered(sorted));
    ghost var ranks := Ranks(pairs);
    assert Ranks(Numbered(sorted)) == Iota(|sorted|);
    var differential := 0;
    for i := 0 to |pairs|
      invariant differential == Sum(Differences(ranks)[..i])
    {
      var d := i - pairs[i].1;
      differential := differential + d * d;
      assert Differences(ranks)[..i + 1][..i] == Differences(ranks)[..i];
    }
    assert Differences(ranks)[..|pairs|] == Differences(ranks);
    coefficient := Coefficient(|objs|, differential);
    if |objs| >= 2 {
      CoefficientRange(ranks);
      AgreesExactlyWhen(sorted, pairs);
    }
  }

  lemma SameSize<T>(a: seq<T>, b: seq<T>)
    requires multiset(a) == multiset(b)
    ensures |a| == |b|
  {
    assert |a| == |multiset(a)| && |b| == |multiset(b)|;
  }

  /** The ranks are in order exactly if sorting by the right value moved nothing. */
  lemma AgreesExactlyWhen<T>(sorted: seq<T>, pairs: seq<(T, int)>)
    requires multiset(pairs) == multiset(Numbered(sorted)) && |pairs| == |sorted|
    ensures (forall i :: 0 <= i < |pairs| ==> Ranks(pairs)[i] == i) <==> pairs == Numbered(sorted)
  {
    if forall i :: 0 <= i < |pairs| ==> Ranks(pairs)[i] == i {
      forall i | 0 <= i < |pairs| ensures pairs[i] == Numbered(sorted)[i] {
        assert pairs[i] in multiset(Numbered(sorted));
        var j :| 0 <= j < |sorted| && Numbered(sorted)[j] == pairs[i];
        assert Ranks(pairs)[i] == i;
      }
    }
  }
}
