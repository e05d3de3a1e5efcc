/** Rank statistics: the area under the ROC curve and Spearman's coefficient.

Scores are real numbers and arithmetic is exact. The original sorts with `std::sort`;
all that is used of it here is that the result is a non-increasing permutation. */
module RankStatistics {
  import opened Sequences

  // ---------------------------------------------------------------------------
  // Sums over permutations
  // ---------------------------------------------------------------------------

  ghost function SumBy<T>(f: T -> int, s: seq<T>): int {
    if s == [] then 0 else f(s[0]) + SumBy(f, s[1..])
  }

  lemma {:induction false} SumByAppend<T>(f: T -> int, a: seq<T>, b: seq<T>)
    ensures SumBy(f, a + b) == SumBy(f, a) + SumBy(f, b)
  {
    if a == [] {
      assert a + b == b;
    } else {
      assert (a + b)[1..] == a[1..] + b;
      SumByAppend(f, a[1..], b);
    }
  }

  lemma {:induction false} SumByWithout<T>(f: T -> int, s: seq<T>, i: nat)
    requires i < |s|
    ensures SumBy(f, s) == f(s[i]) + SumBy(f, Without(s, i))
  {
    if i == 0 {
      assert Without(s, 0) == s[1..];
    } else {
      SumByWithout(f, s[1..], i - 1);
      assert Without(s, i)[1..] == Without(s[1..], i - 1);
    }
  }

  lemma WithoutMultiset<T>(s: seq<T>, i: nat)
    requires i < |s|
    ensures multiset(Without(s, i)) == multiset(s) - multiset{s[i]}
  {
    assert s == s[..i] + [s[i]] + s[i + 1..];
  }

  /** A sum does not depend on the order. */
  lemma {:induction false} SumByPermutation<T>(f: T -> int, a: seq<T>, b: seq<T>)
    requires multiset(a) == multiset(b)
    ensures SumBy(f, a) == SumBy(f, b)
    decreases |a|
  {
    assert |a| == |multiset(a)| && |b| == |multiset(b)|;
    if a != [] {
      assert a[0] in multiset(b);
      var i :| 0 <= i < |b| && b[i] == a[0];
      WithoutMultiset(a, 0);
      WithoutMultiset(b, i);
      SumByWithout(f, a, 0);
      SumByWithout(f, b, i);
      SumByPermutation(f, Without(a, 0), Without(b, i));
    }
  }

  ghost predicate NonIncreasing<T>(s: seq<T>, key: T -> real) {
    forall i, j :: 0 <= i < j < |s| ==> key(s[i]) >= key(s[j])
  }

  /** Stands for `std::sort` with the comparison of the original. */
  method SortDescending<T>(s: seq<T>, key: T -> real) returns (r: seq<T>)
    ensures multiset(r) == multiset(s) && NonIncreasing(r, key)
  {
    r := [];
    for n := 0 to |s|
      invariant multiset(r) == multiset(s[..n]) && NonIncreasing(r, key)
    {
      r := InsertDescending(r, s[n], key);
      assert s[..n + 1] == s[..n] + [s[n]];
    }
    assert s[..|s|] == s;
  }

  method InsertDescending<T>(s: seq<T>, x: T, key: T -> real) returns (r: seq<T>)
    requires NonIncreasing(s, key)
    ensures multiset(r) == multiset(s) + multiset{x} && NonIncreasing(r, key)
  {
    var k := 0;
    while k < |s| && key(s[k]) >= key(x)
      invariant 0 <= k <= |s|
      invariant forall i :: 0 <= i < k ==> key(s[i]) >= key(x)
    {
      k := k + 1;
    }
    r := s[..k] + [x] + s[k..];
    assert s == s[..k] + s[k..];
    InsertedInOrder(s, x, k, key);
  }

  lemma InsertedInOrder<T>(s: seq<T>, x: T, k: nat, key: T -> real)
    requires NonIncreasing(s, key) && k <= |s|
    requires forall i :: 0 <= i < k ==> key(s[i]) >= key(x)
    requires k < |s| ==> key(x) >= key(s[k])
    ensures NonIncreasing(s[..k] + [x] + s[k..], key)
  {
    var r := s[..k] + [x] + s[k..];
    forall i, j | 0 <= i < j < |r| ensures key(r[i]) >= key(r[j]) {
      assert i < k ==> r[i] == s[i];
      assert i > k ==> r[i] == s[i - 1];
      assert j < k ==> r[j] == s[j];
      assert j > k ==> r[j] == s[j - 1];
      assert k < |s| && j - 1 >= k ==> key(s[k]) >= key(s[j - 1]);
    }
  }

  // ---------------------------------------------------------------------------
  // Area under the curve
  // ---------------------------------------------------------------------------

  /** How many of `labels` are `b`. */
  ghost function Count(labels: seq<bool>, b: bool): (n: nat)
    ensures n <= |labels|
  {
    if labels == [] then 0 else (if labels[0] == b then 1 else 0) + Count(labels[1..], b)
  }

  /** Pairs of a positive and a later negative. */
  ghost function PairsAhead(labels: seq<bool>): nat {
    if labels == [] then 0 else PairsAhead(labels[1..]) + if labels[0] then Count(labels[1..], false) else 0
  }

  /** Ranks counted from the end: the first of n has rank n. */
  ghost function RankSum(labels: seq<bool>): nat {
    if labels == [] then 0 else RankSum(labels[1..]) + if labels[0] then |labels| else 0
  }

  lemma {:induction false} CountsAddUp(labels: seq<bool>)
    ensures Count(labels, true) + Count(labels, false) == |labels|
  {
    if labels != [] {
      CountsAddUp(labels[1..]);
    }
  }

  lemma Triangle(p: nat)
    ensures (p + 1) * (p + 2) == p * (p + 1) + 2 * (p + 1)
  {
  }

  /** The rank sum is the triangular number of the positives plus the pairs: the numerator
      of the area is exactly the number of pairs, and so it never underflows. */
  lemma {:induction false} RankSumCountsPairs(labels: seq<bool>)
    ensures 2 * RankSum(labels) == Count(labels, true) * (Count(labels, true) + 1) + 2 * PairsAhead(labels)
  {
    if labels != [] {
      var rest := labels[1..];
      var p, n := Count(rest, true), Count(rest, false);
      RankSumCountsPairs(rest);
      CountsAddUp(rest);
      Triangle(p);
    }
  }

  lemma PairsStep(p: nat, n: nat)
    ensures (p + 1) * n == p * n + n && p * (n + 1) == p * n + p
  {
  }

  lemma {:induction false} PairsBounded(labels: seq<bool>)
    ensures PairsAhead(labels) <= Count(labels, true) * Count(labels, false)
  {
    if labels != [] {
      var rest := labels[1..];
      var p, n := Count(rest, true), Count(rest, false);
      PairsBounded(rest);
      PairsStep(p, n);
    }
  }

  /** The pairs, as positions: a positive and a negative behind it. */
  ghost function PairSet(labels: seq<bool>): set<(int, int)> {
    set i, j | 0 <= i < |labels| && 0 <= j < |labels| && i < j && labels[i] && !labels[j] :: (i, j)
  }

  ghost function NegativesFrom(labels: seq<bool>, k: nat): set<(int, int)> {
    set j | k <= j < |labels| && !labels[j] :: (0, j)
  }

  lemma {:induction false} CountNegatives(labels: seq<bool>, k: nat)
    requires k <= |labels|
    ensures |NegativesFrom(labels, k)| == Count(labels[k..], false)
    decreases |labels| - k
  {
    if k == |labels| {
      assert NegativesFrom(labels, k) == {};
    } else {
      CountNegatives(labels, k + 1);
      assert labels[k..][1..] == labels[k + 1..];
      if labels[k] {
        assert NegativesFrom(labels, k) == NegativesFrom(labels, k + 1);
      } else {
        assert NegativesFrom(labels, k) == NegativesFrom(labels, k + 1) + {(0, k)};
      }
    }
  }

  ghost function Shifted(s: set<(int, int)>): set<(int, int)> {
    set p | p in s :: (p.0 + 1, p.1 + 1)
  }

  lemma {:induction false} ShiftedSize(s: set<(int, int)>)
    ensures |Shifted(s)| == |s|
    decreases |s|
  {
    if s != {} {
      var p :| p in s;
      var rest := s - {p};
      ShiftedSize(rest);
      assert Shifted(s) == Shifted(rest) + {(p.0 + 1, p.1 + 1)};
      assert (p.0 + 1, p.1 + 1) !in Shifted(rest);
    }
  }

  /** `PairsAhead` counts exactly the pairs of positions. */
  lemma {:induction false} PairsAheadCounts(labels: seq<bool>)
    ensures PairsAhead(labels) == |PairSet(labels)|
  {
    if labels == [] {
      assert PairSet(labels) == {};
    } else {
      var rest := labels[1..];
      var later := Shifted(PairSet(rest));
      var first := if labels[0] then NegativesFrom(labels, 1) else {};
      PairsAheadCounts(rest);
      ShiftedSize(PairSet(rest));
      CountNegatives(labels, 1);
      PairSetSplit(labels);
    }
  }

  lemma PairsWithin(labels: seq<bool>)
    requires labels != []
    ensures Shifted(PairSet(labels[1..])) <= PairSet(labels)
  {
    var rest := labels[1..];
    forall p | p in Shifted(PairSet(rest)) ensures p in PairSet(labels) {
      var q :| q in PairSet(rest) && p == (q.0 + 1, q.1 + 1);
      assert rest[q.0] == labels[p.0] && rest[q.1] == labels[p.1];
    }
  }

  lemma PairsCovered(labels: seq<bool>, p: (int, int))
    requires labels != [] && p in PairSet(labels)
    ensures p.0 == 0 || p in Shifted(PairSet(labels[1..]))
  {
    if p.0 > 0 {
      assert (p.0 - 1, p.1 - 1) in PairSet(labels[1..]);
    }
  }

  lemma PairSetSplit(labels: seq<bool>)
    requires labels != []
    ensures var later, first := Shifted(PairSet(labels[1..])), if labels[0] then NegativesFrom(labels, 1) else {};
            PairSet(labels) == later + first && later !! first
  {
    PairsWithin(labels);
    forall p | p in PairSet(labels) ensures p.0 == 0 || p in Shifted(PairSet(labels[1..])) {
      PairsCovered(labels, p);
    }
  }

  ghost function Labels<T>(s: seq<T>, truth: T -> bool): (l: seq<bool>)
    ensures |l| == |s| && forall i :: 0 <= i < |s| ==> l[i] == truth(s[i])
  {
    if s == [] then [] else [truth(s[0])] + Labels(s[1..], truth)
  }

  /** The counting loop of `AucCompute`, on objects in their final order. */
  method CountRanks<T>(objs: seq<T>, truth: T -> bool) returns (positives: nat, negatives: nat, rankSum: nat)
    ensures var l := Labels(objs, truth);
            positives == Count(l, true) && negatives == Count(l, false) && rankSum == RankSum(l)
  {
    positives, negatives, rankSum := 0, 0, 0;
    ghost var l := Labels(objs, truth);
    for i := 0 to |objs|
      invariant positives + Count(l[i..], true) == Count(l, true)
      invariant negatives + Count(l[i..], false) == Count(l, false)
      invariant rankSum + RankSum(l[i..]) == RankSum(l)
    {
      assert l[i..][1..] == l[i + 1..] && l[i..][0] == truth(objs[i]);
      if truth(objs[i]) {
        positives := positives + 1;
        rankSum := rankSum + (|objs| - i);
      } else {
        negatives := negatives + 1;
      }
    }
  }

  lemma HalfTriangle(t: int, rankSum: int, pairs: int)
    requires 2 * rankSum == t + 2 * pairs
    ensures rankSum - t / 2 == pairs
  {
  }

  /** `AucCompute`: the sorted objects, and the numerator and denominator of the area.
      The second form of the original differs only in how it is told to sort. */
  method AucCompute<T>(objs: seq<T>, score: T -> real, truth: T -> bool)
    returns (sorted: seq<T>, numerator: int, denominator: nat)
    ensures multiset(sorted) == multiset(objs) && NonIncreasing(sorted, score)
    ensures numerator == |PairSet(Labels(sorted, truth))|
    ensures 0 <= numerator <= denominator
    ensures denominator == Count(Labels(sorted, truth), true) * Count(Labels(sorted, truth), false)
  {
    sorted := SortDescending(objs, score);
    var p, n, rankSum := CountRanks(sorted, truth);
    ghost var l := Labels(sorted, truth);
    RankSumCountsPairs(l);
    PairsAheadCounts(l);
    PairsBounded(l);
    numerator := rankSum - p * (p + 1) / 2;
    denominator := p * n;
    HalfTriangle(p * (p + 1), rankSum, PairsAhead(l));
  }

  /** Number of negatives in `others` that `x` beats by score. */
  ghost function Beaten<T>(x: T, score: T -> real, truth: T -> bool): T -> int {
    y => if !truth(y) && score(x) > score(y) then 1 else 0
  }

  ghost function Wins<T>(others: seq<T>, score: T -> real, truth: T -> bool): T -> int {
    x => if truth(x) then SumBy(Beaten(x, score, truth), others) else 0
  }

  /** Pairs of a positive and a negative in which the positive has the higher score,
      whatever the order of the objects. */
  ghost function WonPairs<T>(objs: seq<T>, score: T -> real, truth: T -> bool): int {
    SumBy(Wins(objs, score, truth), objs)
  }

  lemma {:induction false} SumBySame<T>(f: T -> int, g: T -> int, s: seq<T>)
    requires forall i :: 0 <= i < |s| ==> f(s[i]) == g(s[i])
    ensures SumBy(f, s) == SumBy(g, s)
  {
    if s != [] {
      SumBySame(f, g, s[1..]);
    }
  }

  lemma WonPairsPermutation<T>(a: seq<T>, b: seq<T>, score: T -> real, truth: T -> bool)
    requires multiset(a) == multiset(b)
    ensures WonPairs(a, score, truth) == WonPairs(b, score, truth)
  {
    forall i | 0 <= i < |b| ensures Wins(a, score, truth)(b[i]) == Wins(b, score, truth)(b[i]) {
      SumByPermutation(Beaten(b[i], score, truth), a, b);
    }
    SumBySame(Wins(a, score, truth), Wins(b, score, truth), b);
    SumByPermutation(Wins(a, score, truth), a, b);
  }

  /** No positive has the same score as a negative. */
  ghost predicate NoTies<T(!new)>(objs: seq<T>, score: T -> real, truth: T -> bool) {
    forall i, j :: 0 <= i < |objs| && 0 <= j < |objs| && truth(objs[i]) && !truth(objs[j]) ==> score(objs[i]) != score(objs[j])
  }

  /** The first of sorted objects beats every negative behind it. */
  lemma {:induction false} FirstBeatsAll<T(!new)>(x: T, s: seq<T>, score: T -> real, truth: T -> bool)
    requires forall i :: 0 <= i < |s| && !truth(s[i]) ==> score(x) > score(s[i])
    ensures SumBy(Beaten(x, score, truth), s) == Count(Labels(s, truth), false)
  {
    if s != [] {
      FirstBeatsAll(x, s[1..], score, truth);
      assert Labels(s, truth)[1..] == Labels(s[1..], truth);
    }
  }

  /** Nobody behind beats the first of sorted objects. */
  lemma {:induction false} WinsWithoutFirst<T(!new)>(h: T, t: seq<T>, s: seq<T>, score: T -> real, truth: T -> bool)
    requires forall i :: 0 <= i < |s| ==> score(h) >= score(s[i])
    ensures SumBy(Wins([h] + t, score, truth), s) == SumBy(Wins(t, score, truth), s)
  {
    if s != [] {
      assert ([h] + t)[1..] == t;
      WinsWithoutFirst(h, t, s[1..], score, truth);
    }
  }

  /** On sorted objects without ties, position pairs are score pairs. */
  lemma {:induction false} SortedPairsAreWon<T(!new)>(s: seq<T>, score: T -> real, truth: T -> bool)
    requires NonIncreasing(s, score) && NoTies(s, score, truth)
    ensures PairsAhead(Labels(s, truth)) == WonPairs(s, score, truth)
  {
    if s != [] {
      var h, t := s[0], s[1..];
      assert s == [h] + t;
      assert Labels(s, truth)[1..] == Labels(t, truth);
      SortedPairsAreWon(t, score, truth);
      WinsWithoutFirst(h, t, t, score, truth);
      if truth(h) {
        assert SumBy(Beaten(h, score, truth), s) == SumBy(Beaten(h, score, truth), t);
        FirstBeatsAll(h, t, score, truth);
      }
    }
  }

  /** Without ties between a positive and a negative the numerator does not depend on the
      order of the input, nor on how the sort treats equal scores. */
  lemma AucIndependentOfOrder<T(!new)>(a: seq<T>, b: seq<T>, score: T -> real, truth: T -> bool)
    requires multiset(a) == multiset(b)
    requires NonIncreasing(a, score) && NonIncreasing(b, score) && NoTies(a, score, truth)
    ensures |PairSet(Labels(a, truth))| == |PairSet(Labels(b, truth))| == WonPairs(a, score, truth)
  {
    forall k | 0 <= k < |b| ensures exists i :: 0 <= i < |a| && a[i] == b[k] {
      assert b[k] in multiset(a);
    }
    SortedPairsAreWon(a, score, truth);
    SortedPairsAreWon(b, score, truth);
    WonPairsPermutation(a, b, score, truth);
    PairsAheadCounts(Labels(a, truth));
    PairsAheadCounts(Labels(b, truth));
  }

  ghost function Swapped<T>(s: seq<T>, k: nat): seq<T>
    requires k + 1 < |s|
  {
    s[k := s[k + 1]][k + 1 := s[k]]
  }

  lemma SwappedRest<T>(s: seq<T>, k: nat)
    requires 0 < k && k + 1 < |s|
    ensures Swapped(s, k)[1..] == Swapped(s[1..], k - 1)
  {
  }

  lemma SwappedLabels<T>(s: seq<T>, k: nat, truth: T -> bool)
    requires k + 1 < |s|
    ensures Labels(Swapped(s, k), truth) == Swapped(Labels(s, truth), k)
  {
    SameLabels(Swapped(s, k), truth, Swapped(Labels(s, truth), k));
  }

  lemma SameLabels<T>(s: seq<T>, truth: T -> bool, l: seq<bool>)
    requires |l| == |s| && forall i :: 0 <= i < |s| ==> l[i] == truth(s[i])
    ensures Labels(s, truth) == l
  {
  }

  lemma SwapFirst(l: seq<bool>)
    requires |l| >= 2
    ensures Count(Swapped(l, 0), false) == Count(l, false)
    ensures l[0] != l[1] ==> PairsAhead(Swapped(l, 0)) == PairsAhead(l) + if l[0] then -1 else 1
  {
    var r, rest := Swapped(l, 0), l[2..];
    assert l[1..] == [l[1]] + rest && r[1..] == [l[0]] + rest;
    assert l[1..][1..] == rest && r[1..][1..] == rest;
  }

  /** Swapping two neighbours with different labels changes the number of pairs by one. */
  lemma {:induction false} SwapChangesPairs(l: seq<bool>, k: nat)
    requires k + 1 < |l|
    ensures Count(Swapped(l, k), false) == Count(l, false)
    ensures l[k] != l[k + 1] ==> PairsAhead(Swapped(l, k)) == PairsAhead(l) + if l[k] then -1 else 1
  {
    if k == 0 {
      SwapFirst(l);
    } else {
      SwappedRest(l, k);
      SwapChangesPairs(l[1..], k - 1);
    }
  }

  /** Two different labels have neighbours with different labels between them. */
  lemma {:induction false} LabelsTurn(l: seq<bool>, i: nat, j: nat) returns (k: nat)
    requires i < j < |l| && l[i] != l[j]
    ensures i <= k < j && l[k] != l[k + 1]
    decreases j - i
  {
    if l[i] != l[i + 1] {
      k := i;
    } else {
      k := LabelsTurn(l, i + 1, j);
    }
  }

  lemma SwappedPermutes<T>(s: seq<T>, k: nat)
    requires k + 1 < |s|
    ensures multiset(Swapped(s, k)) == multiset(s)
  {
    var front, back := s[..k], s[k + 2..];
    assert s == front + [s[k]] + [s[k + 1]] + back;
    assert Swapped(s, k) == front + [s[k + 1]] + [s[k]] + back;
  }

  lemma SwappedInOrder<T>(s: seq<T>, k: nat, key: T -> real)
    requires k + 1 < |s| && NonIncreasing(s, key) && key(s[k]) == key(s[k + 1])
    ensures NonIncreasing(Swapped(s, k), key)
  {
    var r := Swapped(s, k);
    assert forall i :: 0 <= i < |s| ==> key(r[i]) == key(s[i]);
  }

  /** With a tie there is another order the sort may produce, and it gives another numerator. */
  lemma TiesShow<T(!new)>(a: seq<T>, score: T -> real, truth: T -> bool) returns (b: seq<T>)
    requires NonIncreasing(a, score) && !NoTies(a, score, truth)
    ensures multiset(b) == multiset(a) && NonIncreasing(b, score)
    ensures |PairSet(Labels(b, truth))| != |PairSet(Labels(a, truth))|
  {
    var i, j :| 0 <= i < |a| && 0 <= j < |a| && truth(a[i]) && !truth(a[j]) && score(a[i]) == score(a[j]);
    var lo, hi := if i < j then i else j, if i < j then j else i;
    var k := LabelsTurn(Labels(a, truth), lo, hi);
    EqualBetween(a, score, lo, hi, k);
    b := Swapped(a, k);
    SwappedPermutes(a, k);
    SwappedInOrder(a, k, score);
    SwapShows(a, k, truth);
  }

  lemma EqualBetween<T>(a: seq<T>, key: T -> real, lo: nat, hi: nat, k: nat)
    requires NonIncreasing(a, key) && lo <= k < hi < |a| && key(a[lo]) == key(a[hi])
    ensures key(a[k]) == key(a[k + 1])
  {
    assert lo < k ==> key(a[lo]) >= key(a[k]);
    assert k + 1 < hi ==> key(a[k + 1]) >= key(a[hi]);
  }

  lemma SwapShows<T>(a: seq<T>, k: nat, truth: T -> bool)
    requires k + 1 < |a| && truth(a[k]) != truth(a[k + 1])
    ensures |PairSet(Labels(Swapped(a, k), truth))| != |PairSet(Labels(a, truth))|
  {
    SwappedLabels(a, k, truth);
    SwapChangesPairs(Labels(a, truth), k);
    PairsAheadCounts(Labels(a, truth));
    PairsAheadCounts(Swapped(Labels(a, truth), k));
  }

  /** The numerator is the same for every order the sort may produce exactly if no positive has
      the score of a negative. */
  lemma AucDeterminedExactlyWhen<T(!new)>(a: seq<T>, score: T -> real, truth: T -> bool)
    requires NonIncreasing(a, score)
    ensures NoTies(a, score, truth) <==>
            forall b | multiset(b) == multiset(a) && NonIncreasing(b, score) ::
              |PairSet(Labels(b, truth))| == |PairSet(Labels(a, truth))|
  {
    if NoTies(a, score, truth) {
      forall b | multiset(b) == multiset(a) && NonIncreasing(b, score)
        ensures |PairSet(Labels(b, truth))| == |PairSet(Labels(a, truth))|
      {
        AucIndependentOfOrder(a, b, score, truth);
      }
    } else {
      var b := TiesShow(a, score, truth);
    }
  }
}
