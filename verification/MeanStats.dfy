/** Sliding-window minimum, maximum, count and average over the same kind of ring. */
module WindowMeans {
  import opened WindowCounting

  /** `StatsItem`: all zero when nothing was recorded. */
  datatype Item = Item(cnt: int, min: int, max: int, sum: int)

  const EMPTY: Item := Item(0, 0, 0, 0)

  function Single(value: int): Item { Item(1, value, value, value) }

  function Updated(item: Item, value: int): Item {
    Item(item.cnt + 1, Min(value, item.min), Max(value, item.max), item.sum + value)
  }

  function Merged(a: Item, b: Item): Item {
    Item(a.cnt + b.cnt, Min(a.min, b.min), Max(a.max, b.max), a.sum + b.sum)
  }

  /** One more sample. */
  function Extended(item: Item, value: int): Item {
    if item.cnt == 0 then Single(value) else Updated(item, value)
  }

  /** Integer division of the original, towards zero. */
  function TruncatedDiv(a: int, b: int): int
    requires b != 0
  {
    if a >= 0 then a / b else -((-a) / b)
  }

  /** What the samples with a time in [lo, hi] amount to. */
  ghost function Stats(log: seq<Sample>, lo: int, hi: int): (r: Item)
    ensures r.cnt >= 0 && (r.cnt == 0 ==> r == EMPTY) && (r.cnt > 0 ==> r.min <= r.max)
  {
    if log == [] then EMPTY else
    var front, s := Stats(log[..|log| - 1], lo, hi), log[|log| - 1];
    if lo <= s.time <= hi then Extended(front, s.value) else front
  }

  // ---------------------------------------------------------------------------
  // The meaning of Stats
  // ---------------------------------------------------------------------------

  /** The sum is the one that is counted, and minimum and maximum are bounds that occur. */
  lemma {:induction false} StatsMeaning(log: seq<Sample>, lo: int, hi: int)
    ensures Stats(log, lo, hi).sum == SumIn(log, lo, hi)
    ensures forall i :: 0 <= i < |log| && lo <= log[i].time <= hi ==>
              Stats(log, lo, hi).cnt > 0 && Stats(log, lo, hi).min <= log[i].value <= Stats(log, lo, hi).max
    ensures Stats(log, lo, hi).cnt > 0 ==>
              && (exists i :: 0 <= i < |log| && lo <= log[i].time <= hi && log[i].value == Stats(log, lo, hi).min)
              && (exists i :: 0 <= i < |log| && lo <= log[i].time <= hi && log[i].value == Stats(log, lo, hi).max)
  {
    if log != [] {
      var front := log[..|log| - 1];
      StatsMeaning(front, lo, hi);
      var s, r, q := log[|log| - 1], Stats(log, lo, hi), Stats(front, lo, hi);
      if q.cnt > 0 {
        var i :| 0 <= i < |front| && lo <= front[i].time <= hi && front[i].value == q.min;
        var j :| 0 <= j < |front| && lo <= front[j].time <= hi && front[j].value == q.max;
        assert log[i] == front[i] && log[j] == front[j];
      }
      if lo <= s.time <= hi {
        assert log[|log| - 1].value == s.value;
      }
    }
  }

  /** The count is the number of samples in the range. */
  lemma {:induction false} StatsCount(log: seq<Sample>, lo: int, hi: int)
    ensures Stats(log, lo, hi).cnt == |set i | 0 <= i < |log| && lo <= log[i].time <= hi|
  {
    var all := set i | 0 <= i < |log| && lo <= log[i].time <= hi;
    if log != [] {
      var front, n := log[..|log| - 1], |log| - 1;
      StatsCount(front, lo, hi);
      var rest := set i | 0 <= i < |front| && lo <= front[i].time <= hi;
      if lo <= log[n].time <= hi {
        assert all == rest + {n};
      } else {
        assert all == rest;
      }
    } else {
      assert all == {};
    }
  }

  lemma StatsSnoc(log: seq<Sample>, s: Sample, lo: int, hi: int)
    ensures Stats(log + [s], lo, hi) ==
            if lo <= s.time <= hi then Extended(Stats(log, lo, hi), s.value) else Stats(log, lo, hi)
  {
    assert (log + [s])[..|log|] == log;
  }

  /** Two adjacent ranges merge, with an empty one left out. */
  lemma {:induction false} StatsSplit(log: seq<Sample>, lo: int, mid: int, hi: int)
    requires lo <= mid + 1 && mid <= hi
    ensures var a, b, c := Stats(log, lo, mid), Stats(log, mid + 1, hi), Stats(log, lo, hi);
            c == if a.cnt == 0 then b else if b.cnt == 0 then a else Merged(a, b)
  {
    if log != [] {
      StatsSplit(log[..|log| - 1], lo, mid, hi);
    }
  }

  lemma {:induction false} StatsSame(log: seq<Sample>, lo: int, hi: int, lo': int, hi': int)
    requires forall i :: 0 <= i < |log| ==> (lo <= log[i].time <= hi <==> lo' <= log[i].time <= hi')
    ensures Stats(log, lo, hi) == Stats(log, lo', hi')
  {
    if log != [] {
      StatsSame(log[..|log| - 1], lo, hi, lo', hi');
    }
  }

  lemma {:induction false} StatsEmpty(log: seq<Sample>, lo: int, hi: int)
    requires forall i :: 0 <= i < |log| ==> !(lo <= log[i].time <= hi)
    ensures Stats(log, lo, hi) == EMPTY
  {
    if log != [] {
      StatsEmpty(log[..|log| - 1], lo, hi);
    }
  }

  lemma SecondsSnoc(log: seq<Sample>, s: Sample)
    ensures forall t :: t != s.time ==> Stats(log + [s], t, t) == Stats(log, t, t)
    ensures Stats(log + [s], s.time, s.time) == Extended(Stats(log, s.time, s.time), s.value)
  {
    forall t ensures t != s.time ==> Stats(log + [s], t, t) == Stats(log, t, t) {
      StatsSnoc(log, s, t, t);
    }
    StatsSnoc(log, s, s.time, s.time);
  }

  lemma SecondsEmptyStats(log: seq<Sample>, from: int, until: int)
    requires forall i :: 0 <= i < |log| ==> log[i].time < from
    ensures forall t :: from <= t <= until ==> Stats(log, t, t) == EMPTY
  {
    forall t | from <= t <= until ensures Stats(log, t, t) == EMPTY {
      StatsEmpty(log, t, t);
    }
  }

  /** The quotient times the divisor falls short of the dividend by less than the divisor, on the
      side of zero. */
  lemma TruncatedTowardsZero(a: int, b: int)
    requires b > 0
    ensures var q := TruncatedDiv(a, b);
            if a >= 0 then 0 <= q * b <= a < q * b + b else q * b - b < a <= q * b <= 0
  {
    if a >= 0 {
      QuotientBounds(a, b);
    } else {
      QuotientBounds(-a, b);
      NegatedProduct((-a) / b, b);
    }
  }

  lemma QuotientBounds(m: nat, b: nat)
    requires b > 0
    ensures 0 <= m / b * b <= m < m / b * b + b
  {
    assert m == m / b * b + m % b;
  }

  lemma NegatedProduct(q: int, b: int)
    ensures (-q) * b == -(q * b)
  {
  }

  datatype Period = Period(min: int, max: int, count: int, average: int)

  /** `PeriodMeanStatsResult`: the average is cut towards zero, and 0 if there is nothing. */
  function Report(item: Item): Period {
    Period(item.min, item.max, item.cnt, if item.cnt == 0 then 0 else TruncatedDiv(item.sum, item.cnt))
  }

  class MeanStats {
    var startTime: int
    var lastTime: int
    var total: Item
    const items: array<Item>
    ghost var log: seq<Sample>

    ghost predicate Valid()
      reads this, items
    {
      && items.Length == WINDOW
      && startTime == StartTime(log) && lastTime == LastTime(log)
      && (if log == [] then total == EMPTY else
          && 0 <= startTime <= lastTime < startTime + WINDOW
          && Bounded(log, startTime, lastTime)
          && total == Stats(log, 0, lastTime)
          && forall t :: startTime <= t <= lastTime ==> items[t % WINDOW] == Stats(log, t, t))
    }

    constructor ()
      ensures Valid() && log == [] && fresh(items)
    {
      startTime, lastTime, total, log := -1, -1, EMPTY, [];
      items := new Item[WINDOW](_ => EMPTY);
    }

    /** Clear the slots of [from, until). */
    method ClearSlots(from: int, until: int)
      requires items.Length == WINDOW && 0 <= from && until < from + WINDOW
      modifies items
      ensures forall t :: from <= t < until ==> items[t % WINDOW] == EMPTY
      ensures forall t :: until - WINDOW < t < from && 0 <= t ==> items[t % WINDOW] == old(items[t % WINDOW])
    {
      var i := from;
      while i < until
        invariant from <= i && (i <= until || i == from)
        invariant forall t :: from <= t < i ==> items[t % WINDOW] == EMPTY
        invariant forall t :: until - WINDOW < t < from && 0 <= t ==> items[t % WINDOW] == old(items[t % WINDOW])
      {
        AllSlotsDiffer(Max(0, until - WINDOW + 1), i - 1, i);
        items[i % WINDOW] := EMPTY;
        i := i + 1;
      }
    }

    /** The loop that empties the whole ring. */
    method ClearAll()
      requires items.Length == WINDOW
      modifies items
      ensures forall k :: 0 <= k < WINDOW ==> items[k] == EMPTY
    {
      for i := 0 to WINDOW
        invariant forall k :: 0 <= k < i ==> items[k] == EMPTY
      {
        items[i] := EMPTY;
      }
    }

    /** `AddInternalValue`. A sample older than the newest one is dropped. */
    method AddInternalValue(value: int, timestamp: nat)
      requires Valid()
      modifies this, items
      ensures Valid()
      ensures log == old(log) + if old(log) != [] && timestamp < old(lastTime) then [] else [Sample(timestamp, value)]
      ensures lastTime == Max(old(lastTime), timestamp)
    {
      if startTime < 0 {
        AddFirst(value, timestamp);
        return;
      }
      if timestamp < lastTime {
        return;
      }
      assert log[|log| - 1].time == lastTime;
      TotalSnoc(log, lastTime, Sample(timestamp, value));
      total := Updated(total, value);
      if timestamp - lastTime >= WINDOW {
        AddAfterGap(value, timestamp);
        return;
      }
      if timestamp == lastTime {
        AddSameSecond(value, timestamp);
        return;
      }
      AddLaterSecond(value, timestamp);
    }

    method AddFirst(value: int, timestamp: nat)
      requires Valid() && log == []
      modifies this, items
      ensures Valid() && log == [Sample(timestamp, value)] && lastTime == timestamp
    {
      startTime := timestamp;
      lastTime := timestamp;
      items[timestamp % WINDOW] := Single(value);
      total := Single(value);
      log := [Sample(timestamp, value)];
      SecondsSnoc([], Sample(timestamp, value));
      assert [] + [Sample(timestamp, value)] == log;
    }

    ghost predicate Counted(s: Sample)
      reads this, items
    {
      && log != [] && items.Length == WINDOW
      && startTime == StartTime(log) && lastTime == LastTime(log)
      && 0 <= startTime <= lastTime < startTime + WINDOW
      && Bounded(log, startTime, lastTime)
      && total == Stats(log + [s], 0, Max(lastTime, s.time))
      && forall t :: startTime <= t <= lastTime ==> items[t % WINDOW] == Stats(log, t, t)
    }

    method AddAfterGap(value: int, timestamp: nat)
      requires Counted(Sample(timestamp, value)) && timestamp - lastTime >= WINDOW
      modifies items, this`startTime, this`lastTime, this`log
      ensures Valid() && log == old(log) + [Sample(timestamp, value)] && lastTime == timestamp
    {
      var newStart := timestamp - WINDOW + 1;
      ClearAll();
      SecondsEmptyStats(log, newStart, timestamp);
      AllSlotsDiffer(newStart, timestamp - 1, timestamp);
      SecondsSnoc(log, Sample(timestamp, value));
      TimesSnoc(log, Sample(timestamp, value));
      BoundedSnoc(log, startTime, lastTime, Sample(timestamp, value));
      startTime := newStart;
      lastTime := timestamp;
      items[timestamp % WINDOW] := Single(value);
      log := log + [Sample(timestamp, value)];
    }

    method AddSameSecond(value: int, timestamp: nat)
      requires Counted(Sample(timestamp, value)) && timestamp == lastTime
      requires Stats(log, timestamp, timestamp).cnt > 0
      modifies items, this`log
      ensures Valid() && log == old(log) + [Sample(timestamp, value)]
    {
      AllSlotsDiffer(startTime, timestamp - 1, timestamp);
      SecondsSnoc(log, Sample(timestamp, value));
      TimesSnoc(log, Sample(timestamp, value));
      BoundedSnoc(log, startTime, lastTime, Sample(timestamp, value));
      items[timestamp % WINDOW] := Updated(items[timestamp % WINDOW], value);
      log := log + [Sample(timestamp, value)];
    }

    method AddLaterSecond(value: int, timestamp: nat)
      requires Counted(Sample(timestamp, value)) && lastTime < timestamp < lastTime + WINDOW
      modifies items, this`startTime, this`lastTime, this`log
      ensures Valid() && log == old(log) + [Sample(timestamp, value)] && lastTime == timestamp
    {
      ClearSlots(lastTime + 1, timestamp);
      SecondsEmptyStats(log, lastTime + 1, timestamp);
      BoundedSnoc(log, startTime, lastTime, Sample(timestamp, value));
      startTime := Max(startTime, timestamp - WINDOW + 1);
      AllSlotsDiffer(startTime, timestamp - 1, timestamp);
      SecondsSnoc(log, Sample(timestamp, value));
      TimesSnoc(log, Sample(timestamp, value));
      lastTime := timestamp;
      items[timestamp % WINDOW] := Single(value);
      log := log + [Sample(timestamp, value)];
    }

    /** The part of `GetRecentStatsInternal` that reads the ring. */
    method Gather(seconds: int, now: int) returns (section: Item)
      requires Valid()
      ensures section == Gathered(log, seconds, now)
    {
      if startTime < 0 {
        return EMPTY;
      }
      var start := Max(now - seconds, startTime);
      var end := Min(now - 1, lastTime);
      StatsSame(log, From(log, seconds, now), now - 1, start, end);
      if start > lastTime || end < startTime {
        StatsEmpty(log, start, end);
        return EMPTY;
      }
      section := SumUp(start, end);
    }

    /** `GetRecentStatsInternal`: the gathered figures, with the average in place of the sum. */
    method GetRecentStatsInternal(seconds: int, now: int) returns (result: Period)
      requires Valid()
      ensures result == Report(Gathered(log, seconds, now))
      ensures seconds >= 1 ==>
        var exact := Report(Stats(log, From(log, seconds, now), now - 1));
        result.count == exact.count && result.average == exact.average
    {
      var section := Gather(seconds, now);
      result := Report(section);
    }

    /** The loop of the query: the first second unconditionally, then every non-empty one. */
    method SumUp(start: int, end: int) returns (section: Item)
      requires Valid() && log != [] && startTime <= start <= lastTime && end <= lastTime
      ensures section == Observed(Stats(log, start, start), Stats(log, start, Max(start, end)))
    {
      section := items[start % WINDOW];
      var i := start + 1;
      while i <= end
        invariant start < i <= Max(start, end) + 1
        invariant section == Observed(Stats(log, start, start), Stats(log, start, i - 1))
      {
        ObservedStep(log, start, i);
        var item := items[i % WINDOW];
        assert item == Stats(log, i, i);
        if item.cnt != 0 {
          section := Merged(section, item);
        }
        i := i + 1;
      }
    }
  }

  /** What the query loop makes of a range whose first second is `first`. */
  ghost function Observed(first: Item, all: Item): Item {
    if first.cnt > 0 || all.cnt == 0 then all else Merged(EMPTY, all)
  }

  /** Where the window of a query begins: as far back as it asks for and the ring reaches. */
  ghost function From(log: seq<Sample>, seconds: int, now: int): int {
    Max(now - seconds, LastTime(log) - WINDOW + 1)
  }

  /** What a query gathers. For a window of at least one second it is everything accepted in
      the window, except that an empty first second counts as a sample of value 0 for minimum
      and maximum. A window of no seconds gathers the second at which it would begin. */
  ghost function Gathered(log: seq<Sample>, seconds: int, now: int): Item {
    if seconds >= 1 then
      var first := Max(now - seconds, StartTime(log));
      Observed(Stats(log, first, first), Stats(log, From(log, seconds, now), now - 1))
    else if log != [] && StartTime(log) < now && now - seconds <= LastTime(log) then
      Stats(log, now - seconds, now - seconds)
    else EMPTY
  }

  /** Merging one more second, unless it is empty. */
  lemma ObservedStep(log: seq<Sample>, start: int, i: int)
    requires start < i
    ensures var first, before, item := Stats(log, start, start), Stats(log, start, i - 1), Stats(log, i, i);
            var section := Observed(first, before);
            Observed(first, Stats(log, start, i)) == if item.cnt != 0 then Merged(section, item) else section
  {
    StatsSplit(log, start, i - 1, i);
    StatsSplit(log, start, start, i - 1);
  }

  /** Some accepted sample in [lo, hi] has the value `v`. */
  ghost predicate Occurs(log: seq<Sample>, lo: int, hi: int, v: int) {
    exists i :: 0 <= i < |log| && lo <= log[i].time <= hi && log[i].value == v
  }

  ghost predicate HasSample(log: seq<Sample>, t: int) {
    exists i :: 0 <= i < |log| && log[i].time == t
  }

  /** A query that begins at `lo` starts from a second with a sample: recording began no earlier
      than that, or that second has one. */
  ghost predicate StartsFull(log: seq<Sample>, lo: int) {
    log != [] && (log[0].time >= lo || HasSample(log, lo))
  }

  lemma FirstSecond(log: seq<Sample>, seconds: int, now: int)
    requires log != []
    ensures var first := Max(now - seconds, StartTime(log));
            Stats(log, first, first).cnt > 0 <==> StartsFull(log, From(log, seconds, now))
  {
    var first := Max(now - seconds, StartTime(log));
    assert first == Max(From(log, seconds, now), log[0].time);
    StatsMeaning(log, first, first);
  }

  /** The reported minimum and maximum bound every sample of the window. Each of them is the
      value of such a sample exactly if the query starts from a second with a sample or some
      sample has 0 on its right side; otherwise it is the 0 of the empty first second. */
  lemma ReportedBounds(log: seq<Sample>, seconds: int, now: int)
    requires seconds >= 1
    ensures var lo, hi, r := From(log, seconds, now), now - 1, Report(Gathered(log, seconds, now));
            if r.count == 0 then r == Report(EMPTY) && forall v :: !Occurs(log, lo, hi, v) else
            && (forall v :: Occurs(log, lo, hi, v) ==> r.min <= v <= r.max)
            && (Occurs(log, lo, hi, r.min) <==> StartsFull(log, lo) || exists v :: v <= 0 && Occurs(log, lo, hi, v))
            && (Occurs(log, lo, hi, r.max) <==> StartsFull(log, lo) || exists v :: v >= 0 && Occurs(log, lo, hi, v))
  {
    if log != [] {
      FirstSecond(log, seconds, now);
      var first := Max(now - seconds, StartTime(log));
      ObservedBounds(log, From(log, seconds, now), now - 1, Stats(log, first, first));
    }
  }

  lemma ObservedBounds(log: seq<Sample>, lo: int, hi: int, first: Item)
    ensures var all, r := Stats(log, lo, hi), Observed(first, Stats(log, lo, hi));
            if all.cnt == 0 then r == EMPTY && forall v :: !Occurs(log, lo, hi, v) else
            && r.cnt > 0
            && (forall v :: Occurs(log, lo, hi, v) ==> r.min <= v <= r.max)
            && (Occurs(log, lo, hi, r.min) <==> first.cnt > 0 || exists v :: v <= 0 && Occurs(log, lo, hi, v))
            && (Occurs(log, lo, hi, r.max) <==> first.cnt > 0 || exists v :: v >= 0 && Occurs(log, lo, hi, v))
  {
    StatsMeaning(log, lo, hi);
    var all := Stats(log, lo, hi);
    if all.cnt > 0 {
      assert Occurs(log, lo, hi, all.min) && Occurs(log, lo, hi, all.max);
    }
  }

  /** The reported count is the number of samples in the window, and the average is their sum
      divided by it, cut towards zero. */
  lemma ReportedAverage(log: seq<Sample>, seconds: int, now: int)
    requires seconds >= 1
    ensures var lo, hi, r := From(log, seconds, now), now - 1, Report(Gathered(log, seconds, now));
            var n, sum := |set i | 0 <= i < |log| && lo <= log[i].time <= hi|, SumIn(log, lo, hi);
            && r.count == n && (n == 0 ==> r.average == 0)
            && (n > 0 && sum >= 0 ==> 0 <= r.average * n <= sum < r.average * n + n)
            && (n > 0 && sum <= 0 ==> r.average * n - n < sum <= r.average * n <= 0)
  {
    var lo, hi := From(log, seconds, now), now - 1;
    var all := Stats(log, lo, hi);
    StatsCount(log, lo, hi);
    StatsMeaning(log, lo, hi);
    if all.cnt > 0 {
      TruncatedTowardsZero(all.sum, all.cnt);
    }
  }

  /** A window of no seconds reports a minimum and maximum of the second it begins at. */
  lemma NoSecondsBounds(log: seq<Sample>, seconds: int, now: int)
    requires seconds <= 0
    ensures var lo, r := now - seconds, Report(Gathered(log, seconds, now));
            if r.count == 0 then r == Report(EMPTY) else
            && Occurs(log, lo, lo, r.min) && Occurs(log, lo, lo, r.max)
            && forall v :: Occurs(log, lo, lo, v) ==> r.min <= v <= r.max
  {
    var lo := now - seconds;
    StatsMeaning(log, lo, lo);
  }

  lemma TwoStats(a: Sample, b: Sample, lo: int, hi: int)
    ensures Stats([a, b], lo, hi) ==
            var one := if lo <= a.time <= hi then Single(a.value) else EMPTY;
            if lo <= b.time <= hi then Extended(one, b.value) else one
  {
    StatsSnoc([], a, lo, hi);
    StatsSnoc([a], b, lo, hi);
    assert [] + [a] == [a] && [a] + [b] == [a, b];
  }

  /** A log for which they are not values of samples: second 1 is empty. */
  lemma BoundsWitness()
    ensures var log := [Sample(0, 7), Sample(2, 5)];
            && Report(Gathered(log, 2, 3)) == Period(0, 5, 1, 5)
            && From(log, 2, 3) == 1 && !Occurs(log, 1, 2, 0)
  {
    var log := [Sample(0, 7), Sample(2, 5)];
    TwoStats(log[0], log[1], 1, 1);
    TwoStats(log[0], log[1], 1, 2);
  }

  /** The same on the object. */
  method ReportsZero() returns (result: Period)
    ensures result == Period(0, 5, 1, 5)
  {
    var stats := new MeanStats();
    stats.AddInternalValue(7, 0);
    stats.AddInternalValue(5, 2);
    assert stats.log == [Sample(0, 7), Sample(2, 5)];
    result := stats.GetRecentStatsInternal(2, 3);
    BoundsWitness();
  }

  lemma TotalSnoc(log: seq<Sample>, last: int, s: Sample)
    requires log != [] && last <= s.time
    requires forall i :: 0 <= i < |log| ==> log[i].time <= last
    requires exists i :: 0 <= i < |log| && log[i].time == last
    ensures Stats(log + [s], 0, Max(last, s.time)) == Updated(Stats(log, 0, last), s.value)
    ensures Stats(log, last, last).cnt > 0
  {
    StatsMeaning(log, 0, last);
    StatsMeaning(log, last, last);
    StatsSame(log, 0, last, 0, s.time);
    StatsSnoc(log, s, 0, s.time);
  }
}
