/** Sliding-window counting over a ring with one slot per second.

Times are whole seconds and not negative; the mutex and the clock are left out. */
module WindowCounting {

  /** `kTimeWindowSize`. */
  const WINDOW: nat := 3600

  datatype Sample = Sample(time: nat, value: int)

  /** Sum of the samples with a time in [lo, hi]. */
  ghost function SumIn(log: seq<Sample>, lo: int, hi: int): int {
    if log == [] then 0 else
    var s := log[|log| - 1];
    SumIn(log[..|log| - 1], lo, hi) + if lo <= s.time <= hi then s.value else 0
  }

  ghost function Total(log: seq<Sample>): int {
    if log == [] then 0 else Total(log[..|log| - 1]) + log[|log| - 1].value
  }

  function Max(a: int, b: int): int { if a > b then a else b }
  function Min(a: int, b: int): int { if a < b then a else b }

  lemma SumSnoc(log: seq<Sample>, s: Sample, lo: int, hi: int)
    ensures SumIn(log + [s], lo, hi) == SumIn(log, lo, hi) + (if lo <= s.time <= hi then s.value else 0)
    ensures Total(log + [s]) == Total(log) + s.value
  {
    assert (log + [s])[..|log|] == log;
  }

  lemma {:induction false} SumSplit(log: seq<Sample>, lo: int, mid: int, hi: int)
    requires lo <= mid + 1 && mid <= hi
    ensures SumIn(log, lo, hi) == SumIn(log, lo, mid) + SumIn(log, mid + 1, hi)
  {
    if log != [] {
      SumSplit(log[..|log| - 1], lo, mid, hi);
    }
  }

  /** Nothing to add up where no sample lies. */
  lemma {:induction false} SumEmpty(log: seq<Sample>, lo: int, hi: int)
    requires forall i :: 0 <= i < |log| ==> !(lo <= log[i].time <= hi)
    ensures SumIn(log, lo, hi) == 0
  {
    if log != [] {
      SumEmpty(log[..|log| - 1], lo, hi);
    }
  }

  /** Within one window no two seconds share a slot. */
  lemma SlotsDiffer(a: int, b: int)
    requires 0 <= a < b < a + WINDOW
    ensures a % WINDOW != b % WINDOW
  {
    var q := b / WINDOW - a / WINDOW;
    assert b - a == WINDOW * q + (b % WINDOW - a % WINDOW);
  }

  lemma AllSlotsDiffer(lo: int, hi: int, b: int)
    requires 0 <= lo && hi < b < lo + WINDOW
    ensures forall t :: lo <= t <= hi ==> t % WINDOW != b % WINDOW
  {
    forall t | lo <= t <= hi ensures t % WINDOW != b % WINDOW {
      SlotsDiffer(t, b);
    }
  }

  /** Nothing is newer than `last`, and nothing inside the window lies before `start`. */
  ghost predicate Bounded(log: seq<Sample>, start: int, last: int) {
    && (forall i :: 0 <= i < |log| ==> log[i].time <= last)
    && (forall i :: 0 <= i < |log| ==> !(last - WINDOW < log[i].time < start))
  }

  lemma BoundedSnoc(log: seq<Sample>, start: int, last: int, s: Sample)
    requires Bounded(log, start, last) && last <= s.time && start <= s.time
    ensures Bounded(log + [s], Max(start, s.time - WINDOW + 1), s.time)
  {
  }

  /** The time of the newest sample. */
  ghost function LastTime(log: seq<Sample>): int {
    if log == [] then -1 else log[|log| - 1].time
  }

  /** The first second the ring holds: that of the first sample, or the edge of the window. */
  ghost function StartTime(log: seq<Sample>): int {
    if log == [] then -1 else Max(log[0].time, LastTime(log) - WINDOW + 1)
  }

  lemma TimesSnoc(log: seq<Sample>, s: Sample)
    ensures LastTime(log + [s]) == s.time
    ensures StartTime(log + [s]) == Max(if log == [] then s.time else log[0].time, s.time - WINDOW + 1)
  {
  }

  class CountingStats {
    var startTime: int
    var lastTime: int
    var total: int
    const items: array<int>
    ghost var log: seq<Sample> // accepted samples

    /** The log decides where the ring begins and ends. The slot of every second in between holds
        that second's sum, and nothing that is still inside the window lies before. */
    ghost predicate Valid()
      reads this, items
    {
      && items.Length == WINDOW
      && total == Total(log) && startTime == StartTime(log) && lastTime == LastTime(log)
      && (log != [] ==>
          && 0 <= startTime <= lastTime < startTime + WINDOW
          && Bounded(log, startTime, lastTime)
          && SlotsHold(startTime, lastTime))
    }

    ghost predicate SlotsHold(lo: int, hi: int)
      requires 0 <= lo && items.Length == WINDOW
      reads this, items
    {
      forall t :: lo <= t <= hi ==> items[t % WINDOW] == SumIn(log, t, t)
    }

    constructor ()
      ensures Valid() && log == [] && fresh(items)
    {
      startTime, lastTime, total, log := -1, -1, 0, [];
      items := new int[WINDOW](_ => 0);
    }

    /** Clear the slots of [from, until). */
    method ClearSlots(from: int, until: int)
      requires items.Length == WINDOW && 0 <= from && until < from + WINDOW
      modifies items
      ensures forall t :: from <= t < until ==> items[t % WINDOW] == 0
      ensures forall t :: until - WINDOW < t < from && 0 <= t ==> items[t % WINDOW] == old(items[t % WINDOW])
    {
      var i := from;
      while i < until
        invariant from <= i && (i <= until || i == from)
        invariant forall t :: from <= t < i ==> items[t % WINDOW] == 0
        invariant forall t :: until - WINDOW < t < from && 0 <= t ==> items[t % WINDOW] == old(items[t % WINDOW])
      {
        AllSlotsDiffer(Max(0, until - WINDOW + 1), i - 1, i);
        items[i % WINDOW] := 0;
        i := i + 1;
      }
    }

    /** `AddInternalCount`. A sample older than the newest one is dropped. */
    method AddInternalCount(value: int, timestamp: nat)
      requires Valid()
      modifies this, items
      ensures Valid()
      ensures log == old(log) + if old(log) != [] && timestamp < old(lastTime) then [] else [Sample(timestamp, value)]
      ensures lastTime == Max(old(lastTime), timestamp)
    {
      if startTime < 0 {
        AddFirst(value, timestamp);
        return;
      }
      if timestamp < lastTime {
        return;
      }
      if timestamp - lastTime >= WINDOW {
        AddAfterGap(value, timestamp);
        return;
      }
      if timestamp == lastTime {
        AddSameSecond(value, timestamp);
        return;
      }
      AddLaterSecond(value, timestamp);
    }

    method AddFirst(value: int, timestamp: nat)
      requires Valid() && log == []
      modifies this, items
      ensures Valid() && log == [Sample(timestamp, value)] && lastTime == timestamp
    {
      startTime := timestamp;
      lastTime := timestamp;
      items[timestamp % WINDOW] := value;
      total := value;
      SumsSnoc([], Sample(timestamp, value));
      log := [Sample(timestamp, value)];
      assert [] + log == log;
    }

    /** Everything in the ring has become too old. */
    method AddAfterGap(value: int, timestamp: nat)
      requires Valid() && log != [] && timestamp - lastTime >= WINDOW
      modifies this, items
      ensures Valid() && log == old(log) + [Sample(timestamp, value)] && lastTime == timestamp
    {
      var newStart := timestamp - WINDOW + 1;
      ClearSlots(newStart, timestamp);
      AllSlotsDiffer(newStart, timestamp - 1, timestamp);
      SecondsEmpty(log, newStart, timestamp);
      SumsSnoc(log, Sample(timestamp, value));
      TimesSnoc(log, Sample(timestamp, value));
      startTime := newStart;
      BoundedSnoc(log, startTime, timestamp, Sample(timestamp, value));
      lastTime := timestamp;
      items[timestamp % WINDOW] := value;
      total := total + value;
      log := log + [Sample(timestamp, value)];
    }

    method AddSameSecond(value: int, timestamp: nat)
      requires Valid() && log != [] && timestamp == lastTime
      modifies this, items
      ensures Valid() && log == old(log) + [Sample(timestamp, value)] && lastTime == timestamp
    {
      AllSlotsDiffer(startTime, timestamp - 1, timestamp);
      SumsSnoc(log, Sample(timestamp, value));
      TimesSnoc(log, Sample(timestamp, value));
      BoundedSnoc(log, startTime, lastTime, Sample(timestamp, value));
      items[timestamp % WINDOW] := items[timestamp % WINDOW] + value;
      total := total + value;
      log := log + [Sample(timestamp, value)];
    }

    /** The seconds in between are cleared, and the start moves up with the window. */
    method AddLaterSecond(value: int, timestamp: nat)
      requires Valid() && log != [] && lastTime < timestamp < lastTime + WINDOW
      modifies this, items
      ensures Valid() && log == old(log) + [Sample(timestamp, value)] && lastTime == timestamp
    {
      ClearSlots(lastTime + 1, timestamp);
      SecondsEmpty(log, lastTime + 1, timestamp);
      BoundedSnoc(log, startTime, lastTime, Sample(timestamp, value));
      startTime := Max(startTime, timestamp - WINDOW + 1);
      AllSlotsDiffer(startTime, timestamp - 1, timestamp);
      SumsSnoc(log, Sample(timestamp, value));
      TimesSnoc(log, Sample(timestamp, value));
      lastTime := timestamp;
      items[timestamp % WINDOW] := value;
      total := total + value;
      log := log + [Sample(timestamp, value)];
    }

    /** `GetRecentStatsInternal`, for any window length and any query time: the sum of the
        accepted samples in [now - seconds, now - 1], as far back as the window reaches. */
    method GetRecentStatsInternal(seconds: int, now: int) returns (sum: int)
      requires Valid()
      ensures sum == SumIn(log, Max(now - seconds, lastTime - WINDOW + 1), now - 1)
    {
      if startTime < 0 {
        return 0;
      }
      var start := Max(now - seconds, startTime);
      var end := Min(now - 1, lastTime);
      ghost var from := Max(now - seconds, lastTime - WINDOW + 1);
      WindowEdges(log, from, now - 1, startTime, lastTime);
      if start > lastTime || end < startTime {
        SumEmpty(log, start, end);
        return 0;
      }
      sum := 0;
      var i := start;
      SumEmpty(log, start, start - 1);
      while i <= end
        invariant start <= i && (i <= end + 1 || i == start)
        invariant sum == SumIn(log, start, i - 1)
      {
        SumSplit(log, start, i - 1, i);
        sum := sum + items[i % WINDOW];
        i := i + 1;
      }
      if i > end + 1 {
        SumEmpty(log, start, end);
      }
    }

    /** `GetRecentCount`: exact whenever the asked-for seconds are still in the window. */
    method GetRecentCount(seconds: int, now: int) returns (sum: int)
      requires Valid()
      ensures sum == SumIn(log, Max(now - Min(seconds, 3600), lastTime - WINDOW + 1), now - 1)
      ensures seconds <= 3600 && now - seconds >= lastTime - 3599 ==> sum == SumIn(log, now - seconds, now - 1)
    {
      var s := seconds;
      if s > 3600 {
        s := 3600;
      }
      sum := GetRecentStatsInternal(s, now);
    }
  }

  lemma SumsSnoc(log: seq<Sample>, s: Sample)
    ensures forall t :: SumIn(log + [s], t, t) == SumIn(log, t, t) + (if s.time == t then s.value else 0)
    ensures Total(log + [s]) == Total(log) + s.value
  {
    forall t ensures SumIn(log + [s], t, t) == SumIn(log, t, t) + (if s.time == t then s.value else 0) {
      SumSnoc(log, s, t, t);
    }
    SumSnoc(log, s, 0, 0);
  }

  lemma SecondsEmpty(log: seq<Sample>, from: int, until: int)
    requires forall i :: 0 <= i < |log| ==> log[i].time < from
    ensures forall t :: from <= t <= until ==> SumIn(log, t, t) == 0
  {
    forall t | from <= t <= until ensures SumIn(log, t, t) == 0 {
      SumEmpty(log, t, t);
    }
  }

  /** Cutting a range to the seconds that can hold samples does not change its sum. */
  lemma WindowEdges(log: seq<Sample>, from: int, to: int, start: int, last: int)
    requires forall i :: 0 <= i < |log| ==> log[i].time <= last
    requires forall i :: 0 <= i < |log| ==> !(last - WINDOW < log[i].time < start)
    requires start <= last && last - WINDOW < from
    ensures SumIn(log, from, to) == SumIn(log, Max(from, start), Min(to, last))
  {
    SameSamples(log, from, to, Max(from, start), Min(to, last));
  }

  lemma {:induction false} SameSamples(log: seq<Sample>, lo: int, hi: int, lo': int, hi': int)
    requires forall i :: 0 <= i < |log| ==> (lo <= log[i].time <= hi <==> lo' <= log[i].time <= hi')
    ensures SumIn(log, lo, hi) == SumIn(log, lo', hi')
  {
    if log != [] {
      SameSamples(log[..|log| - 1], lo, hi, lo', hi');
    }
  }
}
