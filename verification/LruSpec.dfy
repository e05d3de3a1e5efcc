/** What an LRU cache with expiring entries is: a list of slots, least recently used
first. `MemoryCache` is proved against these functions; here their meaning over
whole histories is proved. */
module LruSpec {
  import opened Wrappers

  /** One cached entry. `value` is None only in a slot that was never filled. */
  datatype Slot<K, V> = Slot(key: K, value: Option<V>, expiry: nat)

  const NOT_IN_CACHE: int := 1
  const EXPIRED: int := 2
  const CAPACITY_NOT_ENOUGH: int := 3
  const NOT_EXPIRED: int := 4

  /** Expiry times are unsigned 64-bit numbers. */
  function ExpiryTime(now: nat, life: int): nat {
    (now + life) % 0x1_0000_0000_0000_0000
  }

  /** A position of `k` in `s`, or the length of `s` if there is none. */
  ghost function Find<K, V>(s: seq<Slot<K, V>>, k: K): (i: nat)
    ensures i <= |s|
    ensures i < |s| ==> s[i].key == k
    ensures i == |s| ==> forall j :: 0 <= j < |s| ==> s[j].key != k
  {
    if exists j :: 0 <= j < |s| && s[j].key == k
    then var j :| 0 <= j < |s| && s[j].key == k; j
    else |s|
  }

  ghost predicate Has<K, V>(s: seq<Slot<K, V>>, k: K) {
    Find(s, k) < |s|
  }

  ghost function Drop<K, V>(s: seq<Slot<K, V>>, k: K): seq<Slot<K, V>> {
    var i := Find(s, k);
    if i < |s| then s[..i] + s[i + 1..] else s
  }

  /** `Put` leaves an entry alone that has not expired yet. */
  ghost predicate PutRefused<K, V>(s: seq<Slot<K, V>>, k: K, now: nat) {
    Has(s, k) && s[Find(s, k)].expiry != 0 && s[Find(s, k)].expiry > now
  }

  /** The list after storing, before the capacity is looked at. */
  ghost function Stored<K, V>(s: seq<Slot<K, V>>, life: int, k: K, v: V, now: nat): seq<Slot<K, V>> {
    Drop(s, k) + [Slot(k, Some(v), ExpiryTime(now, life))]
  }

  ghost function Put<K, V>(s: seq<Slot<K, V>>, capacity: nat, life: int, k: K, v: V, now: nat): (r: (seq<Slot<K, V>>, int)) {
    if PutRefused(s, k, now) then (s, NOT_EXPIRED)
    else
      var t := Stored(s, life, k, v, now);
      if |t| > capacity then (t[1..], CAPACITY_NOT_ENOUGH) else (t, 0)
  }

  ghost function GetCode<K, V>(s: seq<Slot<K, V>>, k: K, now: nat): int {
    if !Has(s, k) then NOT_IN_CACHE else if s[Find(s, k)].expiry < now then EXPIRED else 0
  }

  ghost function Get<K, V>(s: seq<Slot<K, V>>, k: K, now: nat): (r: (seq<Slot<K, V>>, int)) {
    if GetCode(s, k, now) != 0 then (s, GetCode(s, k, now))
    else (Drop(s, k) + [s[Find(s, k)]], 0)
  }

  // ---------------------------------------------------------------------------
  // Histories
  // ---------------------------------------------------------------------------

  datatype Op<K, V> = PutOp(k: K, v: V, now: nat) | GetOp(k: K, now: nat)

  ghost function AfterOne<K, V>(s: seq<Slot<K, V>>, op: Op<K, V>, capacity: nat, life: int): seq<Slot<K, V>> {
    match op
    case PutOp(k, v, now) => Put(s, capacity, life, k, v, now).0
    case GetOp(k, now) => Get(s, k, now).0
  }

  ghost function After<K, V>(ops: seq<Op<K, V>>, capacity: nat, life: int): seq<Slot<K, V>> {
    if ops == [] then [] else AfterOne(After(ops[..|ops| - 1], capacity, life), ops[|ops| - 1], capacity, life)
  }

  /** The last operation of `ops` was an accepted `Put` or a successful `Get`. */
  ghost predicate Touches<K, V>(ops: seq<Op<K, V>>, capacity: nat, life: int)
    requires ops != []
  {
    var s := After(ops[..|ops| - 1], capacity, life);
    match ops[|ops| - 1]
    case PutOp(k, v, now) => !PutRefused(s, k, now)
    case GetOp(k, now) => GetCode(s, k, now) == 0
  }

  /** When `k` was last put or got successfully, counting operations from 1; 0 for never. */
  ghost function LastTouch<K, V>(ops: seq<Op<K, V>>, capacity: nat, life: int, k: K): (n: nat)
    ensures n <= |ops|
  {
    if ops == [] then 0
    else if ops[|ops| - 1].k == k && Touches(ops, capacity, life) then |ops|
    else LastTouch(ops[..|ops| - 1], capacity, life, k)
  }

  /** The value of the last accepted `Put` of `k`. */
  ghost function LastPut<K, V>(ops: seq<Op<K, V>>, capacity: nat, life: int, k: K): Option<V> {
    if ops == [] then None
    else if ops[|ops| - 1].PutOp? && ops[|ops| - 1].k == k && Touches(ops, capacity, life) then Some(ops[|ops| - 1].v)
    else LastPut(ops[..|ops| - 1], capacity, life, k)
  }

  ghost predicate DistinctKeys<K, V>(s: seq<Slot<K, V>>) {
    forall i, j :: 0 <= i < j < |s| ==> s[i].key != s[j].key
  }

  /** Least recently touched first; every key outside was touched before all of them,
      and a touched key is outside only when the cache is full. */
  ghost predicate MostRecent<K(!new), V>(s: seq<Slot<K, V>>, touch: K -> nat, capacity: nat) {
    && |s| <= capacity
    && Sorted(s, touch)
    && (forall k :: !Has(s, k) && touch(k) > 0 ==>
          |s| == capacity && forall i :: 0 <= i < |s| ==> touch(k) < touch(s[i].key))
  }

  /** Every slot holds what was last put under its key. */
  ghost predicate LastValues<K(!new), V>(s: seq<Slot<K, V>>, last: K -> Option<V>) {
    forall i :: 0 <= i < |s| ==> s[i].value.Some? && s[i].value == last(s[i].key)
  }

  lemma DropKeys<K(!new), V>(s: seq<Slot<K, V>>, k: K)
    requires DistinctKeys(s)
    ensures DistinctKeys(Drop(s, k)) && !Has(Drop(s, k), k)
    ensures forall x :: x != k ==> (Has(Drop(s, k), x) <==> Has(s, x))
    ensures |Drop(s, k)| == |s| - if Has(s, k) then 1 else 0
  {
    var i, t := Find(s, k), Drop(s, k);
    forall x | x != k ensures Has(t, x) <==> Has(s, x) {
      if Has(s, x) {
        var j := Find(s, x);
        assert t[if j < i then j else j - 1].key == x;
      }
    }
  }

  ghost predicate Sorted<K(!new), V>(s: seq<Slot<K, V>>, touch: K -> nat) {
    && DistinctKeys(s)
    && (forall i :: 0 <= i < |s| ==> touch(s[i].key) > 0)
    && (forall i, j :: 0 <= i < j < |s| ==> touch(s[i].key) < touch(s[j].key))
  }

  lemma MovedKeys<K(!new), V>(s: seq<Slot<K, V>>, slot: Slot<K, V>)
    requires DistinctKeys(s)
    ensures DistinctKeys(Drop(s, slot.key) + [slot])
    ensures forall x :: Has(Drop(s, slot.key) + [slot], x) <==> x == slot.key || Has(s, x)
  {
    var d := Drop(s, slot.key);
    var t := d + [slot];
    DropKeys(s, slot.key);
    forall x ensures Has(t, x) <==> x == slot.key || Has(s, x) {
      if Has(d, x) {
        assert t[Find(d, x)].key == x;
      }
      if x == slot.key {
        assert t[|d|].key == x;
      }
    }
  }

  /** Moving the most recently touched key to the end keeps the order. */
  lemma MovedToEnd<K(!new), V>(s: seq<Slot<K, V>>, touch: K -> nat, touch': K -> nat, slot: Slot<K, V>)
    requires Sorted(s, touch) && TouchedLast(touch, touch', slot.key)
    ensures Sorted(Drop(s, slot.key) + [slot], touch')
  {
    var k, d, i := slot.key, Drop(s, slot.key), Find(s, slot.key);
    MovedKeys(s, slot);
    assert touch(k) < touch'(k);
    forall j | 0 <= j < |d| ensures d[j] == s[if j < i then j else j + 1] && touch'(d[j].key) == touch(d[j].key) {
    }
  }

  lemma FrontDropped<K(!new), V>(t: seq<Slot<K, V>>)
    requires t != []
    ensures forall x :: Has(t, x) ==> x == t[0].key || Has(t[1..], x)
  {
    forall x | Has(t, x) && x != t[0].key ensures Has(t[1..], x) {
      assert t[1..][Find(t, x) - 1].key == x;
    }
  }

  /** The new touch function: `k` is now the most recent key, nothing else changed. */
  ghost predicate TouchedLast<K(!new)>(touch: K -> nat, touch': K -> nat, k: K) {
    && (forall x :: x != k ==> touch'(x) == touch(x))
    && (forall x :: touch(x) < touch'(k))
  }

  lemma OutsideMoved<K(!new), V>(s: seq<Slot<K, V>>, touch: K -> nat, touch': K -> nat, slot: Slot<K, V>, capacity: nat, x: K)
    requires MostRecent(s, touch, capacity) && TouchedLast(touch, touch', slot.key)
    requires !Has(Drop(s, slot.key) + [slot], x) && touch'(x) > 0
    ensures |s| == capacity
    ensures forall y :: Has(Drop(s, slot.key) + [slot], y) ==> touch'(x) < touch'(y)
  {
    MovedKeys(s, slot);
    assert touch(x) < touch'(slot.key);
    forall y | Has(s, y) && y != slot.key ensures touch'(x) < touch'(y) {
      assert touch(x) < touch(s[Find(s, y)].key);
    }
  }

  lemma OutsideAfterwards<K(!new), V>(s: seq<Slot<K, V>>, touch: K -> nat, touch': K -> nat, slot: Slot<K, V>, capacity: nat,
                                      u: seq<Slot<K, V>>, x: K)
    requires MostRecent(s, touch, capacity) && TouchedLast(touch, touch', slot.key)
    requires var t := Drop(s, slot.key) + [slot]; u == t || (u == t[1..] && x != t[0].key)
    requires !Has(u, x) && touch'(x) > 0
    ensures |s| == capacity && forall i :: 0 <= i < |u| ==> touch'(x) < touch'(u[i].key)
  {
    var t := Drop(s, slot.key) + [slot];
    FrontDropped(t);
    OutsideMoved(s, touch, touch', slot, capacity, x);
    forall i | 0 <= i < |u| ensures touch'(x) < touch'(u[i].key) {
      assert u[i] in t;
      assert Has(t, u[i].key);
    }
  }

  lemma FrontIsOldest<K(!new), V>(t: seq<Slot<K, V>>, touch: K -> nat)
    requires Sorted(t, touch) && t != []
    ensures Sorted(t[1..], touch)
    ensures forall i :: 0 <= i < |t[1..]| ==> touch(t[0].key) < touch(t[1..][i].key)
  {
    assert forall i :: 0 <= i < |t[1..]| ==> t[1..][i] == t[i + 1];
  }

  /** What is outside afterwards was touched before all that stays. */
  lemma OutsideOlder<K(!new), V>(s: seq<Slot<K, V>>, touch: K -> nat, touch': K -> nat, slot: Slot<K, V>, capacity: nat,
                                 u: seq<Slot<K, V>>, x: K)
    requires MostRecent(s, touch, capacity) && TouchedLast(touch, touch', slot.key)
    requires Sorted(Drop(s, slot.key) + [slot], touch') && |Drop(s, slot.key)| <= |s|
    requires var t := Drop(s, slot.key) + [slot]; u == if |t| > capacity then t[1..] else t
    requires !Has(u, x) && touch'(x) > 0
    ensures |u| >= capacity && forall i :: 0 <= i < |u| ==> touch'(x) < touch'(u[i].key)
  {
    var t := Drop(s, slot.key) + [slot];
    if |t| > capacity && x == t[0].key {
      FrontIsOldest(t, touch');
    } else {
      DropKeys(s, slot.key);
      OutsideAfterwards(s, touch, touch', slot, capacity, u, x);
    }
  }

  /** A touch keeps the most recent keys, also when the front of an overfull list goes. */
  lemma Promote<K(!new), V>(s: seq<Slot<K, V>>, touch: K -> nat, touch': K -> nat, slot: Slot<K, V>, capacity: nat)
    requires MostRecent(s, touch, capacity) && TouchedLast(touch, touch', slot.key)
    ensures var t := Drop(s, slot.key) + [slot];
            MostRecent(if |t| > capacity then t[1..] else t, touch', capacity)
  {
    MovedToEnd(s, touch, touch', slot);
    DropKeys(s, slot.key);
    var t := Drop(s, slot.key) + [slot];
    FrontIsOldest(t, touch');
    var u := if |t| > capacity then t[1..] else t;
    forall x | !Has(u, x) && touch'(x) > 0
      ensures |u| == capacity && forall i :: 0 <= i < |u| ==> touch'(x) < touch'(u[i].key)
    {
      OutsideOlder(s, touch, touch', slot, capacity, u, x);
    }
  }

  lemma SameTouches<K(!new), V>(s: seq<Slot<K, V>>, touch: K -> nat, touch': K -> nat, capacity: nat)
    requires MostRecent(s, touch, capacity) && forall k :: touch'(k) == touch(k)
    ensures MostRecent(s, touch', capacity)
  {
  }

  ghost function TouchOf<K(!new), V>(ops: seq<Op<K, V>>, capacity: nat, life: int): K -> nat {
    k => LastTouch(ops, capacity, life, k)
  }

  ghost function PutOf<K(!new), V>(ops: seq<Op<K, V>>, capacity: nat, life: int): K -> Option<V> {
    k => LastPut(ops, capacity, life, k)
  }

  /** One more operation that touches its key moves one slot to the end. */
  lemma TouchStep<K(!new), V>(ops: seq<Op<K, V>>, capacity: nat, life: int) returns (slot: Slot<K, V>)
    requires ops != [] && Touches(ops, capacity, life)
    requires MostRecent(After(ops[..|ops| - 1], capacity, life), TouchOf(ops[..|ops| - 1], capacity, life), capacity)
    requires LastValues(After(ops[..|ops| - 1], capacity, life), PutOf(ops[..|ops| - 1], capacity, life))
    ensures slot.key == ops[|ops| - 1].k && slot.value.Some? && slot.value == LastPut(ops, capacity, life, slot.key)
    ensures var t := Drop(After(ops[..|ops| - 1], capacity, life), slot.key) + [slot];
            After(ops, capacity, life) == if |t| > capacity then t[1..] else t
  {
    var op, s := ops[|ops| - 1], After(ops[..|ops| - 1], capacity, life);
    DropKeys(s, op.k);
    if op.PutOp? {
      slot := Slot(op.k, Some(op.v), ExpiryTime(op.now, life));
    } else {
      slot := s[Find(s, op.k)];
      assert PutOf(ops[..|ops| - 1], capacity, life)(op.k) == LastPut(ops, capacity, life, op.k);
    }
  }

  lemma ValuesMoved<K(!new), V>(s: seq<Slot<K, V>>, last: K -> Option<V>, last': K -> Option<V>, slot: Slot<K, V>, s': seq<Slot<K, V>>)
    requires LastValues(s, last) && DistinctKeys(s) && slot.value.Some? && slot.value == last'(slot.key)
    requires forall x :: x != slot.key ==> last'(x) == last(x)
    requires forall x :: x in s' ==> x in Drop(s, slot.key) + [slot]
    ensures LastValues(s', last')
  {
    DropKeys(s, slot.key);
    forall i | 0 <= i < |s'| ensures s'[i].value.Some? && s'[i].value == last'(s'[i].key) {
      assert s'[i] in s';
      if s'[i] != slot {
        assert s'[i] in Drop(s, slot.key);
        var j :| 0 <= j < |Drop(s, slot.key)| && Drop(s, slot.key)[j] == s'[i];
        assert s'[i] in s;
      }
    }
  }

  /** The theorem behind the name: after every history the cache holds exactly the most
      recently touched keys, least recent first, each with the value last put. */
  lemma {:induction false} HistoryHolds<K(!new), V>(ops: seq<Op<K, V>>, capacity: nat, life: int)
    ensures MostRecent(After(ops, capacity, life), TouchOf(ops, capacity, life), capacity)
    ensures LastValues(After(ops, capacity, life), PutOf(ops, capacity, life))
  {
    if ops != [] {
      var front := ops[..|ops| - 1];
      HistoryHolds(front, capacity, life);
      var s, s' := After(front, capacity, life), After(ops, capacity, life);
      var touch, touch' := TouchOf(front, capacity, life), TouchOf(ops, capacity, life);
      if Touches(ops, capacity, life) {
        var slot := TouchStep(ops, capacity, life);
        Promote(s, touch, touch', slot, capacity);
        ValuesMoved(s, PutOf(front, capacity, life), PutOf(ops, capacity, life), slot, s');
      } else {
        assert s' == s;
        SameTouches(s, touch, touch', capacity);
      }
    }
  }

  /** A successful `Get` returns the value of the last accepted `Put` of that key. */
  lemma GetReturnsLastPut<K(!new), V>(ops: seq<Op<K, V>>, capacity: nat, life: int, k: K, now: nat)
    requires GetCode(After(ops, capacity, life), k, now) == 0
    ensures var s := After(ops, capacity, life);
            s[Find(s, k)].value.Some? && s[Find(s, k)].value == LastPut(ops, capacity, life, k)
  {
    HistoryHolds(ops, capacity, life);
  }

  /** The key an accepted `Put` pushes out was touched before every key that stays. */
  lemma EvictsLeastRecentlyUsed<K(!new), V>(ops: seq<Op<K, V>>, capacity: nat, life: int, k: K, v: V, now: nat)
    requires Put(After(ops, capacity, life), capacity, life, k, v, now).1 == CAPACITY_NOT_ENOUGH
    ensures var s := After(ops, capacity, life);
            var gone := Stored(s, life, k, v, now)[0].key;
            var t := Put(s, capacity, life, k, v, now).0;
            && !Has(t, gone)
            && (capacity > 0 ==> gone != k && Has(s, gone))
            && forall i :: 0 <= i < |t| && t[i].key != k ==>
                 LastTouch(ops, capacity, life, gone) < LastTouch(ops, capacity, life, t[i].key)
  {
    HistoryHolds(ops, capacity, life);
    var s := After(ops, capacity, life);
    DropKeys(s, k);
    assert Drop(s, k) == s;
  }

  // ---------------------------------------------------------------------------
  // Times
  // ---------------------------------------------------------------------------

  /** The time of the last accepted `Put` of `k`. */
  ghost function LastPutTime<K, V>(ops: seq<Op<K, V>>, capacity: nat, life: int, k: K): Option<nat> {
    if ops == [] then None
    else if ops[|ops| - 1].PutOp? && ops[|ops| - 1].k == k && Touches(ops, capacity, life) then Some(ops[|ops| - 1].now)
    else LastPutTime(ops[..|ops| - 1], capacity, life, k)
  }

  /** Every slot expires one life after its key was last put. */
  ghost predicate Timed<K(!new), V>(s: seq<Slot<K, V>>, ops: seq<Op<K, V>>, capacity: nat, life: int) {
    forall x :: x in s ==>
      var t := LastPutTime(ops, capacity, life, x.key); t.Some? && x.expiry == ExpiryTime(t.value, life)
  }

  lemma DropMembers<K(!new), V>(s: seq<Slot<K, V>>, k: K)
    requires DistinctKeys(s)
    ensures forall x :: x in Drop(s, k) ==> x in s && x.key != k
  {
    DropKeys(s, k);
  }

  lemma TimedPut<K(!new), V>(ops: seq<Op<K, V>>, capacity: nat, life: int)
    requires ops != [] && ops[|ops| - 1].PutOp? && Touches(ops, capacity, life)
    requires var s := After(ops[..|ops| - 1], capacity, life);
             DistinctKeys(s) && Timed(s, ops[..|ops| - 1], capacity, life)
    ensures Timed(After(ops, capacity, life), ops, capacity, life)
  {
    var op, s := ops[|ops| - 1], After(ops[..|ops| - 1], capacity, life);
    DropMembers(s, op.k);
    var t := Stored(s, life, op.k, op.v, op.now);
    assert forall x :: x in t[1..] ==> x in t;
    assert forall x :: x in After(ops, capacity, life) ==> x in t;
  }

  lemma TimedGet<K(!new), V>(ops: seq<Op<K, V>>, capacity: nat, life: int)
    requires ops != [] && ops[|ops| - 1].GetOp?
    requires Timed(After(ops[..|ops| - 1], capacity, life), ops[..|ops| - 1], capacity, life)
    ensures Timed(After(ops, capacity, life), ops, capacity, life)
  {
    var s := After(ops[..|ops| - 1], capacity, life);
    assert forall x :: x in After(ops, capacity, life) ==> x in s;
  }

  lemma {:induction false} HistoryTimed<K(!new), V>(ops: seq<Op<K, V>>, capacity: nat, life: int)
    ensures Timed(After(ops, capacity, life), ops, capacity, life)
  {
    if ops != [] {
      var front := ops[..|ops| - 1];
      HistoryTimed(front, capacity, life);
      HistoryHolds(front, capacity, life);
      if ops[|ops| - 1].GetOp? {
        TimedGet(ops, capacity, life);
      } else if Touches(ops, capacity, life) {
        TimedPut(ops, capacity, life);
      }
    }
  }

  /** `t + life` as an unsigned 64-bit number; `wraps` is 0 unless it overflows. */
  ghost predicate DueAt(t: nat, life: int, due: nat, wraps: int) {
    due < 0x1_0000_0000_0000_0000 && t + life == due + wraps * 0x1_0000_0000_0000_0000
  }

  lemma ExpiryIsDue(t: nat, life: int, due: nat, wraps: int)
    requires DueAt(t, life, due, wraps)
    ensures ExpiryTime(t, life) == due
  {
  }

  /** A `Get` finds what is held until one life after it was last put, and not afterwards. */
  lemma GetExactlyWhen<K(!new), V>(ops: seq<Op<K, V>>, capacity: nat, life: int, k: K, now: nat, due: nat, wraps: int)
    ensures var s, t := After(ops, capacity, life), LastPutTime(ops, capacity, life, k);
            if !Has(s, k) then Get(s, k, now).1 == 1 else
            t.Some? && (DueAt(t.value, life, due, wraps) ==> Get(s, k, now).1 == if now <= due then 0 else 2)
  {
    HistoryTimed(ops, capacity, life);
    var s, t := After(ops, capacity, life), LastPutTime(ops, capacity, life, k);
    if Has(s, k) {
      assert s[Find(s, k)] in s;
      if DueAt(t.value, life, due, wraps) {
        ExpiryIsDue(t.value, life, due, wraps);
      }
    }
  }

  /** A `Put` is refused exactly while what is held has not expired; else it reports whether
      another key had to go. */
  lemma PutExactlyWhen<K(!new), V>(ops: seq<Op<K, V>>, capacity: nat, life: int, k: K, v: V, now: nat, due: nat, wraps: int)
    ensures var s, t := After(ops, capacity, life), LastPutTime(ops, capacity, life, k);
            var code := Put(s, capacity, life, k, v, now).1;
            if !Has(s, k) then code == if |s| == capacity then 3 else 0 else
            t.Some? && (DueAt(t.value, life, due, wraps) ==> code == if due > now && due != 0 then 4 else 0)
  {
    HistoryTimed(ops, capacity, life);
    HistoryHolds(ops, capacity, life);
    var s, t := After(ops, capacity, life), LastPutTime(ops, capacity, life, k);
    DropKeys(s, k);
    if Has(s, k) {
      assert s[Find(s, k)] in s;
      if DueAt(t.value, life, due, wraps) {
        ExpiryIsDue(t.value, life, due, wraps);
      }
    }
  }

  /** Put at 1000 with a life of 60000: found at 61000, expired at 61001. */
  lemma ExpiryWitness<K(!new), V>(k: K, v: V)
    ensures var s := After([PutOp(k, v, 1000)], 1, 60000);
            Get(s, k, 61000).1 == 0 && Get(s, k, 61001).1 == 2
  {
    var ops: seq<Op<K, V>> := [PutOp(k, v, 1000)];
    assert ops[..0] == [];
    assert After(ops[..0], 1, 60000) == [];
    var s := After(ops, 1, 60000);
    assert s == [Slot(k, Some(v), 61000)];
    assert s[0].key == k;
  }
}
