/** The cache itself: a map from keys to nodes whose links form the LRU ring.

The clock is a parameter. `slots` is the abstract state; every method is proved to
do on the map and the ring what `LruSpec` does on a list of slots. */
module MemoryCaching {
  import IL = IntrusiveList
  import opened LruSpec
  import opened Sequences
  import opened Wrappers

  datatype Content<V> = Content(value: Option<V>, expiry: nat)

  type Node<K, V> = IL.Node<K, Content<V>>

  /** The map holds exactly the listed nodes, each under its own key. */
  ghost predicate Mapped<K(!new), V>(entries: map<K, Node<K, V>>, elems: seq<Node<K, V>>) {
    && (forall n :: n in elems ==> n.key.Some? && n.key.value in entries && entries[n.key.value] == n)
    && (forall k :: k in entries ==> entries[k] in elems && entries[k].key == Some(k))
  }

  /** Every listed node carries its slot. */
  ghost predicate Filled<K, V>(elems: seq<Node<K, V>>, slots: seq<Slot<K, V>>)
    reads elems`data
  {
    |elems| == |slots| && forall i :: 0 <= i < |slots| ==> Carries(elems[i], slots[i])
  }

  ghost predicate Carries<K, V>(n: Node<K, V>, slot: Slot<K, V>)
    reads n`data
  {
    n.key == Some(slot.key) && n.data == Some(Content(slot.value, slot.expiry))
  }

  lemma MappedFront<K(!new), V>(entries: map<K, Node<K, V>>, elems: seq<Node<K, V>>)
    requires Mapped(entries, elems) && Distinct(elems) && elems != []
    ensures var k := elems[|elems| - 1].key; k.Some? && k.value in entries && Mapped(entries - {k.value}, elems[..|elems| - 1])
  {
    var front, n := elems[..|elems| - 1], elems[|elems| - 1];
    assert elems == front + [n];
    assert n in elems && n !in front;
  }

  lemma {:induction false} MappedSize<K(!new), V>(entries: map<K, Node<K, V>>, elems: seq<Node<K, V>>)
    requires Mapped(entries, elems) && Distinct(elems)
    ensures |entries| == |elems|
    decreases |elems|
  {
    if elems == [] {
      assert entries.Keys == {};
    } else {
      MappedFront(entries, elems);
      var k := elems[|elems| - 1].key.value;
      MappedSize(entries - {k}, elems[..|elems| - 1]);
      assert entries.Keys == (entries - {k}).Keys + {k};
    }
  }

  /** A key is in the map exactly if it has a slot, and then its node stands there. */
  lemma Position<K(!new), V>(entries: map<K, Node<K, V>>, elems: seq<Node<K, V>>, slots: seq<Slot<K, V>>, k: K)
    requires Mapped(entries, elems) && Filled(elems, slots)
    ensures k in entries <==> Has(slots, k)
    ensures k in entries ==> entries[k] == elems[Find(slots, k)]
  {
    var at := Find(slots, k);
    if k in entries {
      var i :| 0 <= i < |elems| && elems[i] == entries[k];
      assert slots[i].key == k;
    }
    if at < |slots| {
      assert elems[at] in elems;
    }
  }

  ghost function MovedLast<T>(s: seq<T>, at: nat, x: T): seq<T> {
    (if at < |s| then Without(s, at) else s) + [x]
  }

  lemma MovedAt<T>(s: seq<T>, at: nat, x: T)
    requires at <= |s|
    ensures var t := MovedLast(s, at, x);
            && |t| == |s| + (if at < |s| then 0 else 1) && t[|t| - 1] == x
            && (forall i :: 0 <= i < at ==> t[i] == s[i])
            && (forall i :: at <= i < |t| - 1 ==> t[i] == s[i + 1])
  {
  }

  lemma StaysLast<T>(s: seq<T>, at: nat)
    requires Distinct(s) && s != [] && at < |s| && s[at] == s[|s| - 1]
    ensures MovedLast(s, at, s[at]) == s
  {
  }

  lemma MovedMembers<T>(s: seq<T>, at: nat, x: T)
    requires at < |s| ==> s[at] == x
    ensures forall y :: y in MovedLast(s, at, x) <==> y in s || y == x
  {
    if at < |s| {
      assert s == s[..at] + [x] + s[at + 1..];
    }
  }

  /** Putting a node last under its key keeps map and list in step. */
  lemma MappedMoved<K(!new), V>(entries: map<K, Node<K, V>>, elems: seq<Node<K, V>>, at: nat, n: Node<K, V>)
    requires Mapped(entries, elems) && n.key.Some?
    requires if at < |elems| then elems[at] == n else n.key.value !in entries
    ensures Mapped(entries[n.key.value := n], MovedLast(elems, at, n))
  {
    MovedMembers(elems, at, n);
  }

  lemma FilledMoved<K, V>(elems: seq<Node<K, V>>, slots: seq<Slot<K, V>>, at: nat, n: Node<K, V>, slot: Slot<K, V>)
    requires |elems| == |slots| && at <= |slots| && Carries(n, slot)
    requires forall i :: 0 <= i < |slots| && i != at ==> Carries(elems[i], slots[i])
    ensures Filled(MovedLast(elems, at, n), MovedLast(slots, at, slot))
  {
    MovedAt(elems, at, n);
    MovedAt(slots, at, slot);
  }

  lemma PutFills<K, V>(s: seq<Slot<K, V>>, capacity: nat, life: int, k: K, v: V, now: nat)
    requires !PutRefused(s, k, now)
    ensures var t := MovedLast(s, Find(s, k), Slot(k, Some(v), ExpiryTime(now, life)));
            Put(s, capacity, life, k, v, now) ==
            if |t| > capacity then (t[1..], CAPACITY_NOT_ENOUGH) else (t, 0)
  {
  }

  /** Discarding the first node under its key keeps map and list in step. */
  lemma MappedRest<K(!new), V>(entries: map<K, Node<K, V>>, elems: seq<Node<K, V>>)
    requires Mapped(entries, elems) && Distinct(elems) && elems != []
    ensures elems[0].key.Some? && Mapped(entries - {elems[0].key.value}, elems[1..])
  {
    assert elems == [elems[0]] + elems[1..];
    assert elems[0] in elems;
  }

  lemma FilledRest<K, V>(elems: seq<Node<K, V>>, slots: seq<Slot<K, V>>)
    requires Filled(elems, slots) && elems != []
    ensures Filled(elems[1..], slots[1..])
  {
  }

  class MemoryCache<K(!new, ==), V> {
    const capacity: nat
    const life: int
    const lru: IL.List<K, Content<V>>
    var entries: map<K, Node<K, V>>
    ghost var slots: seq<Slot<K, V>>
    ghost var ops: seq<Op<K, V>> // every call so far

    /** The ring is well formed and holds exactly the map's nodes, each once. */
    ghost predicate InStep()
      reads this, lru, lru.head, lru.elems
    {
      && lru.Valid()
      && Mapped(entries, lru.elems)
      && Filled(lru.elems, slots)
    }

    ghost predicate Within()
      reads this, lru, lru.head, lru.elems
    {
      InStep() && |slots| <= capacity
    }

    /** And the slots are what the calls so far leave in a list. */
    ghost predicate Valid()
      reads this, lru, lru.head, lru.elems
    {
      Within() && slots == After(ops, capacity, life)
    }

    /** The cache holds exactly the most recently touched keys, least recent first, each with
        the value last accepted for it. */
    lemma Recency()
      requires Valid()
      ensures MostRecent(slots, TouchOf(ops, capacity, life), capacity)
      ensures LastValues(slots, PutOf(ops, capacity, life))
    {
      HistoryHolds(ops, capacity, life);
    }

    constructor (capacity: nat, life: int)
      ensures Valid() && ops == [] && this.capacity == capacity && this.life == life && fresh(lru) && fresh(lru.head)
    {
      this.capacity, this.life := capacity, life;
      lru := new IL.List();
      entries, slots, ops := map[], [], [];
    }

    /** `MarkAsHot`: the node, whether in the ring or alone, ends up last. */
    method MarkAsHot(node: Node<K, V>, ghost at: nat)
      requires lru.Valid() && node != lru.head
      requires if at < |lru.elems| then lru.elems[at] == node else node !in lru.elems && IL.Ring([node, node])
      modifies lru`elems, node`prev, node`next, lru.head`prev, lru.head`next, lru.elems`prev, lru.elems`next
      ensures lru.Valid() && lru.elems == MovedLast(old(lru.elems), at, node)
    {
      var isLast := IsBack(node, at);
      if isLast {
        return;
      }
      lru.MoveToBack(node, at);
    }

    /** The test in front: the node is already the last one. */
    method IsBack(node: Node<K, V>, ghost at: nat) returns (isLast: bool)
      requires lru.Valid() && (if at < |lru.elems| then lru.elems[at] == node else node !in lru.elems)
      ensures isLast ==> lru.elems == MovedLast(lru.elems, at, node)
      ensures isLast <==> lru.elems != [] && node == lru.elems[|lru.elems| - 1]
    {
      lru.Elements();
      var empty := lru.Empty();
      if empty {
        return false;
      }
      var back := lru.Back();
      isLast := node == back;
      if isLast {
        StaysLast(lru.elems, at);
      }
    }

    /** `DiscardOneElement`: the first node of the ring leaves the map and, with it, the ring. */
    method DiscardOneElement() returns (found: bool)
      requires InStep()
      modifies this`entries, this`slots, lru`elems, lru.head`prev, lru.head`next, lru.elems`prev, lru.elems`next
      ensures InStep() && (found <==> old(slots) != [])
      ensures slots == if found then old(slots)[1..] else old(slots)
      ensures lru.elems == if found then old(lru.elems)[1..] else old(lru.elems)
    {
      var empty := lru.Empty();
      if !empty {
        var node := lru.Front();
        Discard(node);
        return true;
      }
      return false;
    }

    /** Erasing a map entry destroys its node, which unlinks itself. */
    method Discard(node: Node<K, V>)
      requires InStep() && slots != [] && node == lru.elems[0]
      modifies this`entries, this`slots, lru`elems, lru.head`prev, lru.head`next, lru.elems`prev, lru.elems`next
      ensures InStep() && slots == old(slots)[1..] && lru.elems == old(lru.elems)[1..]
    {
      lru.Elements();
      MappedRest(entries, lru.elems);
      FilledRest(lru.elems, slots);
      ghost var restElems, restSlots := lru.elems[1..], slots[1..];
      lru.PopFront(node);
      assert Filled(restElems, restSlots);
      entries := entries - {node.key.value};
      slots := restSlots;
    }

    /** `PutWithDetail`. */
    method PutWithDetail(key: K, value: V, now: nat) returns (code: int)
      requires Valid()
      modifies this, lru, lru.head, lru.elems
      ensures Valid() && ops == old(ops) + [PutOp(key, value, now)]
      ensures (slots, code) == Put(old(slots), capacity, life, key, value, now)
      ensures forall n :: n in lru.elems ==> n in old(lru.elems) || fresh(n)
    {
      code := PutSlot(key, value, now);
      Record(PutOp(key, value, now));
    }

    method PutSlot(key: K, value: V, now: nat) returns (code: int)
      requires Within()
      modifies this`entries, this`slots, lru, lru.head, lru.elems
      ensures Within() && (slots, code) == Put(old(slots), capacity, life, key, value, now)
      ensures forall n :: n in lru.elems ==> n in old(lru.elems) || fresh(n)
    {
      ghost var at := Find(slots, key);
      var node := FindOrCreate(key);
      if node.data.value.expiry != 0 && node.data.value.expiry > now {
        assert at < |slots| && entries == old(entries);
        return NOT_EXPIRED;
      }
      PutFills(slots, capacity, life, key, value, now);
      code := Fill(node, at, Slot(key, Some(value), ExpiryTime(now, life)));
    }

    /** The call just made becomes part of the history. */
    ghost method Record(op: Op<K, V>)
      requires slots == AfterOne(After(ops, capacity, life), op, capacity, life)
      modifies this`ops
      ensures ops == old(ops) + [op] && slots == After(ops, capacity, life)
    {
      assert (ops + [op])[..|ops|] == ops;
      ops := ops + [op];
    }

    /** The part of `Put` that changes an entry: fill the node, make it the most recent
        one, and discard the least recent one if there are now too many. */
    method Fill(node: Node<K, V>, ghost at: nat, slot: Slot<K, V>) returns (code: int)
      requires lru.Valid() && Filled(lru.elems, slots) && |slots| <= capacity && at <= |slots|
      requires node != lru.head && node.key == Some(slot.key) && Mapped(entries, MovedLast(lru.elems, at, node))
      requires if at < |lru.elems| then lru.elems[at] == node else node !in lru.elems && IL.Ring([node, node])
      modifies this`entries, this`slots, node, lru`elems, lru.head`prev, lru.head`next, lru.elems`prev, lru.elems`next
      ensures Within()
      ensures var t := MovedLast(old(slots), at, slot);
              if |t| > capacity then slots == t[1..] && code == CAPACITY_NOT_ENOUGH else slots == t && code == 0
      ensures forall n :: n in lru.elems ==> n in old(lru.elems) || n == node
    {
      lru.Elements();
      node.data := Some(Content(slot.value, slot.expiry));
      Rehang(node, at, slot);
      if |entries| > capacity {
        var _ := DiscardOneElement();
        return CAPACITY_NOT_ENOUGH;
      }
      return 0;
    }

    /** `map_[key]`: a missing key gets an empty node that is in no list yet. */
    method FindOrCreate(key: K) returns (node: Node<K, V>)
      requires Within()
      modifies this`entries
      ensures node.key == Some(key) && node != lru.head && entries == old(entries)[key := node]
      ensures key in old(entries) ==> entries == old(entries)
      ensures var at := Find(slots, key);
              && Mapped(entries, MovedLast(lru.elems, at, node))
              && if at < |slots| then key in old(entries) && node == lru.elems[at] && Carries(node, slots[at])
                 else fresh(node) && IL.Ring([node, node]) && node.data == Some(Content(None, 0))
    {
      ghost var at := Find(slots, key);
      Position(entries, lru.elems, slots, key);
      if key !in entries {
        var created := new IL.Node(Some(key), Some(Content(None, 0)));
        entries := entries[key := created];
      }
      node := entries[key];
      MappedMoved(old(entries), lru.elems, at, node);
      assert entries == old(entries)[key := node];
    }

    /** Make a node that carries `slot` the most recent one. */
    method Rehang(node: Node<K, V>, ghost at: nat, ghost slot: Slot<K, V>)
      requires lru.Valid() && node != lru.head && |lru.elems| == |slots| && at <= |slots|
      requires if at < |lru.elems| then lru.elems[at] == node else node !in lru.elems && IL.Ring([node, node])
      requires Mapped(entries, MovedLast(lru.elems, at, node)) && Carries(node, slot)
      requires forall i :: 0 <= i < |slots| && i != at ==> Carries(lru.elems[i], slots[i])
      modifies this`slots, lru`elems, node`prev, node`next, lru.head`prev, lru.head`next, lru.elems`prev, lru.elems`next
      ensures InStep() && slots == MovedLast(old(slots), at, slot) && |entries| == |slots|
      ensures forall n :: n in lru.elems ==> n in old(lru.elems) || n == node
    {
      ghost var e, s := MovedLast(lru.elems, at, node), MovedLast(slots, at, slot);
      MovedMembers(lru.elems, at, node);
      FilledMoved(lru.elems, slots, at, node, slot);
      MarkAsHot(node, at);
      assert Filled(e, s);
      lru.Elements();
      MappedSize(entries, e);
      slots := s;
    }

    /** `GetWithDetail`: `value` is set exactly when the code is 0. */
    method GetWithDetail(key: K, now: nat) returns (code: int, value: Option<V>)
      requires Valid()
      modifies this`slots, this`ops, lru`elems, lru.head`prev, lru.head`next, lru.elems`prev, lru.elems`next
      ensures Valid() && ops == old(ops) + [GetOp(key, now)]
      ensures (slots, code) == Get(old(slots), key, now)
      ensures value == if code == 0 then LastPut(old(ops), capacity, life, key) else None
      ensures code == 0 ==> value.Some?
      ensures forall n :: n in lru.elems ==> n in old(lru.elems)
    {
      if GetCode(slots, key, now) == 0 {
        GetReturnsLastPut(ops, capacity, life, key, now);
      }
      code, value := GetSlot(key, now);
      Record(GetOp(key, now));
    }

    method GetSlot(key: K, now: nat) returns (code: int, value: Option<V>)
      requires Within()
      modifies this`slots, lru`elems, lru.head`prev, lru.head`next, lru.elems`prev, lru.elems`next
      ensures Within() && (slots, code) == Get(old(slots), key, now)
      ensures value == if code == 0 then old(slots[Find(slots, key)].value) else None
      ensures forall n :: n in lru.elems ==> n in old(lru.elems)
    {
      ghost var at := Find(slots, key);
      Position(entries, lru.elems, slots, key);
      if key !in entries {
        return NOT_IN_CACHE, None;
      }
      var node := entries[key];
      if node.data.value.expiry < now {
        return EXPIRED, None;
      }
      value := node.data.value.value;
      lru.Elements();
      MappedMoved(entries, lru.elems, at, node);
      assert entries == entries[key := node];
      Rehang(node, at, slots[at]);
      return 0, value;
    }
  }
}
