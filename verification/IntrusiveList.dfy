/** A circular doubly linked list whose links live inside the elements.

`m_head` is a node without data. A node that is in no list points to itself. */
module IntrusiveList {
  import opened Sequences
  import opened Wrappers

  class Node<K, D> {
    var prev: Node<K, D>
    var next: Node<K, D>
    const key: Option<K> // identifies the element; None for the head of a list
    var data: Option<D>

    constructor (k: Option<K>, d: Option<D>)
      ensures key == k && data == d && Ring([this, this])
    {
      prev, next, key, data := this, this, k, d;
    }

    /** `unlink`: leave the ring in which this node stands at position `k`. */
    method Unlink(ghost ring: seq<Node<K, D>>, ghost k: nat)
      requires Ring(ring) && k < |ring| - 1 && ring[k] == this && (k > 0 || |ring| == 2)
      modifies ring`prev, ring`next
      ensures Ring([this, this])
      ensures k > 0 ==> Ring(Without(ring, k))
    {
      next.prev := prev;
      prev.next := next;
      prev, next := this, this;
      if k > 0 {
        ghost var r := Without(ring, k);
        forall i | 0 <= i < |r| - 1 ensures r[i].next == r[i + 1] {
          assert r[i] == ring[if i < k then i else i + 1];
        }
        forall i | 0 < i < |r| ensures r[i].prev == r[i - 1] {
          assert r[i] == ring[if i < k then i else i + 1];
        }
      }
    }

    /** `intrusive_list::add`: link this node between the neighbours at `k` and `k + 1`. */
    method LinkBetween(before: Node<K, D>, after: Node<K, D>, ghost ring: seq<Node<K, D>>, ghost k: nat)
      requires Ring(ring) && k < |ring| - 1 && this !in ring
      requires before == ring[k] && after == ring[k + 1]
      modifies this`prev, this`next, ring`prev, ring`next
      ensures Ring(Inserted(ring, k, this))
    {
      after.prev := this;
      next := after;
      prev := before;
      before.next := this;
      ghost var r := Inserted(ring, k, this);
      forall i | 0 <= i < |r| - 1 ensures r[i].next == r[i + 1] {
        assert i != k + 1 ==> r[i] == ring[if i <= k then i else i - 1];
      }
      forall i | 0 < i < |r| ensures r[i].prev == r[i - 1] {
        assert i != k + 1 ==> r[i] == ring[if i <= k then i else i - 1];
      }
    }
  }

  /** One ring, written from a node all the way round to the same node again,
      linked in both directions and visiting no other node twice. */
  ghost predicate Ring<K, D>(ring: seq<Node<K, D>>)
    reads ring`prev, ring`next
  {
    && |ring| >= 2 && ring[0] == ring[|ring| - 1]
    && (forall i, j :: 0 < i < j < |ring| ==> ring[i] != ring[j])
    && (forall i {:trigger ring[i].next} :: 0 <= i < |ring| - 1 ==> ring[i].next == ring[i + 1])
    && (forall i {:trigger ring[i].prev} :: 0 < i < |ring| ==> ring[i].prev == ring[i - 1])
  }

  lemma WholeWithout<T>(h: T, s: seq<T>, k: nat)
    requires k < |s|
    ensures [h] + Without(s, k) + [h] == Without([h] + s + [h], k + 1)
  {
  }

  lemma WithoutOnce<T>(s: seq<T>, k: nat)
    requires k < |s| && Distinct(s)
    ensures s[k] !in Without(s, k)
  {
    forall i | 0 <= i < |s| - 1 ensures Without(s, k)[i] != s[k] {
      assert Without(s, k)[i] == s[if i < k then i else i + 1];
    }
  }

  ghost function Inserted<T>(s: seq<T>, k: nat, x: T): seq<T>
    requires k < |s|
  {
    s[..k + 1] + [x] + s[k + 1..]
  }

  class List<K, D> {
    const head: Node<K, D>
    ghost var elems: seq<Node<K, D>>

    ghost function Whole(): seq<Node<K, D>>
      reads this
    {
      [head] + elems + [head]
    }

    ghost predicate Valid()
      reads this, head`prev, head`next, elems`prev, elems`next
    {
      head.key.None? && Ring(Whole())
    }

    /** The head is no element and no element occurs twice. */
    lemma Elements()
      requires Valid()
      ensures head !in elems && Distinct(elems)
    {
      var ring := Whole();
      assert ring[|elems| + 1] == head;
      assert forall i :: 0 <= i < |elems| ==> ring[i + 1] == elems[i];
    }

    constructor ()
      ensures Valid() && elems == [] && fresh(head)
    {
      head := new Node(None, None);
      new;
      elems := [];
      assert Whole() == [head, head];
    }

    method Empty() returns (empty: bool)
      requires Valid()
      ensures empty <==> elems == []
    {
      Elements();
      assert Whole()[0] == head && Whole()[|elems| + 1] == head;
      var next := head.next;
      empty := next == head && next == head.prev;
    }

    method Front() returns (n: Node<K, D>)
      requires Valid() && elems != []
      ensures n == elems[0]
    {
      assert Whole()[0] == head;
      n := head.next;
    }

    method Back() returns (n: Node<K, D>)
      requires Valid() && elems != []
      ensures n == elems[|elems| - 1]
    {
      assert Whole()[|elems| + 1] == head;
      n := head.prev;
    }

    method PushFront(n: Node<K, D>)
      requires Valid() && n != head && n !in elems
      modifies this`elems, n`prev, n`next, head`prev, head`next, elems`prev, elems`next
      ensures Valid() && elems == [n] + old(elems)
    {
      ghost var ring := Whole();
      assert ring[0] == head;
      n.LinkBetween(head, head.next, ring, 0);
      elems := [n] + elems;
      assert Whole() == Inserted(ring, 0, n);
    }

    method PushBack(n: Node<K, D>)
      requires Valid() && n != head && n !in elems
      modifies this`elems, n`prev, n`next, head`prev, head`next, elems`prev, elems`next
      ensures Valid() && elems == old(elems) + [n]
    {
      ghost var ring := Whole();
      assert ring[|elems| + 1] == head;
      n.LinkBetween(head.prev, head, ring, |elems|);
      elems := elems + [n];
      assert Whole() == Inserted(ring, |ring| - 2, n);
    }

    method Erase(n: Node<K, D>, ghost k: nat)
      requires Valid() && k < |elems| && elems[k] == n
      modifies this`elems, head`prev, head`next, elems`prev, elems`next
      ensures Valid() && elems == Without(old(elems), k) && Ring([n, n])
    {
      ghost var ring := Whole();
      WholeWithout(head, elems, k);
      n.Unlink(ring, k + 1);
      elems := Without(elems, k);
    }

    /** `pop_front`, with the front node already at hand. */
    method PopFront(n: Node<K, D>)
      requires Valid() && elems != [] && elems[0] == n
      modifies this`elems, head`prev, head`next, elems`prev, elems`next
      ensures Valid() && elems == old(elems)[1..] && Ring([n, n])
    {
      assert Without(elems, 0) == elems[1..];
      Erase(n, 0);
    }

    /** `unlink` on a node that may or may not be in this list (`at` tells where). */
    method Detach(n: Node<K, D>, ghost at: nat)
      requires Valid() && n != head
      requires if at < |elems| then elems[at] == n else n !in elems && Ring([n, n])
      modifies this`elems, n`prev, n`next, head`prev, head`next, elems`prev, elems`next
      ensures Valid() && Ring([n, n]) && n !in elems
      ensures elems == if at < |old(elems)| then Without(old(elems), at) else old(elems)
    {
      Elements();
      ghost var ring := if at < |elems| then Whole() else [n, n];
      n.Unlink(ring, if at < |elems| then at + 1 else 0);
      if at < |elems| {
        WholeWithout(head, elems, at);
        WithoutOnce(elems, at);
        elems := Without(elems, at);
      } else {
        ghost var whole := Whole();
        assert forall i :: 0 <= i < |whole| ==> whole[i] != n;
      }
    }

    /** `unlink` and then `push_back`. */
    method MoveToBack(n: Node<K, D>, ghost at: nat)
      requires Valid() && n != head
      requires if at < |elems| then elems[at] == n else n !in elems && Ring([n, n])
      modifies this`elems, n`prev, n`next, head`prev, head`next, elems`prev, elems`next
      ensures Valid() && elems == (if at < |old(elems)| then Without(old(elems), at) else old(elems)) + [n]
    {
      Detach(n, at);
      PushBack(n);
    }

    method Clear()
      requires Valid()
      modifies this`elems, head`prev, head`next, elems`prev, elems`next
      ensures Valid() && elems == []
      ensures forall n :: n in old(elems) ==> Ring([n, n])
    {
      ghost var all, done := elems, 0;
      Elements();
      assert Whole()[0] == head;
      var i := head.next;
      while i != head
        invariant Valid() && 0 <= done <= |all| && elems == all[done..]
        invariant i == if elems == [] then head else elems[0]
        invariant forall k :: 0 <= k < done ==> Ring([all[k], all[k]])
        decreases |elems|
      {
        var n := i;
        assert Whole()[1] == n;
        i := i.next;
        PopFront(n);
        done := done + 1;
      }
      Elements();
    }

    /** `splice` of another list: everything moves out of it to the front of this one. */
    method SpliceOther(other: List<K, D>)
      requires Valid() && other.Valid() && this != other && Apart(Whole(), other.Whole())
      modifies this`elems, other`elems, head`prev, head`next, elems`prev, elems`next
      modifies other.head`prev, other.head`next, other.elems`prev, other.elems`next
      ensures Valid() && other.Valid()
      ensures elems == old(other.elems) + old(elems) && other.elems == []
    {
      var empty := other.Empty();
      if empty {
        return;
      }
      ghost var mine, theirs := Whole(), other.Whole();
      assert mine[0] == head && theirs[0] == other.head;
      Join(head, other.head, mine, theirs);
      ghost var joined := other.elems + elems;
      assert Ring([head] + joined + [head]) by {
        SplicedWhole(head, elems, other.head, other.elems);
      }
      assert Ring([other.head] + [] + [other.head]) by {
        InnerWhole(other.head, other.elems);
      }
      elems, other.elems := joined, [];
    }

    /** `splice` of the list itself: it is emptied, and its elements are left linked to each
        other in a ring without head. */
    method SpliceSelf()
      requires Valid()
      modifies this`elems, head`prev, head`next, elems`prev, elems`next
      ensures Valid() && elems == []
      ensures old(elems) != [] ==> Ring(old(elems) + [old(elems)[0]])
    {
      var empty := Empty();
      if empty {
        return;
      }
      ghost var whole, all := Whole(), elems;
      InnerWhole(head, all);
      assert whole[1] == all[0] && whole[0] == head;
      Join(head, head, whole, whole);
      assert Ring(all + [all[0]]);
      assert Ring([head] + [] + [head]);
      elems := [];
    }

    /** `splice`. Its pointer writes are the same whether or not the lists are; the two cases are
        told apart here because they mean different things. */
    method Splice(other: List<K, D>)
      requires Valid() && other.Valid()
      requires this == other || Apart(Whole(), other.Whole())
      modifies this`elems, other`elems, head`prev, head`next, elems`prev, elems`next
      modifies other.head`prev, other.head`next, other.elems`prev, other.elems`next
      ensures Valid() && other.Valid() && other.elems == []
      ensures this != other ==> elems == old(other.elems) + old(elems)
      ensures this == other && old(elems) != [] ==> Ring(old(elems) + [old(elems)[0]])
    {
      if this == other {
        SpliceSelf();
      } else {
        SpliceOther(other);
      }
    }
  }

  ghost predicate Apart<T>(a: seq<T>, b: seq<T>) {
    forall i, j :: 0 <= i < |a| && 0 <= j < |b| ==> a[i] != b[j]
  }

  lemma InnerWhole<T>(h: T, s: seq<T>)
    ensures ([h] + s + [h])[1..|s| + 1] == s && [h] + [] + [h] == [h, h]
  {
  }

  lemma SplicedWhole<T>(h: T, mine: seq<T>, o: T, theirs: seq<T>)
    ensures [h] + (theirs + mine) + [h]
         == [([h] + mine + [h])[0]] + ([o] + theirs + [o])[1..|theirs| + 1] + ([h] + mine + [h])[1..]
  {
    InnerWhole(o, theirs);
    assert ([h] + mine + [h])[1..] == mine + [h];
  }

  /** The pointer writes of `splice` on two disjoint rings or on one, the second one not empty. */
  method Join<K, D>(head: Node<K, D>, other: Node<K, D>, ghost mine: seq<Node<K, D>>, ghost theirs: seq<Node<K, D>>)
    requires Ring(mine) && Ring(theirs) && mine[0] == head && theirs[0] == other && |theirs| > 2
    requires if head == other then mine == theirs else Apart(mine, theirs)
    modifies mine`prev, mine`next, theirs`prev, theirs`next
    ensures head != other ==> Ring([mine[0]] + theirs[1..|theirs| - 1] + mine[1..])
    ensures Ring([other, other])
    ensures head == other ==> Ring(theirs[1..|theirs| - 1] + [theirs[1]])
  {
    ghost var m := |theirs| - 2;
    assert theirs[m + 1] == other && mine[|mine| - 1] == head;
    var first := other.next;
    var last := other.prev;
    var at := head.next;
    assert first == theirs[1] && last == theirs[m] && at == mine[1];
    first.prev := head;
    head.next := first;
    last.next := at;
    at.prev := last;
    other.prev, other.next := other, other;
    assert forall i :: 0 < i < m ==> theirs[i].next == theirs[i + 1];
    assert forall i :: 1 < i <= m ==> theirs[i].prev == theirs[i - 1];
    if head == other {
      LoopedRing(theirs);
    } else {
      assert forall i :: 0 < i < |mine| - 1 ==> mine[i].next == mine[i + 1];
      assert forall i :: 1 < i < |mine| ==> mine[i].prev == mine[i - 1];
      SplicedRing(mine, theirs);
    }
  }

  /** What they leave behind of a list spliced into itself. */
  lemma LoopedRing<K, D>(ring: seq<Node<K, D>>)
    requires |ring| > 2 && forall i, j :: 0 < i < j < |ring| ==> ring[i] != ring[j]
    requires forall i :: 0 < i < |ring| - 2 ==> ring[i].next == ring[i + 1]
    requires forall i :: 1 < i < |ring| - 1 ==> ring[i].prev == ring[i - 1]
    requires ring[|ring| - 2].next == ring[1] && ring[1].prev == ring[|ring| - 2]
    ensures Ring(ring[1..|ring| - 1] + [ring[1]])
  {
    var r := ring[1..|ring| - 1] + [ring[1]];
    assert forall i :: 0 <= i < |r| - 1 ==> r[i] == ring[i + 1];
  }

  /** What the pointer writes of `splice` leave behind is the joined ring. */
  lemma SplicedRing<K, D>(mine: seq<Node<K, D>>, theirs: seq<Node<K, D>>)
    requires |mine| >= 2 && mine[0] == mine[|mine| - 1] && |theirs| > 2
    requires forall i, j :: 0 < i < j < |mine| ==> mine[i] != mine[j]
    requires forall i, j :: 0 < i < j < |theirs| ==> theirs[i] != theirs[j]
    requires Apart(mine, theirs)
    requires forall i :: 0 < i < |mine| - 1 ==> mine[i].next == mine[i + 1]
    requires forall i :: 1 < i < |mine| ==> mine[i].prev == mine[i - 1]
    requires forall i :: 0 < i < |theirs| - 2 ==> theirs[i].next == theirs[i + 1]
    requires forall i :: 1 < i < |theirs| - 1 ==> theirs[i].prev == theirs[i - 1]
    requires mine[0].next == theirs[1] && theirs[1].prev == mine[0]
    requires theirs[|theirs| - 2].next == mine[1] && mine[1].prev == theirs[|theirs| - 2]
    ensures Ring([mine[0]] + theirs[1..|theirs| - 1] + mine[1..])
  {
    var m := |theirs| - 2;
    var r := [mine[0]] + theirs[1..|theirs| - 1] + mine[1..];
    assert forall i :: 0 < i <= m ==> r[i] == theirs[i];
    assert forall i :: m < i < |r| ==> r[i] == mine[i - m];
  }
}
