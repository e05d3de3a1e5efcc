/** A longest-prefix index kept as a digest table and a count of live keys per length. */
module PrefixMaps {
  import opened Wrappers

  /** A string, handled as a whole except for its length and its prefixes. */
  datatype Piece = Piece(chars: string) {
    function Size(): nat {
      |chars|
    }

    function Head(n: nat): Piece
      requires n <= Size()
    {
      Piece(chars[..n])
    }
  }

  datatype Entry<V> = Entry(inclusive: bool, value: V)

  // ---------------------------------------------------------------------------
  // Specification: the stored strings
  // ---------------------------------------------------------------------------

  /** The prefix of `str` of length `n` is stored; `str` itself only matches an inclusive entry. */
  ghost predicate Matches<V>(live: map<Piece, Entry<V>>, str: Piece, n: nat) {
    n <= str.Size() && str.Head(n) in live && (n == str.Size() ==> live[str.Head(n)].inclusive)
  }

  /** `length` is the longest match shorter than `bound`, or -1 if there is none. */
  ghost predicate IsLongest<V>(live: map<Piece, Entry<V>>, str: Piece, bound: nat, length: int) {
    && (length == -1 || (0 <= length < bound && Matches(live, str, length)))
    && (forall n: nat :: n < bound && Matches(live, str, n) ==> n <= length)
  }

  /** A map with one entry: a string finds it exactly if it is longer and begins with it, or is the
      very string and the entry is inclusive. */
  lemma OneEntry<V>(key: Piece, entry: Entry<V>, str: Piece, length: int)
    ensures IsLongest(map[key := entry], str, str.Size() + 1, length) <==>
            length == if key.chars <= str.chars && (entry.inclusive || |key.chars| < |str.chars|) then |key.chars| else -1
  {
    var live := map[key := entry];
    if key.chars <= str.chars {
      assert str.Head(|key.chars|) == key;
    }
    assert forall n: nat :: n <= str.Size() && str.Head(n) == key ==> n == |key.chars| && key.chars <= str.chars;
    assert Matches(live, str, |key.chars|) <==> key.chars <= str.chars && (entry.inclusive || |key.chars| < |str.chars|);
  }

  ghost function KeysOfLength(keys: set<Piece>, n: nat): set<Piece> {
    set k | k in keys && k.Size() == n
  }

  /** No stored string other than `str` has its digest. */
  ghost predicate NoCollision<V>(live: map<Piece, Entry<V>>, digest: Piece -> nat, str: Piece) {
    forall k :: k in live && digest(k) == digest(str) ==> k == str
  }

  /** No stored string collides with a different prefix of `str`. */
  ghost predicate NoPrefixCollision<V>(live: map<Piece, Entry<V>>, digest: Piece -> nat,
                                       str: Piece)
  {
    forall n :: 0 <= n <= str.Size() ==> NoCollision(live, digest, str.Head(n))
  }

  /** The digest table holds the live entries, each under its owner's digest, and nothing else. */
  ghost predicate TableHolds<V>(table: map<nat, Entry<V>>, owner: map<nat, Piece>,
                                live: map<Piece, Entry<V>>, digest: Piece -> nat)
  {
    && table.Keys == owner.Keys
    && (forall d :: d in owner ==> owner[d] in live && digest(owner[d]) == d)
    && (forall k :: k in live ==>
      digest(k) in owner && owner[digest(k)] == k && table[digest(k)] == live[k])
  }

  /** The length index counts the live keys of each length; no length has a zero count. */
  ghost predicate LengthsCount(lengths: map<nat, nat>, keys: set<Piece>) {
    && (forall k :: k in keys ==> k.Size() in lengths)
    && (forall n :: n in lengths ==> lengths[n] > 0 && lengths[n] == |KeysOfLength(keys, n)|)
  }

  // ---------------------------------------------------------------------------
  // Upkeep
  // ---------------------------------------------------------------------------

  lemma DigestLookup<V>(table: map<nat, Entry<V>>, owner: map<nat, Piece>,
                        live: map<Piece, Entry<V>>, digest: Piece -> nat, str: Piece)
    requires TableHolds(table, owner, live, digest) && NoCollision(live, digest, str)
    ensures digest(str) in table <==> str in live
    ensures str in live ==> table[digest(str)] == live[str]
  {
  }

  lemma InsertKeepsTable<V>(table: map<nat, Entry<V>>, owner: map<nat, Piece>,
                            live: map<Piece, Entry<V>>, digest: Piece -> nat,
                            str: Piece, e: Entry<V>)
    requires TableHolds(table, owner, live, digest) && NoCollision(live, digest, str)
    ensures TableHolds(table[digest(str) := e], owner[digest(str) := str], live[str := e], digest)
  {
  }

  lemma RemoveKeepsTable<V>(table: map<nat, Entry<V>>, owner: map<nat, Piece>,
                            live: map<Piece, Entry<V>>, digest: Piece -> nat, str: Piece)
    requires TableHolds(table, owner, live, digest) && str in live
    ensures TableHolds(table - {digest(str)}, owner - {digest(str)}, live - {str}, digest)
  {
  }

  lemma CountAfterInsert(keys: set<Piece>, str: Piece, n: nat)
    requires str !in keys
    ensures |KeysOfLength(keys + {str}, n)|
         == |KeysOfLength(keys, n)| + if n == str.Size() then 1 else 0
  {
    var before, after := KeysOfLength(keys, n), KeysOfLength(keys + {str}, n);
    if n == str.Size() {
      assert after == before + {str};
    } else {
      assert after == before;
    }
  }

  /** The index after one more string of length `n`. */
  function Incremented(lengths: map<nat, nat>, n: nat): map<nat, nat> {
    lengths[n := (if n in lengths then lengths[n] else 0) + 1]
  }

  lemma InsertKeepsLengths(lengths: map<nat, nat>, keys: set<Piece>, str: Piece)
    requires LengthsCount(lengths, keys) && str !in keys
    ensures LengthsCount(Incremented(lengths, str.Size()), keys + {str})
  {
    if str.Size() !in lengths {
      assert KeysOfLength(keys, str.Size()) == {};
    }
    var after := Incremented(lengths, str.Size());
    forall n | n in after
      ensures after[n] == |KeysOfLength(keys + {str}, n)|
    {
      CountAfterInsert(keys, str, n);
    }
  }

  /** The index after one string of length `n` is gone. */
  function Decremented(lengths: map<nat, nat>, n: nat): map<nat, nat>
    requires n in lengths && lengths[n] > 0
  {
    if lengths[n] - 1 == 0 then lengths - {n} else lengths[n := lengths[n] - 1]
  }

  lemma RemoveKeepsLengths(lengths: map<nat, nat>, keys: set<Piece>, str: Piece)
    requires LengthsCount(lengths, keys) && str in keys
    ensures LengthsCount(Decremented(lengths, str.Size()), keys - {str})
  {
    var rest, after := keys - {str}, Decremented(lengths, str.Size());
    assert rest + {str} == keys;
    forall n | n in after
      ensures after[n] == |KeysOfLength(rest, n)|
    {
      CountAfterInsert(rest, str, n);
    }
    CountAfterInsert(rest, str, str.Size());
    forall k | k in rest
      ensures k.Size() in after
    {
      assert k in KeysOfLength(rest, k.Size());
    }
  }

  lemma LengthsAfterInsert<V>(lengths: map<nat, nat>, live: map<Piece, Entry<V>>,
                              str: Piece, e: Entry<V>)
    requires LengthsCount(lengths, live.Keys)
    ensures LengthsCount(if str in live then lengths else Incremented(lengths, str.Size()),
                         live[str := e].Keys)
  {
    assert live[str := e].Keys == live.Keys + {str};
    if str in live {
      assert live.Keys + {str} == live.Keys;
    } else {
      InsertKeepsLengths(lengths, live.Keys, str);
    }
  }

  lemma LengthsAfterRemove<V>(lengths: map<nat, nat>, live: map<Piece, Entry<V>>, str: Piece)
    requires LengthsCount(lengths, live.Keys) && str in live
    ensures str.Size() in lengths && lengths[str.Size()] > 0
    ensures LengthsCount(Decremented(lengths, str.Size()), (live - {str}).Keys)
  {
    RemoveKeepsLengths(lengths, live.Keys, str);
    assert (live - {str}).Keys == live.Keys - {str};
  }

  lemma RemoveAbsent<V>(live: map<Piece, Entry<V>>, str: Piece)
    requires str !in live
    ensures live - {str} == live
  {
  }

  // ---------------------------------------------------------------------------
  // The class
  // ---------------------------------------------------------------------------

  class PrefixMap<V> {
    const digest: Piece -> nat
    var table: map<nat, Entry<V>>
    var lengths: map<nat, nat>
    ghost var live: map<Piece, Entry<V>>
    ghost var owner: map<nat, Piece>

    ghost predicate Valid()
      reads this
    {
      TableHolds(table, owner, live, digest) && LengthsCount(lengths, live.Keys)
    }

    constructor (digest: Piece -> nat)
      ensures Valid() && live == map[] && this.digest == digest
    {
      this.digest := digest;
      table, lengths, live, owner := map[], map[], map[], map[];
    }

    /** Stores or overwrites `str`, and tells whether it is new. */
    method InternalInsert(str: Piece, value: V, inclusive: bool) returns (isNew: bool)
      requires Valid() && NoCollision(live, digest, str)
      modifies this
      ensures Valid() && live == old(live)[str := Entry(inclusive, value)]
      ensures isNew <==> str !in old(live)
    {
      var d, e := digest(str), Entry(inclusive, value);
      DigestLookup(table, owner, live, digest, str);
      InsertKeepsTable(table, owner, live, digest, str, e);
      LengthsAfterInsert(lengths, live, str, e);
      isNew := d !in table;
      table := table[d := e];
      if isNew {
        lengths := Incremented(lengths, str.Size());
      }
      live, owner := live[str := e], owner[d := str];
    }

    /** Forgets `str`, and tells whether it was stored. */
    method Remove(str: Piece) returns (found: bool)
      requires Valid() && NoCollision(live, digest, str)
      modifies this
      ensures Valid() && live == old(live) - {str}
      ensures found <==> str in old(live)
    {
      var d := digest(str);
      DigestLookup(table, owner, live, digest, str);
      found := d in table;
      if found {
        RemoveKeepsTable(table, owner, live, digest, str);
        LengthsAfterRemove(lengths, live, str);
        table, lengths := table - {d}, Decremented(lengths, str.Size());
        live, owner := live - {str}, owner - {d};
      } else {
        RemoveAbsent(live, str);
      }
    }

    /** The largest indexed length below `bound`: the index is ordered from long to short. */
    method LongestBelow(bound: nat) returns (length: Option<nat>)
      ensures length.Some? ==> length.value in lengths && length.value < bound
      ensures forall n :: n in lengths && n < bound ==> length.Some? && n <= length.value
    {
      var n := bound;
      while n > 0
        invariant n <= bound && forall m :: n <= m < bound ==> m !in lengths
      {
        n := n - 1;
        if n in lengths {
          return Some(n);
        }
      }
      length := None;
    }

    /** Tries the indexed lengths below `bound`, from long to short. */
    method FindShorter(str: Piece, bound: nat) returns (length: int, result: Option<V>)
      requires Valid() && NoPrefixCollision(live, digest, str) && bound <= str.Size()
      ensures IsLongest(live, str, bound, length)
      ensures result == if length == -1 then None else Some(live[str.Head(length)].value)
    {
      var i := LongestBelow(bound);
      while i.Some?
        invariant i.Some? ==> 0 <= i.value < bound
        invariant forall n: nat :: n < bound && Matches(live, str, n) ==> i.Some? && n <= i.value
        decreases if i.Some? then i.value + 1 else 0
      {
        var head := str.Head(i.value);
        DigestLookup(table, owner, live, digest, head);
        var d := digest(head);
        if d in table {
          return i.value, Some(table[d].value);
        }
        i := LongestBelow(i.value);
      }
      return -1, None;
    }

    /** The longest stored prefix, where `str` itself only counts if stored as inclusive. */
    method FindMatchLength(str: Piece) returns (length: int, result: Option<V>)
      requires Valid() && NoPrefixCollision(live, digest, str)
      ensures IsLongest(live, str, str.Size() + 1, length)
      ensures result == if length == -1 then None else Some(live[str.Head(length)].value)
    {
      var size := str.Size();
      assert str.Head(size) == str;
      if lengths == map[] {
        return -1, None;
      }
      var i := LongestBelow(size + 1);
      if i.None? {
        return -1, None;
      }
      var bound := i.value + 1;
      if i.value == size {
        DigestLookup(table, owner, live, digest, str);
        var d := digest(str);
        if d in table && table[d].inclusive {
          return size, Some(table[d].value);
        }
        bound := size;
      }
      length, result := FindShorter(str, bound);
    }

    /** Whether some prefix matches, and the value of the longest one. */
    method Find(str: Piece) returns (found: bool, result: Option<V>)
      requires Valid() && NoPrefixCollision(live, digest, str)
      ensures found <==> exists n: nat :: Matches(live, str, n)
      ensures !found ==> result == None
      ensures found ==> exists n: nat :: IsLongest(live, str, str.Size() + 1, n) && result == Some(live[str.Head(n)].value)
    {
      var length;
      length, result := FindMatchLength(str);
      found := length >= 0;
    }

    method Clear()
      modifies this
      ensures Valid() && live == map[]
    {
      lengths, table, live, owner := map[], map[], map[], map[];
    }

    /** The two containers are empty together, exactly when nothing is stored. */
    method Empty() returns (empty: bool)
      requires Valid()
      ensures empty <==> live == map[]
      ensures lengths == map[] <==> table == map[]
    {
      EmptyTogether(table, owner, lengths, live, digest);
      empty := lengths == map[];
    }
  }

  lemma EmptyTogether<V>(table: map<nat, Entry<V>>, owner: map<nat, Piece>,
                         lengths: map<nat, nat>, live: map<Piece, Entry<V>>,
                         digest: Piece -> nat)
    requires TableHolds(table, owner, live, digest) && LengthsCount(lengths, live.Keys)
    ensures lengths == map[] <==> live == map[]
    ensures table == map[] <==> live == map[]
  {
    if lengths != map[] {
      var n :| n in lengths;
      assert KeysOfLength(live.Keys, n) != {};
      var k :| k in KeysOfLength(live.Keys, n);
      assert k in live;
    }
    if live != map[] {
      var k :| k in live;
      assert k.Size() in lengths && digest(k) in table;
    }
    if table != map[] {
      var d :| d in table;
      assert owner[d] in live;
    }
  }
}
