/** The general-purpose hash set and hash map, at the level of their documented
    contracts. A key is a pointer-sized word that the tables never interpret;
    they only pass it to the user's hash and equality functions. The table
    layout is not part of this model: each table keeps its contents as a
    mathematical set or map of pairwise non-equivalent keys. */
module HashTable {
  import opened Wrappers

  /** A pointer-sized (64-bit) machine word, read as an unsigned number. */
  newtype Word = x: int | 0 <= x < 0x1_0000_0000_0000_0000

  /** hash_key_t: a word the table never interprets. */
  type Key = Word

  /** hash_data_t: a word; any value is allowed. */
  type Data = Word

  /** The two sentinel words that can never be stored as keys: NULL and ~0. */
  const Null: Key := 0
  const AllOnes: Key := 0xFFFF_FFFF_FFFF_FFFF

  predicate IsKey(k: Key)
  {
    k != Null && k != AllOnes
  }

  /** hash_functions_t: a hash function and an equality function; an absent
      equality function means comparing the words themselves. */
  datatype HashFunctions = HashFunctions(hash: Key -> bv32, equals: Option<(Key, Key) -> bool>)

  /** Whether the table treats `a` and `b` as the same key. */
  predicate Equivalent(fns: HashFunctions, a: Key, b: Key)
    ensures fns.equals == None ==> (Equivalent(fns, a, b) <==> a == b)
  {
    match fns.equals
    case None => a == b
    case Some(eq) => eq(a, b)
  }

  /** What the caller must guarantee of the functions: the equality is an
      equivalence, and equivalent keys hash alike. Comparing the words themselves
      meets this for every hash function. */
  ghost predicate Lawful(fns: HashFunctions)
    ensures fns.equals == None ==> Lawful(fns)
  {
    (forall a :: Equivalent(fns, a, a))
    && (forall a, b :: Equivalent(fns, a, b) ==> Equivalent(fns, b, a))
    && (forall a, b, c :: Equivalent(fns, a, b) && Equivalent(fns, b, c) ==> Equivalent(fns, a, c))
    && (forall a, b :: Equivalent(fns, a, b) ==> fns.hash(a) == fns.hash(b))
  }

  /** No two stored keys are equivalent. */
  ghost predicate NoTwoEquivalent(fns: HashFunctions, keys: set<Key>)
  {
    forall a, b :: a in keys && b in keys && Equivalent(fns, a, b) ==> a == b
  }

  /** The stored keys equivalent to `q`. */
  function Matches(fns: HashFunctions, keys: set<Key>, q: Key): (m: set<Key>)
  {
    set e | e in keys && Equivalent(fns, e, q)
  }

  /** A query matches at most one stored key: the one it matches is the only one. */
  lemma SingleMatch(fns: HashFunctions, keys: set<Key>, q: Key, e: Key)
    requires Lawful(fns) && NoTwoEquivalent(fns, keys) && e in Matches(fns, keys, q)
    ensures Matches(fns, keys, q) == {e}
  {
    forall x | x in Matches(fns, keys, q)
      ensures x == e
    {
      assert Equivalent(fns, q, e);
      assert Equivalent(fns, x, e);
    }
  }

  /** Adding a key that matches nothing stored: the keys stay pairwise
      non-equivalent, there is one more of them, and a query now matches the new
      key exactly when it is equivalent to it. */
  lemma InsertFresh(fns: HashFunctions, keys: set<Key>, k: Key, q: Key)
    requires Lawful(fns) && NoTwoEquivalent(fns, keys) && Matches(fns, keys, k) == {}
    ensures NoTwoEquivalent(fns, keys + {k})
    ensures |keys + {k}| == |keys| + 1
    ensures Matches(fns, keys + {k}, q) == if Equivalent(fns, k, q) then {k} else Matches(fns, keys, q)
  {
    forall x | x in keys
      ensures !Equivalent(fns, x, k) && !Equivalent(fns, k, x)
    {
      assert x !in Matches(fns, keys, k);
    }
    if Equivalent(fns, k, q) {
      SingleMatch(fns, keys + {k}, q, k);
    }
  }

  /** Swapping the stored key `e` that `k` matches for `k` itself: the keys stay
      pairwise non-equivalent, their number is unchanged, and `k` is now the key
      its own query finds. */
  lemma ReplaceMatch(fns: HashFunctions, keys: set<Key>, k: Key, e: Key)
    requires Lawful(fns) && NoTwoEquivalent(fns, keys) && Matches(fns, keys, k) == {e}
    ensures NoTwoEquivalent(fns, keys - {e} + {k})
    ensures |keys - {e} + {k}| == |keys|
    ensures Matches(fns, keys - {e} + {k}, k) == {k}
  {
    var rest := keys - {e};
    assert e in Matches(fns, keys, k);
    assert Matches(fns, rest, k) == {};
    InsertFresh(fns, rest, k, k);
  }

  /** Removing the stored key `e` that `q` matches: the query then matches
      nothing, and there is one key fewer. */
  lemma EraseMatch(fns: HashFunctions, keys: set<Key>, q: Key, e: Key)
    requires NoTwoEquivalent(fns, keys) && Matches(fns, keys, q) == {e}
    ensures NoTwoEquivalent(fns, keys - {e})
    ensures |keys - {e}| == |keys| - 1
    ensures Matches(fns, keys - {e}, q) == {}
  {
    assert e in Matches(fns, keys, q);
  }

  /** The visits of an iteration: every stored key exactly once, in some order. */
  ghost predicate VisitsEach<T(!new)>(visited: seq<T>, items: set<T>)
  {
    |visited| == |items|
    && (forall i, j :: 0 <= i < j < |visited| ==> visited[i] != visited[j])
    && (forall x :: x in items <==> x in visited)
  }

  /** Distinct elements of a set, listed in some order: the list has one entry
      per element. */
  lemma {:induction false} DistinctListSize<T>(visited: seq<T>, items: set<T>)
    requires forall i, j :: 0 <= i < j < |visited| ==> visited[i] != visited[j]
    requires forall x :: x in items <==> x in visited
    ensures |visited| == |items|
    decreases |visited|
  {
    if visited != [] {
      var last := visited[|visited| - 1];
      var front := visited[..|visited| - 1];
      assert forall x :: x in front ==> x in visited && x != last;
      assert forall x :: x in items - {last} <==> x in front;
      DistinctListSize(front, items - {last});
    }
  }

  /** A hash set: hashset_t. */
  class HashSet {
    /** The functions the set was allocated with. */
    const fns: HashFunctions
    /** The stored keys. */
    var keys: set<Key>

    ghost predicate Valid()
      reads this
    {
      Lawful(fns) && (forall k :: k in keys ==> IsKey(k)) && NoTwoEquivalent(fns, keys)
    }

    /** hashset_alloc: an empty set interpreting keys with `fns`. */
    constructor (fns: HashFunctions)
      requires Lawful(fns)
      ensures Valid() && this.fns == fns && keys == {}
    {
      this.fns := fns;
      keys := {};
    }

    /** hashset_clear: erases every key. */
    method Clear()
      requires Valid()
      modifies this`keys
      ensures Valid() && keys == {}
    {
      keys := {};
    }

    /** hashset_size: the number of stored keys. */
    method Size() returns (n: nat)
      requires Valid()
      ensures n == |keys|
    {
      n := |keys|;
    }

    /** hashset_lookup: the stored key equivalent to `q`, or Null when there is none. */
    method Lookup(q: Key) returns (k: Key)
      requires Valid()
      ensures k == Null <==> Matches(fns, keys, q) == {}
      ensures k != Null ==> Matches(fns, keys, q) == {k}
    {
      if e :| e in keys && Equivalent(fns, e, q) {
        SingleMatch(fns, keys, q, e);
        k := e;
      } else {
        k := Null;
      }
    }

    /** hashset_insert: adds `k`, which the caller guarantees is a key no stored
        key is equivalent to. */
    method Insert(k: Key)
      requires Valid() && IsKey(k) && Matches(fns, keys, k) == {}
      modifies this`keys
      ensures Valid() && keys == old(keys) + {k} && |keys| == |old(keys)| + 1
    {
      InsertFresh(fns, keys, k, k);
      keys := keys + {k};
    }

    /** hashset_replace: when a stored key is equivalent to `k`, swaps it for `k`
        and returns it; otherwise inserts `k` and returns Null. */
    method Replace(k: Key) returns (e: Key)
      requires Valid() && IsKey(k)
      modifies this`keys
      ensures Valid() && k in keys
      ensures old(Matches(fns, keys, k)) == {} ==> e == Null && keys == old(keys) + {k}
      ensures old(Matches(fns, keys, k)) != {} ==>
        old(Matches(fns, keys, k)) == {e} && keys == old(keys) - {e} + {k} && |keys| == |old(keys)|
    {
      e := Lookup(k);
      if e == Null {
        Insert(k);
      } else {
        ReplaceMatch(fns, keys, k, e);
        keys := keys - {e} + {k};
      }
    }

    /** hashset_erase: removes and returns the stored key equivalent to `q`;
        returns Null and changes nothing when there is none. */
    method Erase(q: Key) returns (e: Key)
      requires Valid()
      modifies this`keys
      ensures Valid() && Matches(fns, keys, q) == {}
      ensures old(Matches(fns, keys, q)) == {} ==> e == Null && keys == old(keys)
      ensures old(Matches(fns, keys, q)) != {} ==>
        old(Matches(fns, keys, q)) == {e} && keys == old(keys) - {e} && |keys| == |old(keys)| - 1
    {
      e := Lookup(q);
      if e != Null {
        EraseMatch(fns, keys, q, e);
        keys := keys - {e};
      }
    }

    /** hashset_iterate: the keys passed to the callback, in the order of the
        calls; every stored key is passed exactly once. */
    method Iterate() returns (visited: seq<Key>)
      requires Valid()
      ensures VisitsEach(visited, keys)
    {
      visited := [];
      var rest := keys;
      while |rest| > 0
        invariant rest <= keys
        invariant forall x :: x in keys <==> x in rest || x in visited
        invariant forall x :: x in visited ==> x !in rest
        invariant forall i, j :: 0 <= i < j < |visited| ==> visited[i] != visited[j]
        decreases |rest|
      {
        var k :| k in rest;
        visited := visited + [k];
        rest := rest - {k};
      }
      DistinctListSize(visited, keys);
    }
  }

  /** A hash map: hashmap_t. */
  class HashMap {
    /** The functions the map was allocated with. */
    const fns: HashFunctions
    /** The stored (key, data) pairs. */
    var entries: map<Key, Data>

    ghost predicate Valid()
      reads this
    {
      Lawful(fns) && (forall k :: k in entries ==> IsKey(k)) && NoTwoEquivalent(fns, entries.Keys)
    }

    /** hashmap_alloc: an empty map interpreting keys with `fns`. */
    constructor (fns: HashFunctions)
      requires Lawful(fns)
      ensures Valid() && this.fns == fns && entries == map[]
    {
      this.fns := fns;
      entries := map[];
    }

    /** hashmap_clear: erases every pair. */
    method Clear()
      requires Valid()
      modifies this`entries
      ensures Valid() && entries == map[]
    {
      entries := map[];
    }

    /** hashmap_size: the number of stored pairs. */
    method Size() returns (n: nat)
      requires Valid()
      ensures n == |entries|
    {
      n := |entries|;
    }

    /** hashmap_lookup: the stored key equivalent to `q`, or Null. `data` is the
        out-parameter: None for a NULL pointer, otherwise the cell's contents; the
        cell receives the key's data only when a key is found. */
    method Lookup(q: Key, data: Option<Data>) returns (k: Key, data': Option<Data>)
      requires Valid()
      ensures k == Null <==> Matches(fns, entries.Keys, q) == {}
      ensures k != Null ==>
        Matches(fns, entries.Keys, q) == {k} && data' == (if data == None then None else Some(entries[k]))
      ensures k == Null ==> data' == data
    {
      if e :| e in entries && Equivalent(fns, e, q) {
        SingleMatch(fns, entries.Keys, q, e);
        k := e;
        data' := if data == None then None else Some(entries[k]);
      } else {
        k := Null;
        data' := data;
      }
    }

    /** hashmap_insert: adds the pair (k, d); the caller guarantees that `k` is a
        key no stored key is equivalent to. */
    method Insert(k: Key, d: Data)
      requires Valid() && IsKey(k) && Matches(fns, entries.Keys, k) == {}
      modifies this`entries
      ensures Valid() && entries == old(entries)[k := d] && |entries| == |old(entries)| + 1
    {
      InsertFresh(fns, entries.Keys, k, k);
      assert entries[k := d].Keys == entries.Keys + {k};
      entries := entries[k := d];
    }

    /** hashmap_replace: when a stored key is equivalent to `k`, swaps that pair for
        (k, data), returns the old key and hands back the old data; otherwise
        inserts (k, data), returns Null and leaves the data cell as it was. */
    method Replace(k: Key, data: Data) returns (e: Key, data': Data)
      requires Valid() && IsKey(k)
      modifies this`entries
      ensures Valid() && k in entries && entries[k] == data
      ensures old(Matches(fns, entries.Keys, k)) == {} ==>
        e == Null && data' == data && entries == old(entries)[k := data]
      ensures old(Matches(fns, entries.Keys, k)) != {} ==>
        old(Matches(fns, entries.Keys, k)) == {e} && data' == old(entries)[e]
        && entries == (old(entries) - {e})[k := data] && |entries| == |old(entries)|
    {
      var found;
      e, found := Lookup(k, Some(data));
      if e == Null {
        Insert(k, data);
        data' := data;
      } else {
        data' := found.value;
        ReplaceMatch(fns, entries.Keys, k, e);
        assert (entries - {e})[k := data].Keys == entries.Keys - {e} + {k};
        entries := (entries - {e})[k := data];
      }
    }

    /** hashmap_erase: removes the pair whose key is equivalent to `q` and returns
        that key, handing back its data when `data` is not NULL; returns Null and
        changes nothing when there is none. */
    method Erase(q: Key, data: Option<Data>) returns (e: Key, data': Option<Data>)
      requires Valid()
      modifies this`entries
      ensures Valid() && Matches(fns, entries.Keys, q) == {}
      ensures old(Matches(fns, entries.Keys, q)) == {} ==>
        e == Null && data' == data && entries == old(entries)
      ensures old(Matches(fns, entries.Keys, q)) != {} ==>
        old(Matches(fns, entries.Keys, q)) == {e}
        && data' == (if data == None then None else Some(old(entries)[e]))
        && entries == old(entries) - {e} && |entries| == |old(entries)| - 1
    {
      e, data' := Lookup(q, data);
      if e != Null {
        EraseMatch(fns, entries.Keys, q, e);
        assert (entries - {e}).Keys == entries.Keys - {e};
        entries := entries - {e};
      }
    }

    /** hashmap_iterate: the pairs passed to the callback, in the order of the
        calls; every stored pair is passed exactly once. */
    method Iterate() returns (visited: seq<(Key, Data)>)
      requires Valid()
      ensures VisitsEach(visited, entries.Items)
    {
      visited := [];
      var rest := entries.Items;
      while |rest| > 0
        invariant rest <= entries.Items
        invariant forall x :: x in entries.Items <==> x in rest || x in visited
        invariant forall x :: x in visited ==> x !in rest
        invariant forall i, j :: 0 <= i < j < |visited| ==> visited[i] != visited[j]
        decreases |rest|
      {
        var p :| p in rest;
        visited := visited + [p];
        rest := rest - {p};
      }
      DistinctListSize(visited, entries.Items);
    }
  }
}
