/** Small end-to-end uses of the hash set and hash map with directly compared
    keys (no equality function), for any hash function. */
module HashScenarios {
  import opened Wrappers
  import opened HashTable

  /** Insert 5 and 9, replace 5, erase 9: the replace hands back the stored 5
      and keeps two keys; the erase hands back 9, leaves one key, and 9 is no
      longer found. */
  method SetScenario(hash: Key -> bv32) returns (replaced: Key, n1: nat, erased: Key, n2: nat, missing: Key)
    ensures replaced == 5 && n1 == 2 && erased == 9 && n2 == 1 && missing == Null
  {
    var s := new HashSet(HashFunctions(hash, None));
    assert Matches(s.fns, {}, 5) == {};
    s.Insert(5);
    assert Matches(s.fns, {5}, 9) == {};
    s.Insert(9);
    replaced := s.Replace(5);
    n1 := s.Size();
    erased := s.Erase(9);
    n2 := s.Size();
    missing := s.Lookup(9);
  }

  /** Map 5 to 50, then replace it with 51: the old data comes back through the
      cell; a lookup with a NULL cell finds the key without writing anything;
      erasing 5 hands back 51 and empties the map; erasing it again finds
      nothing and leaves the cell as it was. */
  method MapScenario(hash: Key -> bv32)
    returns (oldData: Data, found: Key, cell: Option<Data>, erased: Data, again: Key, untouched: Option<Data>, n: nat)
    ensures oldData == 50 && found == 5 && cell == None && erased == 51
    ensures again == Null && untouched == Some(7) && n == 0
  {
    var m := new HashMap(HashFunctions(hash, None));
    assert Matches(m.fns, {}, 5) == {};
    m.Insert(5, 50);
    var k;
    k, oldData := m.Replace(5, 51);
    found, cell := m.Lookup(5, None);
    var out;
    k, out := m.Erase(5, Some(0));
    erased := out.value;
    again, untouched := m.Erase(5, Some(7));
    n := m.Size();
  }
}
