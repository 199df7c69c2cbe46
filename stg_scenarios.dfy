/** Sequences of calls on the STG arena, each with what the arena laws
    imply for it: two laws for any arena, then concrete runs. */
module StgScenarios {
  import opened ArenaSpec
  import opened Stg

  /** stg_add_freelist followed by stg_next_freelist hands back the same
      element, zeroed, and restores the previous free-list head. */
  method AddThenPop(s: STG, r: int) returns (popped: int)
    requires s.Valid() && 0 < r < s.size && 0 <= s.free < s.size && s.dtsize >= IntSize
    modifies s, s.chain
    ensures s.Valid() && s.size == old(s.size)
    ensures popped == r && s.free == old(s.free) && s.base[r] == Zero(s.dtsize)
  {
    var st := s.AddFreelist(r);
    st, popped := s.NextFreelist();
  }

  /** Two successive reservations within the capacity hand out adjacent,
      non-overlapping ranges: the second starts where the first ends. */
  method TwoReservations(s: STG, n1: int, n2: int) returns (r1: int, r2: int)
    requires s.Valid() && 0 <= n1 && 0 <= n2 && s.avail + n1 + n2 <= s.size
    modifies s, s.chain
    ensures r1 == old(s.avail) && r2 == r1 + n1 && s.avail == r2 + n2
  {
    r1 := s.Next(n1);
    r2 := s.Next(n2);
  }

  /** A fresh arena of 8-byte elements and capacity 10 with elements 1, 2 and 3
      reserved by stg_next, one at a time; the calls return 1, 2 and 3. */
  method ThreeInUse() returns (s: STG, a: int, b: int, c: int)
    ensures fresh(s) && s.Valid() && s.chain == [] && s.dtsize == 8 && s.size == 10
    ensures s.avail == 4 && s.free == 0
    ensures a == 1 && b == 2 && c == 3
  {
    s := new STG();
    var st := s.Alloc(8, 10);
    a := s.Next(1);
    b := s.Next(1);
    c := s.Next(1);
  }

  /** The same arena after elements 1, 2 and 3 are handed back by
      stg_add_freelist in that order: each link holds the previous head. */
  method ThreeFreed() returns (s: STG)
    ensures fresh(s) && s.Valid() && s.chain == [] && s.dtsize == 8 && s.size == 10 && s.avail == 4
    ensures s.free == 3 && DecodeLink(s.base[3]) == 2 && DecodeLink(s.base[2]) == 1 && DecodeLink(s.base[1]) == 0
  {
    var a, b, c;
    s, a, b, c := ThreeInUse();
    var st := s.AddFreelist(1);
    st := s.AddFreelist(2);
    st := s.AddFreelist(3);
  }

  /** Elements handed back through stg_add_freelist come out of
      stg_next_freelist last in, first out, each reading as zero; once the
      list is drained, the next element comes from avail again. */
  method FreeListIsLifo() returns (popped: seq<int>, drained: seq<Element>, next: int)
    ensures popped == [3, 2, 1]
    ensures drained == [Zero(8), Zero(8), Zero(8)]
    ensures next == 4
  {
    var s := ThreeFreed();
    var st, r1 := s.NextFreelist();
    assert s.free == 2 && DecodeLink(s.base[2]) == 1 && DecodeLink(s.base[1]) == 0;
    var r2;
    st, r2 := s.NextFreelist();
    assert s.free == 1 && DecodeLink(s.base[1]) == 0;
    var r3;
    st, r3 := s.NextFreelist();
    popped := [r1, r2, r3];
    drained := [s.base[3], s.base[2], s.base[1]];
    st, next := s.NextFreelist();
  }

  /** A fresh arena of 8-byte elements and capacity 2: reserving three elements
      hands out element 1, grows the arena to 2 * (4 - 1) = 6 elements, and the
      three reserved elements read as zero. */
  method ReserveThree() returns (r: int, size: int, reserved: seq<Element>)
    ensures r == 1 && size == 6
    ensures reserved == [Zero(8), Zero(8), Zero(8)]
  {
    var s := new STG();
    var st := s.Alloc(8, 2);
    r := s.Next(3);
    size := s.size;
    reserved := s.base[1..4];
  }

  /** A fresh arena of 8-byte elements and capacity 2 with one sidecar of 4-byte
      elements attached while one element was in use, and then one more element
      reserved. */
  method OneSidecar() returns (s: STG, sc: STG)
    ensures fresh(s) && fresh(sc) && s.Valid() && s.chain == [sc]
    ensures s.dtsize == 8 && s.size == 2 && s.avail == 2 && sc.dtsize == 4 && sc.avail == 1
  {
    s := new STG();
    var st := s.Alloc(8, 2);
    sc := new STG();
    st := s.AllocSidecar(sc, 4);
    assert s.chain == [sc] && sc.avail == 1 && s.size == 2;
    var first := s.Next(1);
  }

  /** Reserving two elements in that arena passes its capacity, so stg_need grows
      it to 2 * (4 - 1) = 6 elements, and the sidecar to the same capacity. The
      sidecar's avail is still the one copied when it was attached. */
  method GrowthCarriesSidecar() returns (r: int, size: int, sidecarSize: int, sidecarAvail: int)
    ensures r == 2 && size == 6 && sidecarSize == 6 && sidecarAvail == 1
  {
    var s, sc := OneSidecar();
    r := s.Next(2);
    size := s.size;
    sidecarSize := sc.size;
    sidecarAvail := sc.avail;
  }

  /** A caller that has written element 1 of the sidecar lowers the base's
      avail back to 1, which stg_next allows for recycled space, and reserves
      one element again. The base's element 1 is zeroed; the sidecar's keeps
      the bytes written to it, because no clearing pass reaches a sidecar
      whose avail does not pass its cleared mark. */
  method SidecarKeepsStaleElement() returns (r: int, baseElem: Element, sidecarElem: Element)
    ensures r == 1 && baseElem == Zero(8) && sidecarElem == [7, 0, 0, 0]
  {
    var s, sc := OneSidecar();
    sc.base := sc.base[1 := [7, 0, 0, 0]];
    s.avail := 1;
    r := s.Next(1);
    baseElem := s.base[r];
    sidecarElem := sc.base[r];
  }
}
