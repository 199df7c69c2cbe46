/** The STG arena: a growable array of fixed-size elements with a bump
    allocator, a free list threaded through freed elements, a cleared mark,
    and sidecar arenas that grow together with their base. */
module Stg {
  import opened ArenaSpec

  /** The conditions interr reports; it does not return. */
  datatype FatalError = InvalidSize | SidecarNotFound | TooSmallForFreelist

  /** Done, or the fatal error reported before any change was made. */
  datatype Status = Done | Fatal(error: FatalError)

  /** sccalloc: a buffer of `n` elements of `dtsize` bytes whose contents are not specified. */
  method Allocate(n: nat, dtsize: nat) returns (buf: seq<Element>)
    ensures |buf| == n && Shaped(buf, dtsize)
  {
    buf := seq(n, _ => Zero(dtsize));
  }

  /** sccrelal: a buffer of `n` elements that keeps the elements of `buf` that fit;
      the contents of the new elements are not specified. */
  method Reallocate(buf: seq<Element>, n: nat, dtsize: nat) returns (buf': seq<Element>)
    requires Shaped(buf, dtsize)
    ensures |buf'| == n && Shaped(buf', dtsize)
    ensures forall i :: 0 <= i < |buf| && i < n ==> buf'[i] == buf[i]
  {
    if n <= |buf| {
      buf' := buf[..n];
    } else {
      buf' := buf + seq(n - |buf|, _ => Zero(dtsize));
    }
  }

  /** No arena appears twice on the list. */
  ghost predicate Distinct(chain: seq<STG>)
  {
    forall i, j :: 0 <= i < j < |chain| ==> chain[i] != chain[j]
  }

  /** `chain` is a sidecar list: each arena's sidecar is the next one, the last one's is null. */
  ghost predicate ChainLinked(chain: seq<STG>)
    reads chain`sidecar
  {
    forall i {:trigger chain[i].sidecar} :: 0 <= i < |chain| ==> chain[i].sidecar == Successor(chain, i)
  }

  /** The arena after chain[i] on the list, null after the last. */
  function Successor(chain: seq<STG>, i: int): (next: STG?)
  {
    if 0 <= i && i + 1 < |chain| then chain[i + 1] else null
  }

  /** The first arena of a list, null for none. */
  function Head(chain: seq<STG>): (head: STG?)
  {
    if chain == [] then null else chain[0]
  }

  /** Every sidecar is an allocated arena of capacity `size` whose avail does
      not run past its cleared mark. */
  ghost predicate SidecarsFit(chain: seq<STG>, size: int)
    reads chain
  {
    forall j :: 0 <= j < |chain| ==>
      chain[j].Local() && chain[j].size == size && chain[j].avail <= chain[j].cleared
  }

  /** Between two states every sidecar kept its old elements, possibly followed by
      new ones, and its cleared mark; together with SidecarsFit, each sidecar grew
      with its base. */
  twostate predicate SidecarsFollow(chain: seq<STG>)
    reads chain
  {
    (forall j :: 0 <= j < |chain| ==> old(chain[j].base) <= chain[j].base)
    && (forall j :: 0 <= j < |chain| ==> chain[j].cleared == old(chain[j].cleared))
  }

  lemma LinkedCons(sc: STG, chain: seq<STG>)
    requires Distinct(chain) && ChainLinked(chain) && sc !in chain && sc.sidecar == Head(chain)
    ensures Distinct([sc] + chain) && ChainLinked([sc] + chain)
  {
    var c := [sc] + chain;
    forall i | 0 <= i < |c|
      ensures c[i].sidecar == Successor(c, i)
    {
      if i > 0 {
        assert c[i] == chain[i - 1];
      }
    }
  }

  lemma LinkedTail(chain: seq<STG>)
    requires Distinct(chain) && ChainLinked(chain) && chain != []
    ensures Distinct(chain[1..]) && ChainLinked(chain[1..]) && chain[0] !in chain[1..]
  {
    var c := chain[1..];
    forall i | 0 <= i < |c|
      ensures c[i].sidecar == Successor(c, i)
    {
      assert c[i] == chain[i + 1];
    }
  }

  /** Unlinking chain[k + 1] by pointing chain[k] past it leaves a linked list without it. */
  lemma LinkedSplice(chain: seq<STG>, k: nat)
    requires k + 1 < |chain|
    requires Distinct(chain)
    requires forall i :: 0 <= i < |chain| && i != k ==> chain[i].sidecar == Successor(chain, i)
    requires chain[k].sidecar == Successor(chain, k + 1)
    ensures Distinct(chain[..k + 1] + chain[k + 2..]) && ChainLinked(chain[..k + 1] + chain[k + 2..])
    ensures chain[k + 1] !in chain[..k + 1] + chain[k + 2..]
  {
    var c := chain[..k + 1] + chain[k + 2..];
    forall i | 0 <= i < |c|
      ensures c[i] == if i <= k then chain[i] else chain[i + 1]
    {
    }
    forall i | 0 <= i < |c|
      ensures c[i].sidecar == Successor(c, i)
    {
      if i < k {
        assert c[i + 1] == chain[i + 1];
      } else if i == k {
        assert k + 1 < |c| ==> c[k + 1] == chain[k + 2];
      } else {
        assert c[i] == chain[i + 1];
      }
    }
  }

  lemma FitCons(sc: STG, chain: seq<STG>, size: int)
    requires SidecarsFit(chain, size) && sc.Local() && sc.size == size && sc.avail <= sc.cleared
    ensures SidecarsFit([sc] + chain, size)
  {
    var c := [sc] + chain;
    forall j | 1 <= j < |c|
      ensures c[j] == chain[j - 1]
    {
    }
  }

  lemma FitTail(chain: seq<STG>, size: int)
    requires SidecarsFit(chain, size) && chain != []
    ensures SidecarsFit(chain[1..], size)
  {
  }

  lemma FitSplice(chain: seq<STG>, k: nat, size: int)
    requires SidecarsFit(chain, size) && k + 1 < |chain|
    ensures SidecarsFit(chain[..k + 1] + chain[k + 2..], size)
  {
    var c := chain[..k + 1] + chain[k + 2..];
    forall j | 0 <= j < |c|
      ensures c[j] == if j <= k then chain[j] else chain[j + 1]
    {
    }
  }

  class STG {
    /** stg_base, as a sequence of elements */
    var base: seq<Element>
    /** stg_size: the capacity, in elements */
    var size: int
    /** stg_avail: the next element to hand out */
    var avail: int
    /** stg_cleared: the elements below it have been zeroed */
    var cleared: int
    /** stg_free: head of the free list, 0 when it is empty */
    var free: int
    /** stg_dtsize: bytes per element */
    var dtsize: int
    /** stg_sidecar: the next arena on the sidecar list */
    var sidecar: STG?
    /** The arenas reachable through `sidecar`, in list order. */
    ghost var chain: seq<STG>

    /** A zero-initialised STG descriptor, as a static one starts out: no buffer,
        every count zero, no sidecar. */
    constructor ()
      ensures base == [] && size == 0 && avail == 0 && cleared == 0 && free == 0 && dtsize == 0
      ensures sidecar == null && chain == []
    {
      base := [];
      size := 0;
      avail := 0;
      cleared := 0;
      free := 0;
      dtsize := 0;
      sidecar := null;
      chain := [];
    }

    /** The shape of one allocated arena; the counters are C ints. */
    ghost predicate Local()
      reads this
    {
      0 < dtsize <= MaxInt && 0 < size <= MaxInt
      && |base| == size && Shaped(base, dtsize)
      && 0 <= cleared <= size && 0 <= avail <= MaxInt && MinInt <= free <= MaxInt
    }

    /** A base arena with its sidecar list; every sidecar has the base's capacity. */
    ghost predicate Valid()
      reads this, chain
    {
      Local() && (forall j :: 0 <= j < |chain| ==> chain[j] != this) && sidecar == Head(chain)
      && Distinct(chain) && ChainLinked(chain) && SidecarsFit(chain, size)
    }

    /** The byte sizes of a resize to `newsize` elements fit in a C int. */
    ghost predicate GrowthFits(newsize: int)
      reads this, chain
    {
      newsize <= MaxInt && dtsize * newsize <= MaxInt
      && forall j :: 0 <= j < |chain| ==> chain[j].dtsize * newsize <= MaxInt
    }

    /** stg_alloc_base: a fresh arena of `capacity` elements of `elemSize` bytes, with
        element 0 reserved, nothing cleared, no free list and no sidecars. */
    method AllocBase(elemSize: int, capacity: int) returns (status: Status)
      requires elemSize > 0 && capacity > 0 ==> elemSize * capacity <= MaxInt && capacity <= MaxInt
      modifies this
      ensures !(elemSize > 0 && capacity > 0) ==> status == Fatal(InvalidSize) && unchanged(this)
      ensures elemSize > 0 && capacity > 0 ==>
        status == Done && Local() && chain == [] && sidecar == null
        && dtsize == elemSize && size == capacity && avail == 1 && cleared == 0 && free == 0
    {
      if elemSize > 0 && capacity > 0 {
        size := capacity;
        dtsize := elemSize;
        avail := 1;
        cleared := 0;
        free := 0;
        sidecar := null;
        chain := [];
        base := Allocate(capacity, elemSize);
        status := Done;
      } else {
        status := Fatal(InvalidSize);
      }
    }

    /** stg_clear: zeroes elements r .. r+n-1 when r >= 0 and n > 0, moving the
        cleared mark as ClearedMark says; otherwise does nothing. */
    method Clear(r: int, n: int)
      requires Local()
      requires r >= 0 && n > 0 ==> r + n <= size
      modifies this`base, this`cleared
      ensures Local()
      ensures cleared == ClearedMark(old(cleared), r, n)
      ensures base == if r >= 0 && n > 0 then Zeroed(old(base), dtsize, r, n) else old(base)
    {
      if r >= 0 && n > 0 {
        base := Zeroed(base, dtsize, r, n);
        if r == cleared {
          cleared := cleared + n;
        } else if r == 0 && n > cleared {
          cleared := n;
        }
      }
    }

    /** stg_clear_all: zeroes every element below avail; the cleared mark then
        covers at least those elements. */
    method ClearAll()
      requires Local() && avail <= size
      modifies this`base, this`cleared
      ensures Local()
      ensures cleared == if avail > 0 && avail > old(cleared) then avail else old(cleared)
      ensures forall i :: 0 <= i < size ==> base[i] == if i < avail then Zero(dtsize) else old(base)[i]
    {
      Clear(0, avail);
    }

    /** stg_alloc: a fresh arena whose element 0 is zeroed and counted as cleared. */
    method Alloc(elemSize: int, capacity: int) returns (status: Status)
      requires elemSize > 0 && capacity > 0 ==> elemSize * capacity <= MaxInt && capacity <= MaxInt
      modifies this
      ensures !(elemSize > 0 && capacity > 0) ==> status == Fatal(InvalidSize) && unchanged(this)
      ensures elemSize > 0 && capacity > 0 ==>
        status == Done && Valid() && chain == []
        && dtsize == elemSize && size == capacity && avail == 1 && cleared == 1 && free == 0
        && base[0] == Zero(dtsize)
    {
      status := AllocBase(elemSize, capacity);
      if status == Done {
        Clear(0, 1);
      }
    }

    /** stg_delete: releases the buffer and zeroes every field. */
    method Delete()
      modifies this
      ensures base == [] && size == 0 && avail == 0 && cleared == 0 && free == 0 && dtsize == 0
      ensures sidecar == null && chain == []
    {
      base := [];
      size := 0;
      avail := 0;
      cleared := 0;
      free := 0;
      dtsize := 0;
      sidecar := null;
      chain := [];
    }

    /** One step of stg_need's first loop: `newsize` elements, the old ones kept. */
    method Resize(newsize: int)
      requires Local() && size <= newsize <= MaxInt
      modifies this`size, this`base
      ensures Local() && size == newsize && old(base) <= base
    {
      size := newsize;
      base := Reallocate(base, newsize, dtsize);
    }

    /** The first loop of stg_need: the arena and every sidecar get `newsize`
        elements, keeping their old ones. The first pass of the loop, on the
        arena itself, is written before it. */
    method Grow(newsize: int)
      requires Valid() && size <= newsize <= MaxInt
      modifies this`size, this`base, chain`size, chain`base
      ensures Valid() && size == newsize && old(base) <= base
      ensures forall j :: 0 <= j < |chain| ==> chain[j].size == newsize && old(chain[j].base) <= chain[j].base
    {
      Resize(newsize);
      var t := sidecar;
      ghost var k := 0;
      while t != null
        invariant 0 <= k <= |chain|
        invariant t == if k < |chain| then chain[k] else null
        invariant Local() && size == newsize && old(base) <= base
        invariant forall j :: 0 <= j < |chain| ==> chain[j].Local()
        invariant forall j :: 0 <= j < k ==> chain[j].size == newsize && old(chain[j].base) <= chain[j].base
        invariant forall j :: k <= j < |chain| ==> chain[j].size == old(size) && chain[j].base == old(chain[j].base)
        modifies chain`size, chain`base
        decreases |chain| - k
      {
        t.Resize(newsize);
        t := t.sidecar;
        k := k + 1;
      }
    }

    /** The clearing step of stg_need: when avail has passed the cleared mark, every
        arena on the list zeroes the elements from its cleared mark up to its avail.
        A sidecar's avail never passes its cleared mark, so only the arena itself
        changes. The first pass of the loop, on the arena itself, is written before
        it. `before` is the buffer before the growth step. */
    method ClearFresh(ghost before: seq<Element>)
      requires Valid() && cleared <= avail <= size && before <= base
      modifies this`base, this`cleared, chain`base, chain`cleared
      ensures Valid() && cleared == avail
      ensures Refreshed(before, base, dtsize, old(cleared), avail)
      ensures forall j :: 0 <= j < |chain| ==>
        chain[j].base == old(chain[j].base) && chain[j].cleared == old(chain[j].cleared)
    {
      if avail > cleared {
        RefreshedAfterGrowth(before, base, dtsize, cleared, avail);
        Clear(cleared, avail - cleared);
        var t := sidecar;
        ghost var k := 0;
        while t != null
          invariant 0 <= k <= |chain|
          invariant t == if k < |chain| then chain[k] else null
          invariant Valid() && cleared == avail
          invariant Refreshed(before, base, dtsize, old(cleared), avail)
          invariant forall j :: 0 <= j < |chain| ==>
            chain[j].base == old(chain[j].base) && chain[j].cleared == old(chain[j].cleared)
          modifies chain`base, chain`cleared
          decreases |chain| - k
        {
          t.Clear(t.cleared, t.avail - t.cleared);
          t := t.sidecar;
          k := k + 1;
        }
      }
    }

    /** stg_need: pulls a stale cleared mark down to avail; when avail has passed
        the capacity, grows the arena and every sidecar to GrownSize(avail); then
        zeroes the elements from the cleared mark up to avail, so every element
        below avail that was not cleared before reads as zero. */
    method Need()
      requires Valid()
      requires avail > size ==> GrowthFits(GrownSize(avail))
      modifies this`cleared, this`size, this`base, chain`size, chain`base, chain`cleared
      ensures Valid()
      ensures size == if old(avail) > old(size) then GrownSize(old(avail)) else old(size)
      ensures avail <= size && cleared == avail
      ensures Refreshed(old(base), base, dtsize, if old(cleared) > old(avail) then old(avail) else old(cleared), avail)
      ensures SidecarsFollow(chain)
    {
      if cleared > avail {
        cleared := avail;
      }
      if avail > size {
        GrowthLaw(avail, size);
        Grow(GrownSize(avail));
      }
      ClearFresh(old(base));
    }

    /** stg_next: reserves the `n` elements from avail on, growing if needed, and
        returns the first; the reserved elements read as zero. A stale cleared
        mark is pulled down to the old avail together with the increment. */
    method Next(n: int) returns (r: int)
      requires Valid() && 0 <= n && avail + n <= MaxInt
      requires avail + n > size ==> GrowthFits(GrownSize(avail + n))
      modifies this`avail, this`cleared, this`size, this`base, chain`size, chain`base, chain`cleared
      ensures r == old(avail) && avail == old(avail) + n
      ensures Valid()
      ensures size == if avail > old(size) then GrownSize(avail) else old(size)
      ensures avail <= size && cleared == avail
      ensures Refreshed(old(base), base, dtsize, if old(cleared) > r then r else old(cleared), avail)
      ensures SidecarsFollow(chain)
    {
      r := avail;
      var c := if cleared > r then r else cleared;
      cleared, avail := c, r + n;
      if avail > size {
        Need();
      } else {
        ClearToAvail();
      }
    }

    /** The in-capacity path of stg_next: one stg_clear from the cleared mark up to avail. */
    method ClearToAvail()
      requires Valid() && cleared <= avail <= size
      modifies this`base, this`cleared
      ensures Valid() && cleared == avail
      ensures Refreshed(old(base), base, dtsize, old(cleared), avail)
    {
      ZeroedRefreshes(base, dtsize, cleared, avail - cleared);
      Clear(cleared, avail - cleared);
    }

    /** stg_alloc_sidecar: `sc` becomes a fresh arena of `elemSize`-byte elements with
        the base's capacity and avail, zeroed below avail, at the head of the sidecar list. */
    method AllocSidecar(sc: STG, elemSize: int) returns (status: Status)
      requires Valid() && avail <= size && sc != this && sc !in chain
      requires elemSize > 0 ==> elemSize * size <= MaxInt
      modifies this`sidecar, this`chain, sc
      ensures elemSize <= 0 ==> status == Fatal(InvalidSize) && unchanged(this) && unchanged(sc)
      ensures elemSize > 0 ==>
        status == Done && Valid() && chain == [sc] + old(chain) && sidecar == sc
        && sc.dtsize == elemSize && sc.size == size && sc.avail == avail && sc.cleared == avail
        && sc.free == 0 && (forall i :: 0 <= i < avail ==> sc.base[i] == Zero(elemSize))
    {
      status := sc.AllocBase(elemSize, size);
      if status == Done {
        sc.avail := avail;
        sc.Clear(0, sc.avail);
        Attach(sc);
      }
    }

    /** The linking step of stg_alloc_sidecar: `sc` goes to the head of the sidecar list. */
    method Attach(sc: STG)
      requires Valid() && sc != this && sc !in chain
      requires sc.Local() && sc.size == size && sc.avail <= sc.cleared
      modifies this`sidecar, this`chain, sc`sidecar
      ensures Valid() && chain == [sc] + old(chain) && sidecar == sc
    {
      sc.sidecar := sidecar;
      LinkedCons(sc, chain);
      FitCons(sc, chain, size);
      sidecar := sc;
      chain := [sc] + chain;
    }

    /** The search loop of stg_delete_sidecar: the sidecar whose successor is `sc`,
        null when there is none. */
    method FindPredecessor(sc: STG) returns (s: STG?, ghost k: int)
      requires Valid() && sidecar != sc
      ensures s == null ==> sc !in chain
      ensures s != null ==> 0 <= k && k + 1 < |chain| && s == chain[k] && chain[k + 1] == sc
    {
      s := sidecar;
      k := 0;
      while s != null && s.sidecar != sc
        invariant 0 <= k <= |chain|
        invariant s == if k < |chain| then chain[k] else null
        invariant forall j :: 0 <= j < k ==> chain[j].sidecar != sc
        decreases |chain| - k
      {
        s := s.sidecar;
        k := k + 1;
      }
      if s == null {
        forall i | 0 <= i < |chain|
          ensures chain[i] != sc
        {
          if i > 0 {
            assert chain[i - 1].sidecar == chain[i];
          }
        }
      } else {
        assert Successor(chain, k) == sc;
      }
    }

    /** Unlinks the first sidecar, as stg_delete_sidecar does when `sc` heads the list. */
    method UnlinkFirst(sc: STG)
      requires Valid() && sidecar == sc
      modifies this`sidecar, this`chain
      ensures Valid() && chain == old(chain)[1..] && sc !in chain
    {
      LinkedTail(chain);
      FitTail(chain, size);
      sidecar := sc.sidecar;
      chain := chain[1..];
    }

    /** Unlinks `sc` from behind its predecessor `s` = chain[k]. */
    method UnlinkAfter(s: STG, sc: STG, ghost k: int)
      requires Valid() && 0 <= k && k + 1 < |chain| && s == chain[k] && sc == chain[k + 1]
      modifies s`sidecar, this`chain
      ensures Valid() && chain == old(chain)[..k + 1] + old(chain)[k + 2..] && sc !in chain
    {
      ghost var c := chain;
      s.sidecar := sc.sidecar;
      LinkedSplice(c, k);
      FitSplice(c, k, size);
      chain := c[..k + 1] + c[k + 2..];
    }

    /** stg_delete_sidecar: unlinks `sc` from the sidecar list and deletes it; fatal
        SidecarNotFound when `sc` is not on the list. */
    method DeleteSidecar(sc: STG) returns (status: Status)
      requires Valid()
      modifies this`sidecar, this`chain, chain`sidecar, sc
      ensures sc !in old(chain) ==>
        status == Fatal(SidecarNotFound) && unchanged(this) && unchanged(chain) && unchanged(sc)
      ensures sc in old(chain) ==>
        status == Done && Valid()
        && (exists k :: 0 <= k < |old(chain)| && old(chain)[k] == sc && chain == old(chain)[..k] + old(chain)[k + 1..])
        && sc.base == [] && sc.size == 0 && sc.avail == 0 && sc.cleared == 0 && sc.free == 0
        && sc.dtsize == 0 && sc.sidecar == null
    {
      ghost var c := chain;
      if sidecar == sc {
        UnlinkFirst(sc);
        assert c[0] == sc && chain == c[..0] + c[0 + 1..];
      } else {
        var s, k := FindPredecessor(sc);
        if s == null {
          return Fatal(SidecarNotFound);
        }
        UnlinkAfter(s, sc, k);
        assert c[k + 1] == sc && chain == c[..k + 1] + c[k + 1 + 1..];
      }
      sc.Delete();
      status := Done;
    }

    /** stg_add_freelist: zeroes element r, stores the old free-list head in its
        first int and makes r the head; fatal when an element cannot hold an int. */
    method AddFreelist(r: int) returns (status: Status)
      requires Valid() && 0 <= r < size
      modifies this`base, this`cleared, this`free
      ensures dtsize < IntSize ==> status == Fatal(TooSmallForFreelist) && unchanged(this)
      ensures dtsize >= IntSize ==>
        status == Done && Valid() && free == r
        && base == old(base)[r := WithLink(Zero(dtsize), old(free))]
        && cleared == ClearedMark(old(cleared), r, 1)
    {
      if dtsize < IntSize {
        return Fatal(TooSmallForFreelist);
      }
      Clear(r, 1);
      base := base[r := WithLink(base[r], free)];
      free := r;
      status := Done;
    }

    /** stg_next_freelist: with an empty free list, reserves one element as stg_next
        does; otherwise pops the head, whose first int becomes the new head. Either
        way the element handed out reads as zero. */
    method NextFreelist() returns (status: Status, r: int)
      requires Valid() && 0 <= free < size
      requires free == 0 ==> avail + 1 <= MaxInt && (avail + 1 > size ==> GrowthFits(GrownSize(avail + 1)))
      modifies this`avail, this`cleared, this`size, this`base, this`free, chain`size, chain`base, chain`cleared
      ensures Valid()
      ensures old(free) == 0 ==>
        status == Done && r == old(avail) && avail == old(avail) + 1 && free == 0
        && size == (if avail > old(size) then GrownSize(avail) else old(size))
        && avail <= size && cleared == avail && base[r] == Zero(dtsize)
        && Refreshed(old(base), base, dtsize, if old(cleared) > r then r else old(cleared), avail)
      ensures old(free) != 0 && dtsize < IntSize ==>
        status == Fatal(TooSmallForFreelist) && unchanged(this)
      ensures old(free) != 0 && dtsize >= IntSize ==>
        status == Done && r == old(free) && free == DecodeLink(old(base)[r])
        && base == old(base)[r := Zero(dtsize)]
        && cleared == ClearedMark(old(cleared), r, 1)
        && size == old(size) && avail == old(avail)
      ensures SidecarsFollow(chain)
    {
      if free == 0 {
        r := ReserveOne();
      } else if dtsize < IntSize {
        return Fatal(TooSmallForFreelist), free;
      } else {
        r := PopFree();
      }
      status := Done;
    }

    /** The empty-list path of stg_next_freelist: stg_next(stg, 1), then a
        stg_clear of the element it returns. */
    method ReserveOne() returns (r: int)
      requires Valid() && free == 0 && avail + 1 <= MaxInt
      requires avail + 1 > size ==> GrowthFits(GrownSize(avail + 1))
      modifies this`avail, this`cleared, this`size, this`base, chain`size, chain`base, chain`cleared
      ensures Valid() && r == old(avail) && avail == old(avail) + 1 && free == 0
      ensures size == (if avail > old(size) then GrownSize(avail) else old(size))
      ensures avail <= size && cleared == avail && base[r] == Zero(dtsize)
      ensures Refreshed(old(base), base, dtsize, if old(cleared) > r then r else old(cleared), avail)
      ensures SidecarsFollow(chain)
    {
      r := Next(1);
      Clear(r, 1);
    }

    /** The non-empty path of stg_next_freelist: the head is popped, its link
        becomes the new head, and the element is zeroed. */
    method PopFree() returns (r: int)
      requires Valid() && 0 < free < size && dtsize >= IntSize
      modifies this`free, this`base, this`cleared
      ensures Valid() && r == old(free) && free == DecodeLink(old(base)[r])
      ensures base == old(base)[r := Zero(dtsize)]
      ensures cleared == ClearedMark(old(cleared), r, 1)
    {
      r := free;
      free := DecodeLink(base[r]);
      Clear(r, 1);
    }
  }
}
