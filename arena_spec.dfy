/** Value-level definitions behind the STG arena: element buffers, the
    zeroing of a range, the rule for the cleared mark, the growth formula,
    and the free-list link stored in the first `int` of a freed element. */
module ArenaSpec {

  /** One byte of element storage. */
  type byte = b: int | 0 <= b < 256

  /** One element: `dtsize` bytes. */
  type Element = seq<byte>

  /** sizeof(int) on the compiler's hosts. */
  const IntSize := 4

  /** INT_MAX and INT_MIN of a 32-bit C `int`. */
  const MaxInt := 0x7FFF_FFFF
  const MinInt := -0x8000_0000

  /** An element whose bytes are all zero. */
  function Zero(dtsize: nat): (e: Element)
    ensures |e| == dtsize
    ensures forall i :: 0 <= i < dtsize ==> e[i] == 0
  {
    seq(dtsize, _ => 0)
  }

  /** Every element of the buffer has `dtsize` bytes. */
  predicate Shaped(buf: seq<Element>, dtsize: nat)
  {
    forall i :: 0 <= i < |buf| ==> |buf[i]| == dtsize
  }

  /** The first `c` elements are all zero. */
  ghost predicate ZeroBelow(buf: seq<Element>, dtsize: nat, c: int)
  {
    forall i :: 0 <= i < c && i < |buf| ==> buf[i] == Zero(dtsize)
  }

  /** memset of elements r .. r+n-1 to zero. */
  function Zeroed(buf: seq<Element>, dtsize: nat, r: nat, n: nat): (z: seq<Element>)
    requires r + n <= |buf|
    ensures |z| == |buf|
    ensures forall i :: 0 <= i < |buf| ==> z[i] == if r <= i < r + n then Zero(dtsize) else buf[i]
  {
    buf[..r] + seq(n, _ => Zero(dtsize)) + buf[r + n..]
  }

  /** The new cleared mark after stg_clear(r, n) on a mark `c`: extended when the
      zeroed range starts at the mark, or when it starts at 0 and reaches past it. */
  function ClearedMark(c: int, r: int, n: int): (mark: int)
  {
    if r < 0 || n <= 0 then c
    else if r == c then c + n
    else if r == 0 && n > c then n
    else c
  }

  /** The cleared mark never decreases, never passes the end of the zeroed range
      when it moves, and keeps its meaning: if the first `c` elements were zero, the
      first ClearedMark(c, r, n) elements are zero after zeroing r .. r+n-1. */
  lemma ClearedMarkSound(buf: seq<Element>, dtsize: nat, c: int, r: nat, n: nat)
    requires r + n <= |buf| && 0 <= c
    requires ZeroBelow(buf, dtsize, c)
    ensures ClearedMark(c, r, n) >= c
    ensures ClearedMark(c, r, n) != c ==> ClearedMark(c, r, n) == r + n
    ensures ZeroBelow(Zeroed(buf, dtsize, r, n), dtsize, ClearedMark(c, r, n))
  {
    var z := Zeroed(buf, dtsize, r, n);
    var c' := ClearedMark(c, r, n);
    forall i | 0 <= i < c' && i < |z|
      ensures z[i] == Zero(dtsize)
    {
      if i < c {
        assert buf[i] == Zero(dtsize);
      }
    }
  }

  /** `after` holds the elements of `before`, possibly followed by more, except
      that from .. to-1 are zero. */
  ghost predicate Refreshed(before: seq<Element>, after: seq<Element>, dtsize: nat, from: int, to: int)
  {
    0 <= from && |before| <= |after| && to <= |after|
    && (forall i :: from <= i < to ==> after[i] == Zero(dtsize))
    && (forall i :: 0 <= i < |before| && (i < from || to <= i) ==> after[i] == before[i])
  }

  /** Zeroing a range refreshes exactly that range. */
  lemma ZeroedRefreshes(buf: seq<Element>, dtsize: nat, r: nat, n: nat)
    requires r + n <= |buf|
    ensures Refreshed(buf, Zeroed(buf, dtsize, r, n), dtsize, r, r + n)
  {
  }

  /** Growing a buffer and then zeroing a range of the grown buffer refreshes that
      range of the original. */
  lemma RefreshedAfterGrowth(before: seq<Element>, grown: seq<Element>, dtsize: nat, from: nat, to: nat)
    requires before <= grown && from <= to <= |grown|
    ensures Refreshed(before, Zeroed(grown, dtsize, from, to - from), dtsize, from, to)
  {
    var after := Zeroed(grown, dtsize, from, to - from);
    forall i | 0 <= i < |before| && (i < from || to <= i)
      ensures after[i] == before[i]
    {
      assert grown[i] == before[i];
    }
  }

  /** stg_need's new capacity for a length `avail`. */
  function GrownSize(avail: int): (newsize: int)
  {
    2 * (avail - 1)
  }

  /** The growth law: growing because `avail` passed `size` at least doubles the
      capacity and makes room for `avail` elements. */
  lemma GrowthLaw(avail: int, size: int)
    requires 1 <= size < avail
    ensures GrownSize(avail) >= 2 * size
    ensures GrownSize(avail) >= avail
  {
  }

  /** The four bytes of a 32-bit int, least significant first, in two's complement. */
  function EncodeLink(x: int): (b: seq<byte>)
    requires MinInt <= x <= MaxInt
    ensures |b| == IntSize
  {
    var u := if x < 0 then x + 0x1_0000_0000 else x;
    [u % 256, u / 256 % 256, u / 256 / 256 % 256, u / 256 / 256 / 256]
  }

  /** The 32-bit int held in the first four bytes. */
  function DecodeLink(b: seq<byte>): (x: int)
    requires |b| >= IntSize
    ensures MinInt <= x <= MaxInt
  {
    var u := b[0] as int + 0x100 * (b[1] as int + 0x100 * (b[2] as int + 0x100 * b[3] as int));
    if u > MaxInt then u - 0x1_0000_0000 else u
  }

  /** Reading back a stored link gives the stored value, whatever follows it. */
  lemma LinkRoundTrip(x: int, rest: seq<byte>)
    requires MinInt <= x <= MaxInt
    ensures DecodeLink(EncodeLink(x) + rest) == x
  {
    var u := if x < 0 then x + 0x1_0000_0000 else x;
    var b := EncodeLink(x) + rest;
    var q1 := u / 256;
    var q2 := q1 / 256;
    assert u == b[0] as int + 256 * q1;
    assert q1 == b[1] as int + 256 * q2;
    assert q2 == b[2] as int + 256 * b[3] as int;
  }

  /** Every four bytes are the encoding of the int they decode to. */
  lemma LinkBytesRoundTrip(b: seq<byte>)
    requires |b| == IntSize
    ensures EncodeLink(DecodeLink(b)) == b
  {
    var w := b[2] as int + 0x100 * b[3] as int;
    var v := b[1] as int + 0x100 * w;
    var u := b[0] as int + 0x100 * v;
    DivMod256(b[0], v);
    DivMod256(b[1], w);
    DivMod256(b[2], b[3] as int);
  }

  lemma DivMod256(lo: byte, hi: int)
    ensures (lo as int + 0x100 * hi) % 256 == lo as int
    ensures (lo as int + 0x100 * hi) / 256 == hi
  {
  }

  /** An element with `x` written into its first `int`. */
  function WithLink(e: Element, x: int): (e': Element)
    requires |e| >= IntSize && MinInt <= x <= MaxInt
    ensures |e'| == |e|
    ensures DecodeLink(e') == x
    ensures e'[IntSize..] == e[IntSize..]
  {
    LinkRoundTrip(x, e[IntSize..]);
    EncodeLink(x) + e[IntSize..]
  }
}
