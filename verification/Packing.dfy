/** Packing records into 2048-byte sectors: a record that does not fit in what is left of the current
    sector goes to the next one. The record writers pack at real positions; the size estimator counts
    with a running size of its own. This module relates the two. */
module Packing {

  /** `align_up(value, 0x800)`. */
  function AlignUp(value: nat): (r: nat)
    ensures value <= r < value + 2048 && r % 2048 == 0
  {
    if value % 2048 == 0 then value else value - value % 2048 + 2048
  }

  /** The source's form: adding 0x7FF and clearing the low eleven bits. */
  lemma AlignUpByMask(value: nat)
    ensures AlignUp(value) == value + 2047 - (value + 2047) % 2048
  {
  }

  /** Zero bytes written before a record of `size` bytes at position `pos`. */
  function Gap(pos: nat, size: nat): nat {
    var available := AlignUp(pos) - pos;
    if size > available && available != 0 then available else 0
  }

  /** Position after a record of `size` bytes is written at `pos`. */
  function Place(pos: nat, size: nat): nat {
    pos + Gap(pos, size) + size
  }

  /** Position after the first `k` records are written from `pos` on. */
  function PackTo(pos: nat, sizes: seq<nat>, k: nat): (end: nat)
    requires k <= |sizes|
    ensures end >= pos
  {
    if k == 0 then pos else Place(PackTo(pos, sizes, k - 1), sizes[k - 1])
  }

  lemma PackToStep(pos: nat, sizes: seq<nat>, k: nat)
    requires k < |sizes|
    ensures PackTo(pos, sizes, k + 1) == Place(PackTo(pos, sizes, k), sizes[k])
  {
    hide Place;
  }

  /** Sectors touched by the bytes [0, end). */
  function Sectors(end: nat): nat {
    AlignUp(end) / 2048
  }

  /** Running size and sector count of the estimator. */
  datatype Tally = Tally(size: nat, count: nat)

  /** One round of the loops of `get_extent_size_in_lb`. */
  function Count(t: Tally, size: nat): Tally {
    var available := AlignUp(t.size) - t.size;
    if size > available && available != 0 then Tally(size, t.count + 1)
    else Tally(t.size + size, t.count)
  }

  function Estimate(start: nat, sizes: seq<nat>, k: nat): Tally
    requires k <= |sizes|
  {
    if k == 0 then Tally(start, 1) else Count(Estimate(start, sizes, k - 1), sizes[k - 1])
  }

  lemma EstimateNext(start: nat, sizes: seq<nat>, k: nat)
    requires k < |sizes|
    ensures Estimate(start, sizes, k + 1) == Count(Estimate(start, sizes, k), sizes[k])
  {
  }

  /** Records reached with the position exactly at the end of a sector. */
  function ExactFills(pos: nat, sizes: seq<nat>, k: nat): nat
    requires k <= |sizes|
  {
    if k == 0 then 0
    else ExactFills(pos, sizes, k - 1) + (if PackTo(pos, sizes, k - 1) % 2048 == 0 then 1 else 0)
  }

  lemma ExactFillsStep(pos: nat, sizes: seq<nat>, k: nat)
    requires k < |sizes|
    ensures ExactFills(pos, sizes, k + 1)
      == ExactFills(pos, sizes, k) + (if PackTo(pos, sizes, k) % 2048 == 0 then 1 else 0)
  {
    hide PackTo;
  }

  /** Every record is shorter than a sector. */
  ghost predicate Small(sizes: seq<nat>) {
    forall i :: 0 <= i < |sizes| ==> 0 < sizes[i] < 2048
  }

  /** The estimator counts the sectors of the packing it was started like, short of one for every exact fill. */
  lemma {:induction false} EstimateCountsSectors(start: nat, sizes: seq<nat>, k: nat)
    requires Small(sizes) && k <= |sizes| && 0 < start <= 2048
    ensures var t, end := Estimate(start, sizes, k), PackTo(start, sizes, k);
      && 0 < t.size && t.size % 2048 == end % 2048
      && t.count + ExactFills(start, sizes, k) == Sectors(end)
  {
    if k > 0 {
      EstimateCountsSectors(start, sizes, k - 1);
      StepSectors(PackTo(start, sizes, k - 1), Estimate(start, sizes, k - 1), sizes[k - 1]);
    }
  }

  /** One record more, at a real position and in the estimator. */
  lemma StepSectors(pos: nat, t: Tally, e: nat)
    requires 0 < e < 2048 && pos % 2048 == t.size % 2048
    ensures var next, u := Place(pos, e), Count(t, e);
      && 0 < u.size && next % 2048 == u.size % 2048
      && (0 < pos ==> Sectors(next) - Sectors(pos) == u.count - t.count + (if pos % 2048 == 0 then 1 else 0))
  {
    hide Place, Count, Sectors;
    var k, l, m := pos / 2048, t.size / 2048, pos % 2048;
    StepParts(k, l, m, e, t);
    SameRest(k, l, m, e);
    SectorsOf(k, m);
    if m == 0 || m + e > 2048 {
      SectorsOf(if m == 0 then k else k + 1, e);
    } else {
      SectorsOf(k, m + e);
    }
  }

  /** Where the record goes, and what the estimator makes of it, when the sector holds `m` bytes already. */
  lemma StepParts(k: nat, l: nat, m: nat, e: nat, t: Tally)
    requires m < 2048 && 0 < e < 2048 && t.size == 2048 * l + m
    ensures Place(2048 * k + m, e) == if m == 0 || m + e <= 2048 then 2048 * k + m + e else 2048 * (k + 1) + e
    ensures Count(t, e) == if m == 0 || m + e <= 2048 then Tally(2048 * l + m + e, t.count) else Tally(e, t.count + 1)
  {
    hide AlignUp;
    if m == 0 {
      AlignUpWhole(k);
      AlignUpWhole(l);
    } else {
      AlignUpPart(k, m);
      AlignUpPart(l, m);
    }
  }

  lemma SameRest(k: nat, l: nat, m: nat, e: nat)
    ensures (2048 * k + m + e) % 2048 == (2048 * l + m + e) % 2048
    ensures (2048 * (k + 1) + e) % 2048 == e % 2048
  {
    assert 2048 * k + m + e == 2048 * (k - l) + (2048 * l + m + e);
  }

  lemma SectorsOf(k: nat, m: nat)
    requires m <= 2048
    ensures Sectors(2048 * k + m) == if m == 0 then k else k + 1
  {
    hide AlignUp;
    if m == 0 {
      AlignUpWhole(k);
    } else {
      AlignUpPart(k, m);
    }
  }

  lemma AlignUpWhole(k: nat)
    ensures AlignUp(2048 * k) == 2048 * k
  {
  }

  lemma AlignUpPart(k: nat, m: nat)
    requires 0 < m <= 2048
    ensures AlignUp(2048 * k + m) == 2048 * k + 2048
  {
    assert m < 2048 ==> (2048 * k + m) % 2048 == m;
  }

  /** Next-fit packing is monotone: starting later never ends earlier. */
  lemma {:induction false} PackMonotone(p: nat, q: nat, sizes: seq<nat>, k: nat)
    requires Small(sizes) && k <= |sizes| && p <= q
    ensures PackTo(p, sizes, k) <= PackTo(q, sizes, k)
  {
    if k > 0 {
      PackMonotone(p, q, sizes, k - 1);
      PlaceMonotone(PackTo(p, sizes, k - 1), PackTo(q, sizes, k - 1), sizes[k - 1]);
    }
  }

  lemma PlaceMonotone(p: nat, q: nat, e: nat)
    requires p <= q && 0 < e < 2048
    ensures Place(p, e) <= Place(q, e)
  {
    var k := p / 2048;
    if q / 2048 == k {
      assert AlignUp(q) <= 2048 * k + 2048;
    }
  }

  lemma PlaceShift(block: nat, pos: nat, e: nat)
    ensures Place(block * 2048 + pos, e) == block * 2048 + Place(pos, e)
  {
    assert block * 2048 + pos == 2048 * (block + pos / 2048) + pos % 2048;
    assert (block * 2048 + pos) % 2048 == pos % 2048;
  }

  /** Packing does not depend on the sector it starts in. */
  lemma {:induction false} PackShift(block: nat, pos: nat, sizes: seq<nat>, k: nat)
    requires k <= |sizes|
    ensures PackTo(block * 2048 + pos, sizes, k) == block * 2048 + PackTo(pos, sizes, k)
  {
    hide Place;
    if k > 0 {
      PackShift(block, pos, sizes, k - 1);
      PlaceShift(block, PackTo(pos, sizes, k - 1), sizes[k - 1]);
    }
  }

  /** Packing the rest of the records goes on where the first `j` end. */
  lemma {:induction false} PackSplit(pos: nat, sizes: seq<nat>, j: nat, k: nat)
    requires j + k <= |sizes|
    ensures PackTo(pos, sizes, j + k) == PackTo(PackTo(pos, sizes, j), sizes[j..], k)
    decreases k
  {
    hide Place;
    if k > 0 {
      PackSplit(pos, sizes, j, k - 1);
      assert sizes[j..][k - 1] == sizes[j + k - 1];
    }
  }

  /** The packing only moves forward. */
  lemma {:induction false} PackForward(pos: nat, sizes: seq<nat>, j: nat, k: nat)
    requires j <= k <= |sizes|
    ensures PackTo(pos, sizes, j) <= PackTo(pos, sizes, k)
  {
    if j < k {
      PackForward(pos, sizes, j, k - 1);
    }
  }

  /** A record of at most one sector never straddles a sector boundary. */
  lemma NoStraddle(pos: nat, e: nat)
    requires 0 < e <= 2048
    ensures var first := pos + Gap(pos, e); first / 2048 == (first + e - 1) / 2048
  {
  }
}
