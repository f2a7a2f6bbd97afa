/** How a byte range is cut into slices, aligned to a block size or into a number of parts. */
module Slices {
  import opened Files

  datatype Splitting = Aligned(splits: nat) | Count(splits: nat)

  predicate Usable(mode: Splitting) { mode.splits >= 1 }

  datatype Slice = Slice(start: nat, count: nat) {
    function End(): nat { start + count }
  }

  /** Integer ceiling of total / splits. */
  function PerSlice(mode: Splitting, total: nat): (per: nat)
    requires Usable(mode)
    ensures total > 0 ==> per > 0
  {
    (total + mode.splits - 1) / mode.splits
  }

  lemma PerSliceCovers(mode: Splitting, total: nat)
    requires Usable(mode)
    ensures total <= mode.splits * PerSlice(mode, total)
  {
    var n := total + mode.splits - 1;
    assert n == mode.splits * (n / mode.splits) + n % mode.splits;
  }

  function NextCount(mode: Splitting, per: nat, start: nat, remaining: nat): (count: nat)
    requires Usable(mode) && per > 0
    ensures count <= remaining && (remaining > 0 ==> count > 0)
  {
    Min(if mode.Aligned? then mode.splits - start % mode.splits else per, remaining)
  }

  function SlicesFrom(mode: Splitting, per: nat, start: nat, remaining: nat): seq<Slice>
    requires Usable(mode) && per > 0
    decreases remaining
  {
    if remaining == 0 then []
    else
      var count := NextCount(mode, per, start, remaining);
      [Slice(start, count)] + SlicesFrom(mode, per, start + count, remaining - count)
  }

  /** The loops take the slices one by one: n are done, the next one starts at start. */
  lemma NextSlice(mode: Splitting, per: nat, start: nat, remaining: nat, slices: seq<Slice>, n: nat)
    requires Usable(mode) && per > 0 && remaining > 0 && n <= |slices|
    requires slices[n..] == SlicesFrom(mode, per, start, remaining)
    ensures var count := NextCount(mode, per, start, remaining);
            && n < |slices| && slices[n] == Slice(start, count)
            && slices[n + 1..] == SlicesFrom(mode, per, start + count, remaining - count)
  {
    assert slices[n] == slices[n..][0];
    assert slices[n + 1..] == slices[n..][1..];
  }

  function SlicesOf(mode: Splitting, start: nat, total: nat): seq<Slice>
    requires Usable(mode)
  {
    if total == 0 then [] else SlicesFrom(mode, PerSlice(mode, total), start, total)
  }

  /** Non-empty slices that follow each other from start to end without gap or overlap. */
  ghost predicate Tiles(slices: seq<Slice>, start: nat, end: nat)
    decreases |slices|
  {
    if slices == [] then start == end
    else
      var last := slices[|slices| - 1];
      last.count > 0 && last.End() == end && start <= last.start && Tiles(slices[..|slices| - 1], start, last.start)
  }

  lemma {:induction false} TilesConcat(a: seq<Slice>, b: seq<Slice>, start: nat, mid: nat, end: nat)
    requires Tiles(a, start, mid) && Tiles(b, mid, end) && start <= mid
    ensures Tiles(a + b, start, end)
    decreases |b|
  {
    if b == [] {
      assert a + b == a;
    } else {
      TilesConcat(a, b[..|b| - 1], start, mid, b[|b| - 1].start);
      assert (a + b)[..|a + b| - 1] == a + b[..|b| - 1];
    }
  }

  lemma {:induction false} SlicesFromTile(mode: Splitting, per: nat, start: nat, remaining: nat)
    requires Usable(mode) && per > 0
    ensures Tiles(SlicesFrom(mode, per, start, remaining), start, start + remaining)
    decreases remaining
  {
    if remaining == 0 {
    } else {
      var count := NextCount(mode, per, start, remaining);
      SlicesFromTile(mode, per, start + count, remaining - count);
      assert Tiles([Slice(start, count)], start, start + count);
      TilesConcat([Slice(start, count)], SlicesFrom(mode, per, start + count, remaining - count),
        start, start + count, start + remaining);
    }
  }

  /** The slices partition the range. */
  lemma SlicesTile(mode: Splitting, start: nat, total: nat)
    requires Usable(mode)
    ensures Tiles(SlicesOf(mode, start, total), start, start + total)
  {
    if total > 0 {
      SlicesFromTile(mode, PerSlice(mode, total), start, total);
    }
  }

  lemma {:induction false} AtMost(mode: Splitting, per: nat, start: nat, remaining: nat, parts: nat)
    requires mode.Count? && Usable(mode) && per > 0 && remaining <= parts * per
    ensures |SlicesFrom(mode, per, start, remaining)| <= parts
    decreases remaining
  {
    if remaining == 0 {
    } else {
      assert parts > 0 && (parts - 1) * per == parts * per - per;
      var count := NextCount(mode, per, start, remaining);
      AtMost(mode, per, start + count, remaining - count, parts - 1);
    }
  }

  /** In count mode there are at most as many slices as asked for. */
  lemma CountModeBound(mode: Splitting, start: nat, total: nat)
    requires mode.Count? && Usable(mode)
    ensures |SlicesOf(mode, start, total)| <= mode.splits
  {
    if total > 0 {
      PerSliceCovers(mode, total);
      AtMost(mode, PerSlice(mode, total), start, total, mode.splits);
    }
  }

  /** All slices have the same length, only the last one may be shorter. */
  predicate EvenSlices(slices: seq<Slice>, n: nat) {
    && (forall i :: 0 <= i < |slices| - 1 ==> slices[i].count == n)
    && (slices != [] ==> 0 < slices[|slices| - 1].count <= n)
  }

  lemma {:induction false} EvenFrom(mode: Splitting, per: nat, start: nat, remaining: nat)
    requires mode.Count? && Usable(mode) && per > 0
    ensures EvenSlices(SlicesFrom(mode, per, start, remaining), per)
    decreases remaining
  {
    if remaining == 0 {
    } else {
      EvenFrom(mode, per, start + Min(per, remaining), remaining - Min(per, remaining));
    }
  }

  /** Count mode cuts into equal parts of the smallest length n that needs no more than the parts
      asked for. */
  lemma CountModeIsEven(mode: Splitting, start: nat, total: nat) returns (n: nat)
    requires mode.Count? && Usable(mode) && total > 0
    ensures n > 0 && (n - 1) * mode.splits < total <= n * mode.splits
    ensures EvenSlices(SlicesOf(mode, start, total), n)
  {
    n := PerSlice(mode, total);
    var up := total + mode.splits - 1;
    assert up == mode.splits * n + up % mode.splits;
    assert (n - 1) * mode.splits == n * mode.splits - mode.splits;
    EvenFrom(mode, n, start, total);
  }

  /** The slice ends before or at the next block boundary after its start. */
  predicate InOneBlock(s: Slice, block: nat)
    requires block > 0
  {
    s.count > 0 && s.start % block + s.count <= block
  }

  lemma {:induction false} AlignedFrom(mode: Splitting, per: nat, start: nat, remaining: nat)
    requires mode.Aligned? && Usable(mode) && per > 0
    ensures forall s :: s in SlicesFrom(mode, per, start, remaining) ==> InOneBlock(s, mode.splits)
    decreases remaining
  {
    if remaining == 0 {
    } else {
      var count := NextCount(mode, per, start, remaining);
      AlignedFrom(mode, per, start + count, remaining - count);
    }
  }

  /** In aligned mode no slice straddles a boundary. */
  lemma AlignedModeStaysInBlocks(mode: Splitting, start: nat, total: nat)
    requires mode.Aligned? && Usable(mode)
    ensures forall s :: s in SlicesOf(mode, start, total) ==> InOneBlock(s, mode.splits)
  {
    if total > 0 {
      AlignedFrom(mode, PerSlice(mode, total), start, total);
    }
  }

  /** The slice ends at a block boundary, or at the end of the range. */
  predicate EndsAtBoundary(s: Slice, block: nat, end: nat)
    requires block > 0
  {
    s.End() % block == 0 || s.End() == end
  }

  lemma NextBoundary(start: nat, block: nat)
    requires block > 0
    ensures (start + (block - start % block)) % block == 0
  {
    var q := start / block;
    assert start == block * q + start % block;
    MultipleLeavesNothing(block, q + 1);
    assert start + (block - start % block) == block * q + block == block * (q + 1);
  }

  lemma MultipleLeavesNothing(block: nat, q: nat)
    requires block > 0
    ensures (block * q) % block == 0
  {
    var n := block * q;
    var d, rest := q - n / block, n % block;
    assert block * d == block * q - block * (n / block) == rest;
    assert d >= 1 ==> block * d >= block;
    assert d <= -1 ==> block * d < 0;
  }

  lemma {:induction false} BoundariesFrom(mode: Splitting, per: nat, start: nat, remaining: nat)
    requires mode.Aligned? && Usable(mode) && per > 0
    ensures forall s :: s in SlicesFrom(mode, per, start, remaining) ==>
      EndsAtBoundary(s, mode.splits, start + remaining)
    decreases remaining
  {
    if remaining == 0 {
    } else {
      var count := NextCount(mode, per, start, remaining);
      NextBoundary(start, mode.splits);
      BoundariesFrom(mode, per, start + count, remaining - count);
    }
  }

  /** In aligned mode only block boundaries cut the range. */
  lemma AlignedModeCutsAtBoundaries(mode: Splitting, start: nat, total: nat)
    requires mode.Aligned? && Usable(mode)
    ensures forall s :: s in SlicesOf(mode, start, total) ==> EndsAtBoundary(s, mode.splits, start + total)
  {
    if total > 0 {
      BoundariesFrom(mode, PerSlice(mode, total), start, total);
    }
  }
}
