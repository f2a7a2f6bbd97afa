/** MemregionTracker: the file-backed memory regions of a process, and how msync and memory
    writes are resolved through them. Ranges are closed on both sides. */
module Memregions {
  import opened Compiler

  datatype Region = Region(start: nat, end: nat, inode: int, offset: nat) {
    predicate Holds(a: nat) { start <= a <= end }
  }

  type Regions = map<nat, Region>

  /** The four comparisons of the overlap test. */
  predicate Meets(lo: nat, hi: nat, r: Region) {
    || (lo >= r.start && lo <= r.end)
    || (hi >= r.start && hi <= r.end)
    || (r.start >= lo && r.start <= hi)
    || (r.end >= lo && r.end <= hi)
  }

  /** Keyed by their start, not empty, and pairwise disjoint. */
  ghost predicate WellKept(m: Regions) {
    && (forall k :: k in m ==> m[k].start == k && k <= m[k].end)
    && (forall j, k :: j in m && k in m && j < k ==> m[j].end < k)
  }

  /** The address is backed by that byte of that file. */
  ghost predicate Maps(m: Regions, a: nat, inode: int, off: nat) {
    exists k :: k in m && m[k].Holds(a) && inode == m[k].inode && off == m[k].offset + (a - m[k].start)
  }

  // ----- unmapping -----

  /** What remove_overlaps leaves: untouched regions and left remainders. */
  function Removed(m: Regions, lo: nat, hi: nat, whole: bool): Regions {
    map k | k in m && (!Meets(lo, hi, m[k]) || (!whole && k < lo)) ::
      if Meets(lo, hi, m[k]) then m[k].(end := lo - 1) else m[k]
  }

  ghost predicate UnmapIsExact(m: Regions, lo: nat, hi: nat, whole: bool) {
    forall a: nat, i: int, o: nat :: !(lo <= a <= hi) ==>
      (Maps(Removed(m, lo, hi, whole), a, i, o) <==> Maps(m, a, i, o))
  }

  /** Nothing in the range stays mapped, and what stays mapped keeps its file position. */
  lemma RemovedIsClear(m: Regions, lo: nat, hi: nat, whole: bool, a: nat, i: int, o: nat)
    requires WellKept(m) && lo <= hi && Maps(Removed(m, lo, hi, whole), a, i, o)
    ensures !(lo <= a <= hi) && Maps(m, a, i, o)
  {
    var r := Removed(m, lo, hi, whole);
    var k :| k in r && r[k].Holds(a) && i == r[k].inode && o == r[k].offset + (a - r[k].start);
    assert m[k].Holds(a);
  }

  lemma RemovedIsWellKept(m: Regions, lo: nat, hi: nat, whole: bool)
    requires WellKept(m) && lo <= hi
    ensures WellKept(Removed(m, lo, hi, whole))
  {}

  /** The region loses no address outside the range. */
  predicate NothingBeyond(r: Region, lo: nat, hi: nat, whole: bool) {
    Meets(lo, hi, r) ==> r.end <= hi && (whole ==> lo <= r.start)
  }

  lemma LostAddress(m: Regions, lo: nat, hi: nat, whole: bool, k: nat, a: nat)
    requires WellKept(m) && lo <= hi && k in m && Meets(lo, hi, m[k]) && m[k].Holds(a)
    requires a > hi || (whole && a < lo)
    ensures !Maps(Removed(m, lo, hi, whole), a, m[k].inode, m[k].offset + (a - k))
      && Maps(m, a, m[k].inode, m[k].offset + (a - k))
  {
    var r := Removed(m, lo, hi, whole);
    forall j | j in r ensures !r[j].Holds(a) {
      if j < k {
        assert m[j].end < k;
      } else if j > k {
        assert m[k].end < j;
      }
    }
  }

  /** Unmapping takes exactly the range away if and only if no region it meets reaches beyond the
      range; on the left that only matters when whole regions go. */
  lemma UnmapExactness(m: Regions, lo: nat, hi: nat, whole: bool)
    requires WellKept(m) && lo <= hi
    ensures UnmapIsExact(m, lo, hi, whole) <==> forall k :: k in m ==> NothingBeyond(m[k], lo, hi, whole)
  {
    hide Removed;
    if k :| k in m && !NothingBeyond(m[k], lo, hi, whole) {
      var a := if m[k].end > hi then m[k].end else k;
      LostAddress(m, lo, hi, whole, k, a);
    } else {
      var r := Removed(m, lo, hi, whole);
      forall a: nat, i: int, o: nat | !(lo <= a <= hi) ensures Maps(r, a, i, o) <==> Maps(m, a, i, o) {
        if Maps(r, a, i, o) {
          RemovedIsClear(m, lo, hi, whole, a, i, o);
        }
        if Maps(m, a, i, o) {
          KeptAddress(m, lo, hi, whole, a, i, o);
        }
      }
    }
  }

  lemma KeptAddress(m: Regions, lo: nat, hi: nat, whole: bool, a: nat, i: int, o: nat)
    requires WellKept(m) && lo <= hi && !(lo <= a <= hi) && Maps(m, a, i, o)
    requires forall k :: k in m ==> NothingBeyond(m[k], lo, hi, whole)
    ensures Maps(Removed(m, lo, hi, whole), a, i, o)
  {
    var r := Removed(m, lo, hi, whole);
    var k :| k in m && m[k].Holds(a) && i == m[k].inode && o == m[k].offset + (a - m[k].start);
    assert k in r && r[k].Holds(a);
  }

  /** A mapping of ten bytes with two bytes in the middle replaced loses its tail. */
  lemma RightRemainderIsLost()
    ensures var m: Regions := map[0 := Region(0, 9, 5, 100)];
            && WellKept(m) && Maps(m, 7, 5, 107) && !Maps(Removed(m, 3, 4, false), 7, 5, 107)
  {
    var m: Regions := map[0 := Region(0, 9, 5, 100)];
    assert m[0].Holds(7);
    LostAddress(m, 3, 4, false, 0, 7);
  }

  // ----- resolving a range -----

  function Clip(r: Region, lo: nat, hi: nat): (c: Region)
    requires Meets(lo, hi, r) && lo <= hi && r.start <= r.end
    ensures lo <= c.start <= c.end <= hi
    ensures forall a: nat :: c.Holds(a) <==> r.Holds(a) && lo <= a <= hi
    ensures c.inode == r.inode && c.offset == r.offset + (c.start - r.start)
  {
    var left := if r.start < lo then r.(start := lo, offset := r.offset + (lo - r.start)) else r;
    if left.end > hi then left.(end := hi) else left
  }

  ghost predicate Ascending(rs: seq<Region>) {
    forall i, j :: 0 <= i < j < |rs| ==> rs[i].end < rs[j].start
  }

  /** The regions of the list, and no others, back the addresses of the range. */
  ghost predicate Resolves(m: Regions, lo: nat, hi: nat, rs: seq<Region>) {
    && Ascending(rs)
    && (forall i :: 0 <= i < |rs| ==> lo <= rs[i].start <= rs[i].end <= hi)
    && forall a: nat, inode: int, off: nat :: lo <= a <= hi ==>
      (Maps(m, a, inode, off) <==> exists i :: 0 <= i < |rs| && BackedBy(rs[i], a, inode, off))
  }

  lemma ClippedResolve(m: Regions, lo: nat, hi: nat, sorted: seq<Region>, rs: seq<Region>)
    requires lo <= hi && Ascending(sorted) && |rs| == |sorted|
    requires forall r :: r in sorted <==> exists k :: k in m && m[k] == r && Meets(lo, hi, r)
    requires forall i :: 0 <= i < |sorted| ==> Meets(lo, hi, sorted[i]) && sorted[i].start <= sorted[i].end
    requires forall i :: 0 <= i < |rs| ==> rs[i] == Clip(sorted[i], lo, hi)
    ensures Resolves(m, lo, hi, rs)
  {
    forall a: nat, inode: int, off: nat | lo <= a <= hi
      ensures Maps(m, a, inode, off) <==> exists i :: 0 <= i < |rs| && BackedBy(rs[i], a, inode, off)
    {
      if Maps(m, a, inode, off) {
        var k :| k in m && m[k].Holds(a) && inode == m[k].inode && off == m[k].offset + (a - m[k].start);
        assert m[k] in sorted;
        var i :| 0 <= i < |sorted| && sorted[i] == m[k];
        assert BackedBy(rs[i], a, inode, off);
      }
      if i :| 0 <= i < |rs| && BackedBy(rs[i], a, inode, off) {
        assert sorted[i] in sorted;
      }
    }
  }

  predicate BackedBy(r: Region, a: nat, inode: int, off: nat) {
    r.Holds(a) && inode == r.inode && off == r.offset + (a - r.start)
  }

  function InsertByStart(rs: seq<Region>, r: Region): (s: seq<Region>)
    ensures |s| == |rs| + 1
    ensures forall x :: x in s <==> x == r || x in rs
  {
    if rs == [] then [r]
    else if r.start < rs[0].start then [r] + rs
    else
      var rest := InsertByStart(rs[1..], r);
      assert forall x :: x in rs <==> x == rs[0] || x in rs[1..];
      [rs[0]] + rest
  }

  ghost predicate Apart(r: Region, s: Region) { r.end < s.start || s.end < r.start }

  lemma {:induction false} InsertAscends(rs: seq<Region>, r: Region)
    requires Ascending(rs) && r.start <= r.end
    requires forall i :: 0 <= i < |rs| ==> rs[i].start <= rs[i].end && Apart(r, rs[i])
    ensures Ascending(InsertByStart(rs, r))
    decreases |rs|
  {
    if rs != [] && r.start >= rs[0].start {
      InsertAscends(rs[1..], r);
      var rest := InsertByStart(rs[1..], r);
      forall j | 0 <= j < |rest| ensures rs[0].end < rest[j].start {
        assert rest[j] in rest;
        if rest[j] != r {
          var i :| 0 <= i < |rs[1..]| && rs[1..][i] == rest[j];
          assert rs[i + 1] == rest[j];
        }
      }
    }
  }

  // ----- the tracker -----

  /** The map after the regions in done were taken out and their left remainders put back. */
  ghost function After(m: Regions, lo: nat, whole: bool, done: set<nat>): Regions {
    map k | k in m && (k !in done || (!whole && k < lo)) :: if k in done then m[k].(end := lo - 1) else m[k]
  }

  lemma AfterStep(m: Regions, lo: nat, whole: bool, done: set<nat>, k: nat)
    requires k in m && k !in done
    ensures After(m, lo, whole, done + {k}) ==
      if !whole && k < lo then (After(m, lo, whole, done) - {k})[k := m[k].(end := lo - 1)]
        else After(m, lo, whole, done) - {k}
  {}

  lemma MetIsNew(m: Regions, lo: nat, hi: nat, whole: bool, done: set<nat>, r: Region)
    requires WellKept(m) && lo <= hi && Meets(lo, hi, r)
    requires var now := After(m, lo, whole, done); exists k :: k in now && now[k] == r
    ensures r.start in m && m[r.start] == r && r.start !in done && r.start <= hi
  {}

  lemma AllDone(m: Regions, lo: nat, hi: nat, whole: bool, done: set<nat>)
    requires WellKept(m) && lo <= hi && forall k :: k in done ==> k in m && Meets(lo, hi, m[k])
    requires var now := After(m, lo, whole, done); forall k :: k in now ==> !Meets(lo, hi, now[k])
    ensures After(m, lo, whole, done) == Removed(m, lo, hi, whole)
  {
    forall k | k in m && Meets(lo, hi, m[k]) ensures k in done {
      assert k !in done ==> k in After(m, lo, whole, done);
    }
  }

  class MemregionTracker {
    var regions: Regions

    ghost predicate Valid()
      reads this
    {
      WellKept(regions)
    }

    constructor ()
      ensures Valid() && regions == map[]
    {
      regions := map[];
    }

    /** The first region found that meets the range, in any order. */
    method FindOverlap(lo: nat, hi: nat) returns (found: Option<Region>)
      ensures found.Some? ==> exists k :: k in regions && regions[k] == found.value && Meets(lo, hi, regions[k])
      ensures found.None? ==> forall k :: k in regions ==> !Meets(lo, hi, regions[k])
    {
      var rest := regions.Keys;
      while rest != {}
        invariant rest <= regions.Keys
        invariant forall k :: k in regions && k !in rest ==> !Meets(lo, hi, regions[k])
        decreases rest
      {
        var k :| k in rest;
        if Meets(lo, hi, regions[k]) {
          return Some(regions[k]);
        }
        rest := rest - {k};
      }
      return None;
    }

    /** The caller has to make room first. */
    method Insert(r: Region)
      requires Valid() && r.start <= r.end
      requires forall k :: k in regions ==> !Meets(r.start, r.end, regions[k])
      modifies this
      ensures Valid() && regions == old(regions)[r.start := r]
    {
      var found := FindOverlap(r.start, r.end);
      assert found.None?;
      regions := regions[r.start := r];
    }

    method RemoveOverlaps(lo: nat, hi: nat, whole: bool)
      requires Valid() && lo <= hi
      modifies this
      ensures Valid() && regions == Removed(old(regions), lo, hi, whole)
      ensures forall k :: k in regions ==> !Meets(lo, hi, regions[k])
    {
      ghost var m := regions;
      ghost var met := set k | k in m && Meets(lo, hi, m[k]);
      ghost var done: set<nat> := {};
      assert regions == After(m, lo, whole, done);
      while true
        invariant done <= met && regions == After(m, lo, whole, done)
        decreases met - done
      {
        var found := FindOverlap(lo, hi);
        if found.None? {
          AllDone(m, lo, hi, whole, done);
          break;
        }
        var r := found.value;
        MetIsNew(m, lo, hi, whole, done, r);
        regions := regions - {r.start};
        if !whole {
          if r.start < lo {
            regions := regions[r.start := r.(end := lo - 1)];
          }
          if r.start > hi {
            assert false; // the test looks at the start of the region, which a met region never has beyond the range
          }
        }
        AfterStep(m, lo, whole, done, r.start);
        done := done + {r.start};
      }
      RemovedIsWellKept(m, lo, hi, whole);
    }

    /** resolve_range: the regions that meet the range, in address order and cut to it. */
    method ResolveRange(lo: nat, hi: nat) returns (rs: seq<Region>)
      requires Valid() && lo <= hi
      ensures Resolves(regions, lo, hi, rs)
    {
      var sorted := OverlapsInOrder(lo, hi);
      rs := [];
      for i := 0 to |sorted|
        invariant |rs| == i && forall k :: 0 <= k < i ==> rs[k] == Clip(sorted[k], lo, hi)
      {
        rs := rs + [Clip(sorted[i], lo, hi)];
      }
      ClippedResolve(regions, lo, hi, sorted, rs);
    }

    method OverlapsInOrder(lo: nat, hi: nat) returns (sorted: seq<Region>)
      requires Valid() && lo <= hi
      ensures Ascending(sorted)
      ensures forall r :: r in sorted <==> exists k :: k in regions && regions[k] == r && Meets(lo, hi, r)
      ensures forall i :: 0 <= i < |sorted| ==> Meets(lo, hi, sorted[i]) && sorted[i].start <= sorted[i].end
    {
      sorted := [];
      var rest := regions.Keys;
      while rest != {}
        invariant rest <= regions.Keys && Ascending(sorted)
        invariant forall r :: r in sorted <==>
          exists k :: k in regions && k !in rest && regions[k] == r && Meets(lo, hi, r)
        decreases rest
      {
        var k :| k in rest;
        var r := regions[k];
        if Meets(lo, hi, r) {
          forall i | 0 <= i < |sorted| ensures sorted[i].start <= sorted[i].end && Apart(r, sorted[i]) {
            assert sorted[i] in sorted;
          }
          InsertAscends(sorted, r);
          sorted := InsertByStart(sorted, r);
        }
        rest := rest - {k};
      }
      forall i | 0 <= i < |sorted| ensures Meets(lo, hi, sorted[i]) && sorted[i].start <= sorted[i].end {
        assert sorted[i] in sorted;
      }
    }

    /** mwrite: the bytes dumped for the range go to the files behind it. */
    method MWrite(lo: nat, length: nat, file: string, dumpOffset: nat) returns (ops: seq<MicroOp>)
      requires Valid() && length > 0
      ensures forall k :: 0 <= k < |ops| ==>
        && ops[k].Overwrite? && ops[k].count > 0 && ops[k].file == file
        && dumpOffset <= ops[k].at && ops[k].at + ops[k].count <= dumpOffset + length
      ensures forall j, k :: 0 <= j < k < |ops| ==> ops[j].at + ops[j].count <= ops[k].at
      ensures forall a: nat, inode: int, off: nat :: lo <= a < lo + length ==>
        (Maps(regions, a, inode, off) <==>
         exists k :: 0 <= k < |ops| && Stores(ops[k], inode, off, file, dumpOffset + (a - lo)))
    {
      var hi := lo + length - 1;
      var rs := ResolveRange(lo, hi);
      ops := [];
      for i := 0 to |rs|
        invariant |ops| == i && forall k :: 0 <= k < i ==> ops[k] == RegionWrite(rs[k], lo, file, dumpOffset)
      {
        ops := ops + [RegionWrite(rs[i], lo, file, dumpOffset)];
      }
      forall a: nat, inode: int, off: nat | lo <= a <= hi
        ensures Maps(regions, a, inode, off) <==>
          exists k :: 0 <= k < |ops| && Stores(ops[k], inode, off, file, dumpOffset + (a - lo))
      {
        forall k | 0 <= k < |ops|
          ensures BackedBy(rs[k], a, inode, off) <==> Stores(ops[k], inode, off, file, dumpOffset + (a - lo))
        {}
      }
    }

    /** msync: exactly the file bytes behind the range are synced. */
    method MSync(lo: nat, length: nat) returns (ops: seq<MicroOp>)
      requires Valid() && length > 0
      ensures forall inode: int, off: nat :: SyncedBy(ops, inode, off) <==> BehindRange(regions, lo, length, inode, off)
    {
      var hi := lo + length - 1;
      var rs := ResolveRange(lo, hi);
      ops := [];
      for i := 0 to |rs|
        invariant |ops| == i
        invariant forall k :: 0 <= k < i ==> ops[k] == SyncRange(rs[k].inode, rs[k].offset, rs[k].end - rs[k].start + 1)
      {
        ops := ops + [SyncRange(rs[i].inode, rs[i].offset, rs[i].end - rs[i].start + 1)];
      }
      forall inode: int, off: nat
        ensures SyncedBy(ops, inode, off) <==> BehindRange(regions, lo, length, inode, off)
      {
        if k :| 0 <= k < |ops| && Syncs(ops[k], inode, off) {
          var a := rs[k].start + (off - rs[k].offset);
          assert BackedBy(rs[k], a, inode, off);
          assert Maps(regions, a, inode, off);
        }
        if a :| lo <= a < lo + length && Maps(regions, a, inode, off) {
          var k :| 0 <= k < |rs| && BackedBy(rs[k], a, inode, off);
          assert Syncs(ops[k], inode, off);
        }
      }
    }
  }

  function RegionWrite(r: Region, lo: nat, file: string, dumpOffset: nat): MicroOp
    requires lo <= r.start <= r.end
  {
    Overwrite(r.inode, r.offset, r.end - r.start + 1, file, dumpOffset + (r.start - lo))
  }

  /** The operation puts the byte at a dump position into that byte of that file. */
  predicate Stores(m: MicroOp, inode: int, off: nat, file: string, at: nat) {
    && m.Overwrite? && m.inode == inode && m.file == file
    && m.offset <= off < m.offset + m.count && m.at + (off - m.offset) == at
  }

  predicate Syncs(m: MicroOp, inode: int, off: nat) {
    m.SyncRange? && m.inode == inode && m.offset <= off < m.offset + m.count
  }

  ghost predicate SyncedBy(ops: seq<MicroOp>, inode: int, off: nat) {
    exists k :: 0 <= k < |ops| && Syncs(ops[k], inode, off)
  }

  /** Some address of the range is backed by that byte. */
  ghost predicate BehindRange(m: Regions, lo: nat, length: nat, inode: int, off: nat) {
    exists a: nat :: lo <= a < lo + length && Maps(m, a, inode, off)
  }
}
