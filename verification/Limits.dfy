/** How large sectors may get before the gap sizes of a run overflow: exactly 2^31 bytes. */
module Limits {
  import opened Machine
  import opened Sorting
  import opened Partition
  import opened Ebr
  import opened Gaps
  import opened Stages

  const HALF := 0x8000_0000

  function LogicalExtents(es: seq<EbrEntry>): seq<Extent> {
    seq(|es|, i requires 0 <= i < |es| => Extent(es[i].logicalLbaStart, LogicalEnd(es[i])))
  }

  function TableExtents(ts: seq<PartitionEntry>): seq<Extent> {
    seq(|ts|, i requires 0 <= i < |ts| => Extent(ts[i].lbaStart, ts[i].LbaEnd()))
  }

  /** The extents `compute_gaps` gets when the table has the partitions `ts`, one of them the container
      of the chain of `img`, and that chain is `r`. */
  ghost predicate Gives(img: Image, r: Result<EbrChain, WalkError>, p: seq<U64>, ts: seq<PartitionEntry>, es: seq<Extent>) {
    && |ts| <= 4 && StartsExtent(TableExtents(ts), img.ext) && img.Describes(r, p) && r.Ok?
    && es == Prepared(TableExtents(ts) + LogicalExtents(r.value.entries))
  }

  /** Extents that the table and the chain of some image can give. */
  ghost predicate RunExtents(es: seq<Extent>, ss: U64) {
    exists img: Image, r, p, ts :: Gives(img, r, p, ts, es) && img.sectorSize == ss
  }

  /** Whatever image and whatever disk size: no plain operation of the sweep overflows. */
  ghost predicate NoSweepOverflows(ss: U64) {
    forall es, last: nat :: RunExtents(es, ss) && (last + 1) * ss <= U64_MAX ==> SweepFits(es, 1, last, Scale(ss))
  }

  lemma GapSizesFitIff(ss: U64)
    requires ss > 0
    ensures NoSweepOverflows(ss) <==> ss <= HALF
  {
    hide RunExtents, SweepFits;
    if ss <= HALF {
      forall es, last: nat | RunExtents(es, ss) && (last + 1) * ss <= U64_MAX ensures SweepFits(es, 1, last, Scale(ss)) {
        HalfFits(es, last, ss);
      }
    } else {
      LargeSectorsOverflow(ss);
    }
  }

  // ----- Up to the limit -----

  /** What matters of run extents: they are small, and none starts more than two 32-bit fields above
      a start `c` among them, unless within 32 bits itself. */
  predicate Reachable(es: seq<Extent>, c: nat) {
    && SortedBy(es, ExtentKey()) && AllFormed(es) && StartsExtent(es, c) && c <= U32_MAX
    && forall i :: 0 <= i < |es| ==> es[i].end < U64_MAX && (es[i].start <= U32_MAX || es[i].start <= c + 2 * U32_MAX)
  }

  lemma HalfFits(es: seq<Extent>, last: nat, ss: U64)
    requires RunExtents(es, ss) && 0 < ss <= HALF && (last + 1) * ss <= U64_MAX
    ensures SweepFits(es, 1, last, Scale(ss))
  {
    hide SweepFits, Prepared, Image.Describes, Reachable;
    var img: Image, r, p, ts :| Gives(img, r, p, ts, es) && img.sectorSize == ss;
    RunReachable(img, r, p, ts);
    ReachableFits(es, img.ext, last, ss);
  }

  lemma RunReachable(img: Image, r: Result<EbrChain, WalkError>, p: seq<U64>, ts: seq<PartitionEntry>)
    requires StartsExtent(TableExtents(ts), img.ext) && img.Describes(r, p) && r.Ok?
    ensures Reachable(Prepared(TableExtents(ts) + LogicalExtents(r.value.entries)), img.ext)
  {
    hide Prepared, Image.Describes;
    var tes := TableExtents(ts);
    var all := tes + LogicalExtents(r.value.entries);
    var es := Prepared(all);
    var k :| 0 <= k < |tes| && tes[k].start == img.ext;
    PreparedFacts(all);
    forall i | 0 <= i < |all|
      ensures all[i].Formed() && all[i].end < U64_MAX && (all[i].start <= U32_MAX || all[i].start <= img.ext + 2 * U32_MAX)
    {
      if i >= |tes| { LogicalReach(img, r, p, i - |tes|); }
    }
    assert all[k] in all && all[k] in es;
    forall i | 0 <= i < |es|
      ensures es[i].Formed() && es[i].end < U64_MAX && (es[i].start <= U32_MAX || es[i].start <= img.ext + 2 * U32_MAX)
    {
      assert es[i] in es && es[i] in all;
    }
  }

  lemma LogicalReach(img: Image, r: Result<EbrChain, WalkError>, p: seq<U64>, i: nat)
    requires img.ext <= U32_MAX && img.Describes(r, p) && r.Ok? && i < |r.value.entries|
    ensures var e := r.value.entries[i];
            && e.logicalLbaStart <= img.ext + 2 * U32_MAX
            && e.logicalLbaStart <= LogicalEnd(e) + 1 && LogicalEnd(e) < U64_MAX
  {
    hide Image.NodeAt;
    PathBounds(img, p, i);
    assert r.value.entries[i] == img.EntryOf(p[i]);
  }

  lemma ReachableFits(es: seq<Extent>, c: nat, last: nat, ss: U64)
    requires Reachable(es, c) && 0 < ss <= HALF && (last + 1) * ss <= U64_MAX
    ensures SweepFits(es, 1, last, Scale(ss))
  {
    hide Sweep, CursorAfter;
    var gs := Sweep(es, 1, 1, last, Scale(ss));
    SweepIsGapList(es, 1, last, Scale(ss));
    forall i | 0 <= i <= |es| ensures CursorAfter(es, i, 1) <= U64_MAX { CursorFits(es, i, 1); }
    forall g | g in gs ensures g.lbaEnd - g.lbaStart + 1 <= U64_MAX && g.byteSize <= U64_MAX {
      var k :| 0 <= k < |gs| && gs[k] == g;
      ReachableGap(gs, es, c, last, Scale(ss), k);
      var n := g.lbaEnd - g.lbaStart + 1;
      MulMonotone(1, ss, n);
      if n <= 2 * U32_MAX { MulBound(n, ss, 2 * U32_MAX, HALF); } else { MulMonotone(n, last + 1, ss); }
    }
  }

  lemma StartCutsGap(gs: seq<Gap>, es: seq<Extent>, first: nat, x: int, k: nat)
    requires InOrder(gs) && StartsRight(gs, es, first, x) && StartsExtent(es, x) && k < |gs| && gs[k].Holds(x)
    ensures gs[k].lbaStart == x
  {
    assert InGap(gs, x);
    var j :| 0 <= j < |gs| && gs[j].lbaStart == x;
    assert j < k || j == k || k < j;
  }

  /** No gap is longer than two 32-bit fields, unless it is the trailing one on the disk: the container's
      start cuts any gap that reaches over it. */
  lemma ReachableGap(gs: seq<Gap>, es: seq<Extent>, c: nat, last: nat, size: nat -> nat, k: nat)
    requires Reachable(es, c) && IsGapList(gs, es, 1, last, size) && k < |gs|
    ensures var n := gs[k].lbaEnd - gs[k].lbaStart + 1;
            n > 0 && (n <= 2 * U32_MAX || n <= last) && gs[k].byteSize == size(n)
  {
    var g := gs[k];
    assert KindRight(gs, k, es, 1, last);
    assert g.Holds(g.lbaStart) && InGap(gs, g.lbaStart);
    if g.kind != PostPartition {
      var i :| 0 <= i < |es| && es[i].start == g.lbaEnd + 1;
      if g.Holds(c) { StartCutsGap(gs, es, 1, c, k); }
    }
  }

  // ----- Past the limit -----

  /** The image whose second EBR is at LBA `m`, with its logical 2^32 - 1 further on; the container and
      the logical of the head are both at 1. */
  function SplitImage(m: U64, ss: U64): Image
    requires 2 <= m <= U32_MAX + 1
  {
    Image((offset, _) => Data(PointingSector(if offset == ss then 0 else U32_MAX, m - 1)), 1, ss)
  }

  lemma SplitNodes(m: U64, ss: U64)
    requires 2 <= m <= U32_MAX + 1 && 0 < ss && m * ss <= U64_MAX
    ensures var img := SplitImage(m, ss);
      && img.NodeAt(1) == Link(PointingSector(0, m - 1)) && img.Successor(1) == Some(m)
      && img.NodeAt(m) == Link(PointingSector(U32_MAX, m - 1)) && img.Successor(m) == Some(m)
  {
    hide NextRelative, PointingSector;
    MulMonotone(2, m, ss);
  }

  /** Its chain: the head, and a second EBR that points to itself. */
  lemma SplitChain(m: U64, ss: U64) returns (r: Result<EbrChain, WalkError>, p: seq<U64>)
    requires 2 <= m <= U32_MAX + 1 && 0 < ss && m * ss <= U64_MAX
    ensures SplitImage(m, ss).Describes(r, p) && r.Ok?
    ensures LogicalExtents(r.value.entries) == [Extent(1, 1), Extent(m + U32_MAX, m + U32_MAX)]
  {
    hide Image.NodeAt, Image.Successor, NextRelative, PointingSector;
    var img := SplitImage(m, ss);
    SplitNodes(m, ss);
    p := [1, m];
    var entries := [img.EntryOf(1), img.EntryOf(m)];
    r := Ok(EbrChain(entries, true, false));
    assert img.Describes(r, p);
    assert LogicalExtents(entries)[0] == Extent(1, 1);
  }

  function At(start: U32): PartitionEntry { PartitionEntry(0, Chs(0, 0, 0), 5, Chs(0, 0, 0), start, 1) }

  /** Two neighbouring extents that a run can give: one sector at 1 and one at `far`. */
  ghost predicate Apart(far: nat, ss: U64) {
    2 < far <= U64_MAX && RunExtents([Extent(1, 1), Extent(far, far)], ss)
  }

  lemma SplitApart(m: U64, ss: U64)
    requires 2 <= m <= U32_MAX + 1 && 0 < ss && m * ss <= U64_MAX
    ensures Apart(m + U32_MAX, ss)
  {
    hide Image.Describes, Prepared;
    var far := m + U32_MAX;
    var r, p := SplitChain(m, ss);
    var ts := [At(1)];
    var tes := TableExtents(ts);
    assert tes == [Extent(1, 1)] && tes[0].start == 1;
    assert tes + LogicalExtents(r.value.entries) == [Extent(1, 1), Extent(1, 1), Extent(far, far)];
    PreparedSplit(far);
    assert Gives(SplitImage(m, ss), r, p, ts, [Extent(1, 1), Extent(far, far)]);
  }

  /** With nothing readable the table alone gives its two partitions. */
  lemma TableApart(ss: U64)
    ensures Apart(U32_MAX - 1, ss)
  {
    hide Prepared;
    var img := Image((_, _) => Short, 1, ss);
    var r: Result<EbrChain, WalkError> := Ok(EbrChain([], false, false));
    assert img.Describes(r, []);
    var far := U32_MAX - 1;
    var ts := [At(1), At(far)];
    var tes := TableExtents(ts);
    assert tes == [Extent(1, 1), Extent(far, far)] && tes[0].start == 1;
    assert tes + LogicalExtents([]) == tes;
    PreparedSplit(far);
    assert Gives(img, r, [], ts, tes);
  }

  /** Above the limit some image gives a gap whose bytes exceed 64 bits: with the second EBR as far out as
      the sector size allows, and from 2^33 on with two table entries. */
  lemma LargeSectorsOverflow(ss: U64)
    requires HALF < ss
    ensures exists es :: RunExtents(es, ss) && !SweepFits(es, 1, 0, Scale(ss))
    ensures !NoSweepOverflows(ss)
  {
    hide RunExtents, SweepFits;
    if ss <= U32_MAX {
      MulBound(ss, U32_MAX + 1, U32_MAX, U32_MAX + 1);
      SplitApart(U32_MAX + 1, ss);
      MulMonotone(HALF + 1, ss, 2 * U32_MAX - 1);
      ApartOverflows(2 * U32_MAX + 1, ss);
    } else if ss < 4 * HALF {
      MulBound(HALF, ss, HALF, 4 * HALF - 1);
      SplitApart(HALF, ss);
      MulMonotone(U32_MAX + 1, ss, HALF + U32_MAX - 2);
      ApartOverflows(HALF + U32_MAX, ss);
    } else {
      TableApart(ss);
      MulMonotone(4 * HALF, ss, U32_MAX - 3);
      ApartOverflows(U32_MAX - 1, ss);
    }
  }

  lemma PreparedSplit(far: U64)
    requires far > 1
    ensures Prepared([Extent(1, 1), Extent(1, 1), Extent(far, far)]) == [Extent(1, 1), Extent(far, far)]
    ensures Prepared([Extent(1, 1), Extent(far, far)]) == [Extent(1, 1), Extent(far, far)]
  {
    var a, b, key := Extent(1, 1), Extent(far, far), ExtentKey();
    assert [a, a, b][1..] == [a, b] && [a, b][1..] == [b] && [b][1..] == [];
    assert SortByKey([b], key) == [b] && SortByKey([a, b], key) == [a, b] && SortByKey([a, a, b], key) == [a, a, b];
    assert Dedup([a, b]) == [a, b];
  }

  lemma ApartOverflows(far: U64, ss: U64)
    requires Apart(far, ss) && (far - 2) * ss > U64_MAX
    ensures var es := [Extent(1, 1), Extent(far, far)]; RunExtents(es, ss) && !SweepFits(es, 1, 0, Scale(ss))
    ensures !NoSweepOverflows(ss)
  {
    hide RunExtents;
    var es, size := [Extent(1, 1), Extent(far, far)], Scale(ss);
    assert es[1..] == [Extent(far, far)];
    var g := GapOf(2, far - 1, size, Between);
    assert Sweep(es, 1, 1, 0, size) == Sweep(es[1..], 2, 1, 0, size);
    assert Sweep(es[1..], 2, 1, 0, size)[0] == g;
    assert g.byteSize == (far - 2) * ss;
    assert (0 + 1) * ss <= U64_MAX;
  }
}
