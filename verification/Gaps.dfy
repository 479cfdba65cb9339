/** forensic/src/gap.rs: the cursor sweep that lists unpartitioned space. */
module Gaps {
  import opened Machine
  import opened Sorting

  /** An inclusive LBA range; a zero-count entry gives `end == start - 1`, or (0, 0) at start 0. */
  datatype Extent = Extent(start: U64, end: U64) {
    predicate Formed() { start <= end + 1 }
    predicate NonEmpty() { start <= end }
    predicate Holds(x: int) { start <= x <= end }
  }

  datatype GapKind = PrePartition | Between | PostPartition

  datatype Gap = Gap(lbaStart: nat, lbaEnd: nat, byteSize: nat, kind: GapKind) {
    predicate Holds(x: int) { lbaStart <= x <= lbaEnd }
  }

  function ExtentKey(): Extent -> int { (e: Extent) => e.start }

  predicate AllFormed(es: seq<Extent>) { forall i :: 0 <= i < |es| ==> es[i].Formed() }

  predicate Covered(es: seq<Extent>, x: int) { exists i :: 0 <= i < |es| && es[i].Holds(x) }

  predicate InGap(gs: seq<Gap>, x: int) { exists i :: 0 <= i < |gs| && gs[i].Holds(x) }

  /** Some extent starts above `x`. */
  predicate StartsAbove(es: seq<Extent>, x: int) { exists i :: 0 <= i < |es| && es[i].start > x }

  /** Sectors to bytes. */
  function Scale(ss: nat): nat -> nat {
    (n: nat) => assert n * ss >= 0; n * ss
  }

  function GapOf(lbaStart: nat, lbaEnd: nat, size: nat -> nat, kind: GapKind): Gap
    requires lbaStart <= lbaEnd
  {
    Gap(lbaStart, lbaEnd, size(lbaEnd - lbaStart + 1), kind)
  }

  /** The sweep from `cursor` on; `size` turns sectors into bytes. */
  function Sweep(es: seq<Extent>, cursor: nat, first: nat, last: nat, size: nat -> nat): seq<Gap> {
    if es == [] then
      if cursor <= last then [GapOf(cursor, last, size, PostPartition)] else []
    else
      var e := es[0];
      var gap := if e.start > cursor
        then [GapOf(cursor, e.start - 1, size, if cursor == first then PrePartition else Between)]
        else [];
      gap + Sweep(es[1..], if e.end >= cursor then e.end + 1 else cursor, first, last, size)
  }

  /** One step of the sweep. */
  lemma SweepStep(es: seq<Extent>, cursor: nat, first: nat, last: nat, size: nat -> nat)
    ensures es == [] ==>
      Sweep(es, cursor, first, last, size) == if cursor <= last then [GapOf(cursor, last, size, PostPartition)] else []
    ensures es != [] ==>
      var e := es[0];
      var tail := Sweep(es[1..], if e.end >= cursor then e.end + 1 else cursor, first, last, size);
      Sweep(es, cursor, first, last, size) ==
        if e.start > cursor
        then [GapOf(cursor, e.start - 1, size, if cursor == first then PrePartition else Between)] + tail
        else tail
  {
  }

  /** No plain 64-bit operation of the sweep overflows: not the cursor, nor a gap's sectors or bytes. */
  predicate SweepFits(es: seq<Extent>, first: nat, last: nat, size: nat -> nat) {
    && (forall i :: 0 <= i <= |es| ==> CursorAfter(es, i, first) <= U64_MAX)
    && (forall g :: g in Sweep(es, first, first, last, size) ==>
          g.lbaEnd - g.lbaStart + 1 <= U64_MAX && g.byteSize <= U64_MAX)
  }

  /** `compute_gaps`. The `U64` locals make the verifier check each plain operation for overflow. */
  method ComputeGaps(extents: seq<Extent>, firstUsable: U64, diskLastLba: U64, sectorSize: U64)
    returns (gaps: seq<Gap>)
    requires SweepFits(extents, firstUsable, diskLastLba, Scale(sectorSize))
    ensures gaps == Sweep(extents, firstUsable, firstUsable, diskLastLba, Scale(sectorSize))
  {
    hide Sweep;
    gaps := [];
    var cursor: U64 := firstUsable;
    ghost var size := Scale(sectorSize);
    for i := 0 to |extents|
      invariant cursor == CursorAfter(extents, i, firstUsable)
      invariant gaps == Found(extents, i, firstUsable, size)
    {
      var Extent(start, end) := extents[i];
      SweepIsFound(extents, i + 1, firstUsable, diskLastLba, size);
      assert CursorAfter(extents, i + 1, firstUsable) <= U64_MAX;
      if start > cursor {
        var kind := if cursor == firstUsable then PrePartition else Between;
        FoundIsSwept(extents, firstUsable, diskLastLba, size, gaps, GapOf(cursor, start - 1, size, kind),
                     Sweep(extents[i + 1..], CursorAfter(extents, i + 1, firstUsable), firstUsable, diskLastLba, size));
        var gap := MeasureGap(cursor, start - 1, sectorSize, kind);
        gaps := gaps + [gap];
      }
      if end >= cursor {
        cursor := end + 1;
      }
    }
    SweepIsFound(extents, |extents|, firstUsable, diskLastLba, size);
    SweepEnds(extents, cursor, firstUsable, diskLastLba, size);
    if cursor <= diskLastLba {
      FoundIsSwept(extents, firstUsable, diskLastLba, size, gaps, GapOf(cursor, diskLastLba, size, PostPartition), []);
      var gap := MeasureGap(cursor, diskLastLba, sectorSize, PostPartition);
      gaps := gaps + [gap];
    }
  }

  /** The gap that comes after those found is one of the sweep, so it fits. */
  lemma FoundIsSwept(es: seq<Extent>, first: nat, last: nat, size: nat -> nat, found: seq<Gap>, g: Gap, rest: seq<Gap>)
    requires SweepFits(es, first, last, size) && Sweep(es, first, first, last, size) == found + [g] + rest
    ensures g.lbaEnd - g.lbaStart + 1 <= U64_MAX && g.byteSize <= U64_MAX
  {
    hide Sweep;
    assert (found + [g] + rest)[|found|] == g;
    assert g in Sweep(es, first, first, last, size);
  }

  /** A sufficient condition on the extents alone: no gap is longer than `span` sectors, which fit. */
  lemma {:induction false} SpanSuffices(es: seq<Extent>, first: nat, last: nat, ss: nat, span: nat)
    requires SortedBy(es, ExtentKey()) && AllFormed(es)
    requires first <= U64_MAX && span <= U64_MAX && span * ss <= U64_MAX && last + 1 - first <= span
    requires forall i :: 0 <= i < |es| ==> es[i].end < U64_MAX && es[i].start - first <= span
    ensures SweepFits(es, first, last, Scale(ss))
  {
    var gs := Sweep(es, first, first, last, Scale(ss));
    forall i | 0 <= i <= |es| ensures CursorAfter(es, i, first) <= U64_MAX { CursorFits(es, i, first); }
    SweepInOrder(es, first, first, last, Scale(ss));
    forall g | g in gs ensures g.lbaEnd - g.lbaStart + 1 <= U64_MAX && g.byteSize <= U64_MAX {
      var k :| 0 <= k < |gs| && gs[k] == g;
      SweepKinds(es, first, first, last, Scale(ss), k);
      assert g.lbaEnd - g.lbaStart + 1 <= span;
      SizeFits(g.lbaEnd - g.lbaStart + 1, span, ss);
    }
  }

  lemma {:induction false} CursorFits(es: seq<Extent>, n: nat, first: nat)
    requires n <= |es| && first <= U64_MAX && forall i :: 0 <= i < |es| ==> es[i].end < U64_MAX
    ensures CursorAfter(es, n, first) <= U64_MAX
  {
    if n > 0 { CursorFits(es, n - 1, first); }
  }

  /** Cursor and gaps after the first `n` extents. */
  function CursorAfter(es: seq<Extent>, n: nat, first: nat): nat
    requires n <= |es|
  {
    if n == 0 then first
    else
      var c := CursorAfter(es, n - 1, first);
      if es[n - 1].end >= c then es[n - 1].end + 1 else c
  }

  function Found(es: seq<Extent>, n: nat, first: nat, size: nat -> nat): seq<Gap>
    requires n <= |es|
  {
    if n == 0 then []
    else
      var c, e := CursorAfter(es, n - 1, first), es[n - 1];
      if e.start > c
      then Found(es, n - 1, first, size) + [GapOf(c, e.start - 1, size, if c == first then PrePartition else Between)]
      else Found(es, n - 1, first, size)
  }

  /** Going forward, gaps found and gaps to come always make the same list. */
  lemma {:induction false} SweepIsFound(es: seq<Extent>, n: nat, first: nat, last: nat, size: nat -> nat)
    requires n <= |es|
    ensures Sweep(es, first, first, last, size)
         == Found(es, n, first, size) + Sweep(es[n..], CursorAfter(es, n, first), first, last, size)
  {
    hide Sweep;
    if n == 0 {
      assert es[0..] == es;
    } else {
      SweepIsFound(es, n - 1, first, last, size);
      SweepAdvance(Sweep(es, first, first, last, size), Found(es, n - 1, first, size), Found(es, n, first, size),
                   es, n - 1, CursorAfter(es, n - 1, first), first, last, size);
    }
  }

  /** A gap with its byte size in plain 64-bit arithmetic. */
  method MeasureGap(lbaStart: U64, lbaEnd: U64, sectorSize: U64, kind: GapKind) returns (gap: Gap)
    requires lbaStart <= lbaEnd && lbaEnd - lbaStart + 1 <= U64_MAX
    requires GapOf(lbaStart, lbaEnd, Scale(sectorSize), kind).byteSize <= U64_MAX
    ensures gap == GapOf(lbaStart, lbaEnd, Scale(sectorSize), kind)
  {
    var sectors: U64 := lbaEnd - lbaStart + 1;
    assert sectors * sectorSize == Scale(sectorSize)(sectors);
    var byteSize: U64 := sectors * sectorSize;
    gap := Gap(lbaStart, lbaEnd, byteSize, kind);
  }

  /** One turn of the loop moves at most one gap from the sweep of the rest to those found. */
  lemma SweepAdvance(whole: seq<Gap>, f: seq<Gap>, f': seq<Gap>, es: seq<Extent>, i: nat, c: nat,
                     first: nat, last: nat, size: nat -> nat)
    requires i < |es| && whole == f + Sweep(es[i..], c, first, last, size)
    requires f' == if es[i].start > c
                   then f + [GapOf(c, es[i].start - 1, size, if c == first then PrePartition else Between)] else f
    ensures whole == f' + Sweep(es[i + 1..], if es[i].end >= c then es[i].end + 1 else c, first, last, size)
  {
    assert es[i..][0] == es[i] && es[i..][1..] == es[i + 1..];
  }

  /** After the last extent at most the trailing gap is left. */
  lemma SweepEnds(es: seq<Extent>, cursor: nat, first: nat, last: nat, size: nat -> nat)
    ensures Sweep(es[|es|..], cursor, first, last, size)
         == if cursor <= last then [GapOf(cursor, last, size, PostPartition)] else []
  {
    assert es[|es|..] == [];
  }

  lemma SizeFits(n: int, m: int, ss: nat)
    requires 0 <= n <= m && m * ss <= U64_MAX
    ensures 0 <= n * ss <= U64_MAX
  {
    MulMonotone(n, m, ss);
  }

  // ----- The gaps are the exact complement of the extents -----

  lemma CoveredCons(es: seq<Extent>, x: int)
    requires es != []
    ensures Covered(es, x) <==> es[0].Holds(x) || Covered(es[1..], x)
    ensures StartsAbove(es, x) <==> es[0].start > x || StartsAbove(es[1..], x)
  {
    if Covered(es[1..], x) {
      var i :| 0 <= i < |es| - 1 && es[1..][i].Holds(x);
      assert es[i + 1].Holds(x);
    }
    if Covered(es, x) && !es[0].Holds(x) {
      var i :| 0 <= i < |es| && es[i].Holds(x);
      assert es[1..][i - 1].Holds(x);
    }
    if StartsAbove(es[1..], x) {
      var i :| 0 <= i < |es| - 1 && es[1..][i].start > x;
      assert es[i + 1].start > x;
    }
    if StartsAbove(es, x) && !(es[0].start > x) {
      var i :| 0 <= i < |es| && es[i].start > x;
      assert es[1..][i - 1].start > x;
    }
  }

  lemma InGapConcat(a: seq<Gap>, b: seq<Gap>, x: int)
    ensures InGap(a + b, x) <==> InGap(a, x) || InGap(b, x)
  {
    if InGap(a, x) {
      var i :| 0 <= i < |a| && a[i].Holds(x);
      assert (a + b)[i].Holds(x);
    }
    if InGap(b, x) {
      var i :| 0 <= i < |b| && b[i].Holds(x);
      assert (a + b)[|a| + i].Holds(x);
    }
    if InGap(a + b, x) {
      var i :| 0 <= i < |a + b| && (a + b)[i].Holds(x);
      assert if i < |a| then a[i].Holds(x) else b[i - |a|].Holds(x);
    }
  }

  /** An LBA lies in a gap iff it is at or past the cursor, no extent covers it, and it is on the
      disk or some extent starts above it. */
  lemma {:induction false} SweepExact(es: seq<Extent>, cursor: nat, first: nat, last: nat, size: nat -> nat, x: int)
    requires SortedBy(es, ExtentKey()) && AllFormed(es)
    ensures InGap(Sweep(es, cursor, first, last, size), x) <==>
            x >= cursor && !Covered(es, x) && (x <= last || StartsAbove(es, x))
    decreases |es|
  {
    var gs := Sweep(es, cursor, first, last, size);
    if es == [] {
      if cursor <= last { assert gs[0].Holds(x) <==> cursor <= x <= last; }
    } else {
      var e, c := es[0], if es[0].end >= cursor then es[0].end + 1 else cursor;
      var tail := Sweep(es[1..], c, first, last, size);
      SweepExact(es[1..], c, first, last, size, x);
      CoveredCons(es, x);
      InGapConcat(gs[..|gs| - |tail|], tail, x);
      assert gs == gs[..|gs| - |tail|] + tail;
      if e.start > cursor {
        assert gs[..1][0].Holds(x) <==> cursor <= x < e.start;
        assert x < e.start ==> !Covered(es[1..], x);
      }
    }
  }

  /** Gaps are non-empty, in increasing order, apart, and sized by their sectors. */
  predicate InOrder(gs: seq<Gap>) {
    && (forall i :: 0 <= i < |gs| ==> gs[i].lbaStart <= gs[i].lbaEnd)
    && (forall i, j :: 0 <= i < j < |gs| ==> gs[i].lbaEnd < gs[j].lbaStart)
  }

  predicate InOrderFrom(gs: seq<Gap>, cursor: nat, size: nat -> nat) {
    && InOrder(gs)
    && forall i :: 0 <= i < |gs| ==>
         gs[i].lbaStart >= cursor && gs[i].byteSize == size(gs[i].lbaEnd - gs[i].lbaStart + 1)
  }

  lemma InOrderCons(g: Gap, tail: seq<Gap>, c: nat, size: nat -> nat)
    requires g.lbaStart <= g.lbaEnd < c && g.byteSize == size(g.lbaEnd - g.lbaStart + 1) && InOrderFrom(tail, c, size)
    ensures InOrderFrom([g] + tail, g.lbaStart, size)
  {
  }

  lemma {:induction false} SweepInOrder(es: seq<Extent>, cursor: nat, first: nat, last: nat, size: nat -> nat)
    requires SortedBy(es, ExtentKey()) && AllFormed(es)
    ensures InOrderFrom(Sweep(es, cursor, first, last, size), cursor, size)
    decreases |es|
  {
    hide Sweep;
    SweepStep(es, cursor, first, last, size);
    if es != [] {
      var c := if es[0].end >= cursor then es[0].end + 1 else cursor;
      var tail := Sweep(es[1..], c, first, last, size);
      SweepInOrder(es[1..], c, first, last, size);
      if es[0].start > cursor {
        InOrderCons(Sweep(es, cursor, first, last, size)[0], tail, c, size);
      }
    }
  }

  /** Between two gaps lies an extent, so for non-empty extents the gaps are maximal free runs. */
  predicate Separated(gs: seq<Gap>) {
    && InOrder(gs)
    && forall i, j :: 0 <= i < j < |gs| ==> gs[i].lbaEnd + 1 < gs[j].lbaStart
  }

  /** The kind is decided by position: trailing iff nothing starts above, else leading iff it starts
      at the first usable LBA; and a gap that is not trailing ends where an extent starts. */
  lemma {:induction false} SweepKinds(es: seq<Extent>, cursor: nat, first: nat, last: nat, size: nat -> nat, i: nat)
    requires SortedBy(es, ExtentKey()) && AllFormed(es) && i < |Sweep(es, cursor, first, last, size)|
    ensures KindRight(Sweep(es, cursor, first, last, size), i, es, first, last)
    decreases |es|
  {
    hide Sweep;
    SweepStep(es, cursor, first, last, size);
    if es != [] {
      var e, c := es[0], if es[0].end >= cursor then es[0].end + 1 else cursor;
      var gs, tail := Sweep(es, cursor, first, last, size), Sweep(es[1..], c, first, last, size);
      var g := gs[i];
      CoveredCons(es, g.lbaEnd);
      SweepInOrder(es, cursor, first, last, size);
      if e.start > cursor && i == 0 {
        assert es[0].start == g.lbaEnd + 1;
      } else {
        var i' := if e.start > cursor then i - 1 else i;
        assert tail[i'] == g && |tail| - i' == |gs| - i;
        assert e.start <= c <= g.lbaStart by { SweepInOrder(es[1..], c, first, last, size); }
        SweepKinds(es[1..], c, first, last, size, i');
        KindCons(gs, i, tail, i', es, first, last);
      }
    }
  }

  /** An extent below a gap does not change its kind. */
  lemma KindCons(gs: seq<Gap>, i: nat, tail: seq<Gap>, i': nat, es: seq<Extent>, first: nat, last: nat)
    requires i < |gs| && i' < |tail| && gs[i] == tail[i'] && |tail| - i' == |gs| - i
    requires es != [] && es[0].start <= gs[i].lbaStart <= gs[i].lbaEnd && KindRight(tail, i', es[1..], first, last)
    ensures KindRight(gs, i, es, first, last)
  {
    var g := gs[i];
    CoveredCons(es, g.lbaEnd);
    if g.kind != PostPartition {
      var k :| 0 <= k < |es[1..]| && es[1..][k].start == g.lbaEnd + 1;
      assert es[k + 1].start == g.lbaEnd + 1;
    }
  }

  /** Every LBA is in a gap iff it is free, from `first` up to the disk end or the highest start. */
  ghost predicate ListsFree(gs: seq<Gap>, es: seq<Extent>, first: nat, last: nat) {
    forall x :: InGap(gs, x) <==> x >= first && !Covered(es, x) && (x <= last || StartsAbove(es, x))
  }

  /** The kind of a gap by its position among the extents. */
  predicate KindRight(gs: seq<Gap>, i: nat, es: seq<Extent>, first: nat, last: nat)
    requires i < |gs|
  {
    var g := gs[i];
    && (g.kind == PostPartition <==> !StartsAbove(es, g.lbaEnd))
    && (g.kind == PostPartition ==> g.lbaEnd == last && i == |gs| - 1)
    && (g.kind == PrePartition <==> g.kind != PostPartition && g.lbaStart == first)
    && (g.kind != PostPartition ==> exists k :: 0 <= k < |es| && es[k].start == g.lbaEnd + 1)
  }

  predicate StartsGap(gs: seq<Gap>, x: int) { exists i :: 0 <= i < |gs| && gs[i].lbaStart == x }

  predicate StartsExtent(es: seq<Extent>, x: int) { exists i :: 0 <= i < |es| && es[i].start == x }

  /** A new gap starts at a free LBA iff it is the first usable one, follows a covered one, or an
      (empty) extent starts there. */
  predicate StartsRight(gs: seq<Gap>, es: seq<Extent>, first: nat, x: int) {
    InGap(gs, x) ==> (StartsGap(gs, x) <==> x == first || Covered(es, x - 1) || StartsExtent(es, x))
  }

  lemma StartsExtentCons(es: seq<Extent>, x: int)
    requires es != []
    ensures StartsExtent(es, x) <==> es[0].start == x || StartsExtent(es[1..], x)
  {
    if StartsExtent(es[1..], x) {
      var i :| 0 <= i < |es| - 1 && es[1..][i].start == x;
      assert es[i + 1].start == x;
    }
    if StartsExtent(es, x) && es[0].start != x {
      var i :| 0 <= i < |es| && es[i].start == x;
      assert es[1..][i - 1].start == x;
    }
  }

  lemma StartsGapCons(g: Gap, gs: seq<Gap>, x: int)
    ensures StartsGap([g] + gs, x) <==> g.lbaStart == x || StartsGap(gs, x)
  {
    var all := [g] + gs;
    if StartsGap(gs, x) {
      var i :| 0 <= i < |gs| && gs[i].lbaStart == x;
      assert all[i + 1].lbaStart == x;
    }
    if g.lbaStart == x { assert all[0].lbaStart == x; }
  }

  lemma {:induction false} SweepStarts(es: seq<Extent>, cursor: nat, first: nat, last: nat, size: nat -> nat, x: int)
    requires SortedBy(es, ExtentKey()) && AllFormed(es)
    ensures StartsRight(Sweep(es, cursor, first, last, size), es, cursor, x)
    decreases |es|
  {
    var gs := Sweep(es, cursor, first, last, size);
    if es == [] {
      if cursor <= last { assert gs[0].lbaStart == cursor; }
    } else {
      var e, c := es[0], if es[0].end >= cursor then es[0].end + 1 else cursor;
      var tail := Sweep(es[1..], c, first, last, size);
      SweepStarts(es[1..], c, first, last, size, x);
      SweepExact(es[1..], c, first, last, size, x);
      SweepExact(es, cursor, first, last, size, x);
      if InGap(gs, x) {
        if e.start > cursor {
          SweepInOrder(es[1..], c, first, last, size);
          StartsInFirst(gs[0], tail, es, cursor, c, x);
        } else {
          assert gs == tail;
          StartsInRest(tail, es, cursor, c, x);
        }
      }
    }
  }

  /** The step for an extent that leaves no gap before it. */
  lemma StartsInRest(gs: seq<Gap>, es: seq<Extent>, cursor: nat, c: nat, x: int)
    requires es != [] && es[0].Formed() && es[0].start <= cursor && !Covered(es, x) && x >= c
    requires c == if es[0].end >= cursor then es[0].end + 1 else cursor
    requires StartsRight(gs, es[1..], c, x)
    ensures StartsRight(gs, es, cursor, x)
  {
    CoveredCons(es, x - 1);
    CoveredCons(es, x);
    StartsExtentCons(es, x);
  }

  /** The step for an extent that leaves a gap before it. */
  lemma StartsInFirst(g: Gap, tail: seq<Gap>, es: seq<Extent>, cursor: nat, c: nat, x: int)
    requires es != [] && SortedBy(es, ExtentKey()) && AllFormed(es) && cursor < es[0].start && c == es[0].end + 1
    requires g.lbaStart == cursor && g.lbaEnd == es[0].start - 1 && !Covered(es, x)
    requires InGap(tail, x) ==> x >= c
    requires StartsRight(tail, es[1..], c, x)
    requires forall i :: 0 <= i < |tail| ==> tail[i].lbaStart >= c
    ensures StartsRight([g] + tail, es, cursor, x)
  {
    StartsGapCons(g, tail, x);
    InGapConcat([g], tail, x);
    CoveredCons(es, x - 1);
    CoveredCons(es, x);
    StartsExtentCons(es, x);
    assert InGap([g], x) <==> [g][0].Holds(x);
    if g.Holds(x) {
      assert !Covered(es, x - 1) && !StartsExtent(es, x) by {
        forall i | 0 <= i < |es| ensures es[i].start > x {
          assert i > 0 ==> ExtentKey()(es[0]) <= ExtentKey()(es[i]);
        }
      }
    }
  }

  /** All that sorted, formed extents make of a gap list. It leaves one list. */
  ghost predicate IsGapList(gs: seq<Gap>, es: seq<Extent>, first: nat, last: nat, size: nat -> nat) {
    && InOrder(gs) && ListsFree(gs, es, first, last) && (forall x :: StartsRight(gs, es, first, x))
    && (forall i :: 0 <= i < |gs| ==> gs[i].byteSize == size(gs[i].lbaEnd - gs[i].lbaStart + 1))
    && (forall i :: 0 <= i < |gs| ==> KindRight(gs, i, es, first, last))
  }

  lemma SweepIsGapList(es: seq<Extent>, first: nat, last: nat, size: nat -> nat)
    requires SortedBy(es, ExtentKey()) && AllFormed(es)
    ensures IsGapList(Sweep(es, first, first, last, size), es, first, last, size)
  {
    var gs := Sweep(es, first, first, last, size);
    SweepInOrder(es, first, first, last, size);
    forall x ensures InGap(gs, x) <==> x >= first && !Covered(es, x) && (x <= last || StartsAbove(es, x)) {
      SweepExact(es, first, first, last, size, x);
    }
    forall x ensures StartsRight(gs, es, first, x) { SweepStarts(es, first, first, last, size, x); }
    forall i | 0 <= i < |gs| ensures KindRight(gs, i, es, first, last) {
      SweepKinds(es, first, first, last, size, i);
    }
  }

  /** LBA by LBA: a covered one is in no gap, a free one of the disk in exactly one. */
  lemma GapsAreComplement(gs: seq<Gap>, es: seq<Extent>, first: nat, last: nat, size: nat -> nat, x: int)
    requires IsGapList(gs, es, first, last, size) && first <= x <= last
    ensures Covered(es, x) ==> forall i :: 0 <= i < |gs| ==> !gs[i].Holds(x)
    ensures !Covered(es, x) ==>
              exists i :: 0 <= i < |gs| && gs[i].Holds(x) && forall j :: 0 <= j < |gs| && gs[j].Holds(x) ==> j == i
  {
    assert InGap(gs, x) <==> !Covered(es, x);
  }

  ghost predicate AllOnDisk(gs: seq<Gap>, last: nat) { forall i :: 0 <= i < |gs| ==> gs[i].lbaEnd <= last }

  /** Every gap stays on the disk exactly when no free LBA past its end lies below an extent. */
  lemma GapsStayOnDisk(gs: seq<Gap>, es: seq<Extent>, first: nat, last: nat, size: nat -> nat)
    requires IsGapList(gs, es, first, last, size)
    ensures AllOnDisk(gs, last) <==>
            forall x {:trigger Covered(es, x)} :: first <= x && last < x && StartsAbove(es, x) ==> Covered(es, x)
  {
    forall x | first <= x && last < x && StartsAbove(es, x) && !Covered(es, x)
      ensures !AllOnDisk(gs, last)
    {
      assert InGap(gs, x);
    }
    forall i | 0 <= i < |gs| && gs[i].lbaEnd > last
      ensures exists x :: first <= x && last < x && StartsAbove(es, x) && !Covered(es, x)
    {
      assert gs[i].Holds(gs[i].lbaEnd);
      assert InGap(gs, gs[i].lbaEnd);
      assert !Covered(es, gs[i].lbaEnd);
    }
  }

  // ----- Canonical form -----

  /** Non-empty extents that start on the disk. */
  predicate OnDisk(es: seq<Extent>, last: nat) {
    forall i :: 0 <= i < |es| ==> es[i].NonEmpty() && es[i].start <= last
  }

  /** Then gaps are apart, on the disk, and the bounds alone decide the kind. */
  lemma GapsSeparated(gs: seq<Gap>, es: seq<Extent>, first: nat, last: nat, size: nat -> nat)
    requires IsGapList(gs, es, first, last, size) && OnDisk(es, last)
    ensures Separated(gs)
    ensures forall i :: 0 <= i < |gs| ==>
              && first <= gs[i].lbaStart && gs[i].lbaEnd <= last
              && gs[i].kind == KindByBounds(gs[i].lbaStart, gs[i].lbaEnd, first, last)
  {
    forall i | 0 <= i < |gs|
      ensures first <= gs[i].lbaStart && gs[i].lbaEnd <= last
      ensures gs[i].kind == KindByBounds(gs[i].lbaStart, gs[i].lbaEnd, first, last)
      ensures forall j :: i < j < |gs| ==> gs[i].lbaEnd + 1 < gs[j].lbaStart
    {
      assert KindRight(gs, i, es, first, last);
      assert gs[i].Holds(gs[i].lbaStart) && InGap(gs, gs[i].lbaStart);
      if gs[i].kind != PostPartition {
        var k :| 0 <= k < |es| && es[k].start == gs[i].lbaEnd + 1;
        assert es[k].Holds(es[k].start) && Covered(es, es[k].start);
        forall j | i < j < |gs| ensures gs[i].lbaEnd + 1 < gs[j].lbaStart {
          assert !gs[j].Holds(es[k].start);
        }
      }
    }
  }

  function KindByBounds(lbaStart: nat, lbaEnd: nat, first: nat, last: nat): GapKind {
    if lbaEnd == last then PostPartition else if lbaStart == first then PrePartition else Between
  }

  /** Maximal runs start exactly where the one before is not in a gap. */
  lemma SeparatedStarts(gs: seq<Gap>, x: int)
    requires Separated(gs)
    ensures StartsGap(gs, x) <==> InGap(gs, x) && !InGap(gs, x - 1)
  {
    if StartsGap(gs, x) {
      var i :| 0 <= i < |gs| && gs[i].lbaStart == x;
      assert gs[i].Holds(x);
      forall j | 0 <= j < |gs| ensures !gs[j].Holds(x - 1) { assert j < i || j == i || i < j; }
    }
    if InGap(gs, x) && !InGap(gs, x - 1) {
      var i :| 0 <= i < |gs| && gs[i].Holds(x);
      assert !gs[i].Holds(x - 1);
    }
  }

  lemma FirstBounds(a: seq<Gap>, b: seq<Gap>)
    requires InOrder(a) && InOrder(b) && a != [] && b != []
    requires forall x :: InGap(a, x) ==> InGap(b, x)
    requires forall x :: StartsGap(b, x) ==> StartsGap(a, x)
    ensures b[0].lbaStart <= a[0].lbaStart
    ensures b[0].lbaStart == a[0].lbaStart ==> a[0].lbaEnd <= b[0].lbaEnd
  {
    assert a[0].Holds(a[0].lbaStart);
    assert InGap(a, a[0].lbaStart);
    var x := b[0].lbaEnd + 1;
    if b[0].lbaStart == a[0].lbaStart && b[0].lbaEnd < a[0].lbaEnd {
      assert a[0].Holds(x);
      assert InGap(a, x);
      var j :| 0 <= j < |b| && b[j].Holds(x);
      assert j > 0 && b[j].lbaStart == x;
      assert StartsGap(b, x);
    }
  }

  lemma StartsGapTail(a: seq<Gap>, x: int)
    requires InOrder(a) && a != []
    ensures StartsGap(a[1..], x) <==> StartsGap(a, x) && x > a[0].lbaStart
  {
    if StartsGap(a[1..], x) {
      var i :| 0 <= i < |a| - 1 && a[1..][i].lbaStart == x;
      assert a[i + 1].lbaStart == x;
    }
    if StartsGap(a, x) && x > a[0].lbaStart {
      var i :| 0 <= i < |a| && a[i].lbaStart == x;
      assert a[1..][i - 1].lbaStart == x;
    }
  }

  lemma InGapTail(a: seq<Gap>, x: int)
    requires InOrder(a) && a != []
    ensures InGap(a[1..], x) <==> InGap(a, x) && x > a[0].lbaEnd
  {
    if InGap(a[1..], x) {
      var i :| 0 <= i < |a| - 1 && a[1..][i].Holds(x);
      assert a[i + 1].Holds(x);
    }
    if InGap(a, x) && x > a[0].lbaEnd {
      var i :| 0 <= i < |a| && a[i].Holds(x);
      assert a[1..][i - 1].Holds(x);
    }
  }

  /** A set of LBAs cut at given starts has one list of intervals. */
  lemma {:induction false} IntervalsUnique(a: seq<Gap>, b: seq<Gap>)
    requires InOrder(a) && InOrder(b)
    requires forall x :: InGap(a, x) <==> InGap(b, x)
    requires forall x :: StartsGap(a, x) <==> StartsGap(b, x)
    ensures |a| == |b|
    ensures forall i :: 0 <= i < |a| ==> a[i].lbaStart == b[i].lbaStart && a[i].lbaEnd == b[i].lbaEnd
    decreases |a|
  {
    if a != [] { assert a[0].Holds(a[0].lbaStart); assert InGap(a, a[0].lbaStart); }
    if b != [] { assert b[0].Holds(b[0].lbaStart); assert InGap(b, b[0].lbaStart); }
    if a != [] && b != [] {
      FirstBounds(a, b);
      FirstBounds(b, a);
      forall x ensures InGap(a[1..], x) <==> InGap(b[1..], x) {
        InGapTail(a, x);
        InGapTail(b, x);
      }
      forall x ensures StartsGap(a[1..], x) <==> StartsGap(b[1..], x) {
        StartsGapTail(a, x);
        StartsGapTail(b, x);
      }
      IntervalsUnique(a[1..], b[1..]);
      forall i | 0 <= i < |a| ensures a[i].lbaStart == b[i].lbaStart && a[i].lbaEnd == b[i].lbaEnd {
        if i > 0 { assert a[i] == a[1..][i - 1] && b[i] == b[1..][i - 1]; }
      }
    }
  }

  /** Whatever the extents, empty ones included: the gaps, with kinds and sizes, are determined by which
      LBAs are covered, at which LBAs extents start, and so how far up the highest start is. */
  lemma GapListUnique(gs: seq<Gap>, gs': seq<Gap>, es: seq<Extent>, es': seq<Extent>,
                      first: nat, last: nat, size: nat -> nat)
    requires IsGapList(gs, es, first, last, size) && IsGapList(gs', es', first, last, size)
    requires forall x :: Covered(es, x) <==> Covered(es', x)
    requires forall x :: StartsExtent(es, x) <==> StartsExtent(es', x)
    ensures gs == gs'
  {
    hide KindRight, StartsRight;
    forall x ensures StartsAbove(es, x) <==> StartsAbove(es', x) { SameStartsAbove(es, es', x); }
    assert forall x :: InGap(gs, x) <==> InGap(gs', x);
    forall x ensures StartsGap(gs, x) <==> StartsGap(gs', x) { SameStarts(gs, gs', es, es', first, x); }
    IntervalsUnique(gs, gs');
    forall i | 0 <= i < |gs| ensures gs[i] == gs'[i] { SameKind(gs, gs', es, es', first, last, i); }
  }

  lemma SameStartsAbove(es: seq<Extent>, es': seq<Extent>, x: int)
    requires forall y :: StartsExtent(es, y) <==> StartsExtent(es', y)
    ensures StartsAbove(es, x) <==> StartsAbove(es', x)
  {
    if StartsAbove(es, x) {
      var i :| 0 <= i < |es| && es[i].start > x;
      assert StartsExtent(es, es[i].start) && StartsExtent(es', es[i].start);
    }
    if StartsAbove(es', x) {
      var i :| 0 <= i < |es'| && es'[i].start > x;
      assert StartsExtent(es', es'[i].start) && StartsExtent(es, es'[i].start);
    }
  }

  lemma SameStarts(gs: seq<Gap>, gs': seq<Gap>, es: seq<Extent>, es': seq<Extent>, first: nat, x: int)
    requires InOrder(gs) && InOrder(gs') && StartsRight(gs, es, first, x) && StartsRight(gs', es', first, x)
    requires InGap(gs, x) <==> InGap(gs', x)
    requires (Covered(es, x - 1) <==> Covered(es', x - 1)) && (StartsExtent(es, x) <==> StartsExtent(es', x))
    ensures StartsGap(gs, x) <==> StartsGap(gs', x)
  {
    StartIsIn(gs, x);
    StartIsIn(gs', x);
  }

  lemma StartIsIn(gs: seq<Gap>, x: int)
    requires InOrder(gs)
    ensures StartsGap(gs, x) ==> InGap(gs, x)
  {
    if StartsGap(gs, x) {
      var i :| 0 <= i < |gs| && gs[i].lbaStart == x;
      assert gs[i].Holds(x);
    }
  }

  lemma SameKind(gs: seq<Gap>, gs': seq<Gap>, es: seq<Extent>, es': seq<Extent>, first: nat, last: nat, i: nat)
    requires |gs| == |gs'| && i < |gs| && KindRight(gs, i, es, first, last) && KindRight(gs', i, es', first, last)
    requires gs[i].lbaStart == gs'[i].lbaStart && gs[i].lbaEnd == gs'[i].lbaEnd
    requires StartsAbove(es, gs[i].lbaEnd) <==> StartsAbove(es', gs[i].lbaEnd)
    ensures gs[i].kind == gs'[i].kind
  {
  }

  /** For non-empty extents that start on the disk they depend only on which of its LBAs are covered. */
  lemma GapListCanonical(gs: seq<Gap>, gs': seq<Gap>, es: seq<Extent>, es': seq<Extent>,
                         first: nat, last: nat, size: nat -> nat)
    requires IsGapList(gs, es, first, last, size) && IsGapList(gs', es', first, last, size)
    requires OnDisk(es, last) && OnDisk(es', last)
    requires forall x :: first <= x <= last ==> (Covered(es, x) <==> Covered(es', x))
    ensures gs == gs'
  {
    hide StartsRight, KindRight;
    GapsSeparated(gs, es, first, last, size);
    GapsSeparated(gs', es', first, last, size);
    assert forall x :: InGap(gs, x) <==> InGap(gs', x);
    forall x ensures StartsGap(gs, x) <==> StartsGap(gs', x) {
      SeparatedStarts(gs, x);
      SeparatedStarts(gs', x);
    }
    IntervalsUnique(gs, gs');
    assert gs == gs';
  }

  // ----- Conservation -----

  function Count(p: int -> bool, lo: int, hi: int): nat
    decreases hi - lo
  {
    if lo >= hi then 0 else (if p(hi - 1) then 1 else 0) + Count(p, lo, hi - 1)
  }

  function TotalSectors(gs: seq<Gap>): nat
    requires InOrder(gs)
  {
    if gs == [] then 0 else gs[0].lbaEnd - gs[0].lbaStart + 1 + TotalSectors(gs[1..])
  }

  lemma {:induction false} CountSplit(p: int -> bool, q: int -> bool, r: int -> bool, lo: int, hi: int)
    requires forall x :: lo <= x < hi ==> (p(x) <==> q(x) || r(x)) && !(q(x) && r(x))
    ensures Count(p, lo, hi) == Count(q, lo, hi) + Count(r, lo, hi)
    decreases hi - lo
  {
    if lo < hi { CountSplit(p, q, r, lo, hi - 1); }
  }

  lemma {:induction false} CountInterval(p: int -> bool, a: int, b: int, lo: int, hi: int)
    requires lo <= a <= b + 1 && forall x :: lo <= x < hi ==> (p(x) <==> a <= x <= b)
    ensures Count(p, lo, hi) == if hi <= a then 0 else if hi > b then b - a + 1 else hi - a
    decreases hi - lo
  {
    if lo < hi { CountInterval(p, a, b, lo, hi - 1); }
  }

  lemma {:induction false} CountGaps(gs: seq<Gap>, lo: int, hi: int)
    requires InOrder(gs) && forall i :: 0 <= i < |gs| ==> lo <= gs[i].lbaStart && gs[i].lbaEnd < hi
    ensures Count(x => InGap(gs, x), lo, hi) == TotalSectors(gs)
    decreases |gs|
  {
    if gs == [] {
      CountInterval(x => InGap(gs, x), lo, lo - 1, lo, hi);
    } else {
      var g := gs[0];
      CountGaps(gs[1..], lo, hi);
      CountInterval(x => g.Holds(x), g.lbaStart, g.lbaEnd, lo, hi);
      forall x ensures InGap(gs, x) <==> g.Holds(x) || InGap(gs[1..], x)
               ensures !(g.Holds(x) && InGap(gs[1..], x)) {
        assert gs == [g] + gs[1..];
        InGapConcat([g], gs[1..], x);
        assert InGap([g], x) <==> [g][0].Holds(x);
        InGapTail(gs, x);
      }
      CountSplit(x => InGap(gs, x), x => g.Holds(x), x => InGap(gs[1..], x), lo, hi);
    }
  }

  /** Gap sectors and covered sectors together are the whole range, when nothing starts past the
      LBA after the disk's last. */
  lemma SectorsConserved(gs: seq<Gap>, es: seq<Extent>, first: nat, last: nat, size: nat -> nat)
    requires IsGapList(gs, es, first, last, size) && first <= last + 1
    requires forall i :: 0 <= i < |es| ==> es[i].start <= last + 1
    ensures TotalSectors(gs) + Count(x => Covered(es, x), first, last + 1) == last + 1 - first
  {
    forall i | 0 <= i < |gs| ensures first <= gs[i].lbaStart && gs[i].lbaEnd <= last {
      assert gs[i].Holds(gs[i].lbaEnd) && InGap(gs, gs[i].lbaEnd);
      assert gs[i].Holds(gs[i].lbaStart) && InGap(gs, gs[i].lbaStart);
    }
    CountGaps(gs, first, last + 1);
    assert forall x :: first <= x <= last ==> (InGap(gs, x) <==> !Covered(es, x));
    CountSplit(x => true, x => InGap(gs, x), x => Covered(es, x), first, last + 1);
    CountInterval(x => true, first, last, first, last + 1);
  }

  /** `dedup` before the sweep never matters: a repeated extent finds the cursor already past it. */
  lemma {:induction false} DedupIsNoOp(es: seq<Extent>, cursor: nat, first: nat, last: nat, size: nat -> nat)
    requires AllFormed(es)
    ensures Sweep(Dedup(es), cursor, first, last, size) == Sweep(es, cursor, first, last, size)
    decreases |es|
  {
    if |es| >= 2 {
      if es[0] == es[1] {
        DedupIsNoOp(es[1..], cursor, first, last, size);
        SweepRepeat(es, cursor, first, last, size);
      } else {
        var c := if es[0].end >= cursor then es[0].end + 1 else cursor;
        DedupIsNoOp(es[1..], c, first, last, size);
        assert ([es[0]] + Dedup(es[1..]))[1..] == Dedup(es[1..]);
      }
    }
  }

  lemma SweepRepeat(es: seq<Extent>, cursor: nat, first: nat, last: nat, size: nat -> nat)
    requires |es| >= 2 && es[0] == es[1] && es[0].Formed()
    ensures Sweep(es, cursor, first, last, size) == Sweep(es[1..], cursor, first, last, size)
  {
    var e, c := es[0], if es[0].end >= cursor then es[0].end + 1 else cursor;
    var rest := es[1..];
    assert rest[0] == e && rest[1..] == es[2..];
    SweepPast(rest, c, first, last, size);
  }

  /** An extent the cursor has passed changes nothing. */
  lemma SweepPast(es: seq<Extent>, cursor: nat, first: nat, last: nat, size: nat -> nat)
    requires es != [] && es[0].end < cursor && es[0].start <= cursor
    ensures Sweep(es, cursor, first, last, size) == Sweep(es[1..], cursor, first, last, size)
  {
  }

  /** Without those conditions the code does otherwise: an extent past the disk makes a gap that
      runs off it, and a zero-count entry splits a gap in two. */
  lemma SweepEdges()
    ensures Sweep([Extent(100, 199)], 1, 1, 50, Scale(512)) == [Gap(1, 99, 99 * 512, PrePartition)]
    ensures Sweep([Extent(10, 9)], 1, 1, 19, Scale(512))
         == [Gap(1, 9, 9 * 512, PrePartition), Gap(10, 19, 10 * 512, PostPartition)]
         != Sweep([], 1, 1, 19, Scale(512))
  {
    var one := [Extent(100, 199)];
    assert one[1..] == [];
    var two := [Extent(10, 9)];
    assert two[1..] == [];
  }
}
