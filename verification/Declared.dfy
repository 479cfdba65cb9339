/** What a run says about the sectors its tables declare. A primary's reported end saturates in 32
    bits and a zero-count partition at LBA 0 is reported as (0, 0), so the reported ranges that the
    gaps and overlaps are made of are not always the declared ones. */
module Declared {
  import opened Machine
  import opened Lists
  import opened Partition
  import Mbr
  import opened Ebr
  import opened Gaps
  import opened Findings
  import opened Overlaps
  import opened Stages
  import opened Pipeline

  // ----- Declared sectors -----

  predicate EntryDeclares(e: PartitionEntry, x: int) {
    e.typeCode != 0 && e.lbaStart <= x < e.lbaStart + e.lbaCount
  }

  /** A slot that holds a partition declares sector `x`. */
  ghost predicate SlotDeclares(es: seq<PartitionEntry>, x: int) {
    exists i :: 0 <= i < |es| && EntryDeclares(es[i], x)
  }

  predicate LinkHolds(e: EbrEntry, x: int) {
    e.logicalLbaStart <= x < e.logicalLbaStart + e.logical.lbaCount
  }

  /** A link of the chain declares sector `x` for its logical. */
  ghost predicate LinkDeclares(es: seq<EbrEntry>, x: int) {
    exists k :: 0 <= k < |es| && LinkHolds(es[k], x)
  }

  ghost predicate TableDeclares(a: Analysis, x: int) {
    SlotDeclares(a.mbr.entries, x) || LinkDeclares(a.chain.entries, x)
  }

  predicate IsPrimary(a: Analysis, i: nat)
    requires i < |a.partitions|
  {
    a.partitions[i].index < 4
  }

  /** The count field behind partition `i` of a report: of its slot, or of its link. */
  function CountField(a: Analysis, i: nat): nat
    requires i < |a.partitions|
  {
    var index, k := a.partitions[i].index, i + |a.chain.entries| - |a.partitions|;
    if index < |a.mbr.entries| then a.mbr.entries[index].lbaCount
    else if k >= 0 then a.chain.entries[k].logical.lbaCount else 0
  }

  predicate Declares(a: Analysis, i: nat, x: int)
    requires i < |a.partitions|
  {
    a.partitions[i].lbaStart <= x < a.partitions[i].lbaStart + CountField(a, i)
  }

  /** The end a partition is reported with. */
  function ReportedEnd(primary: bool, start: nat, count: nat): nat {
    var sum := if primary && start + count > U32_MAX then U32_MAX else start + count;
    if sum == 0 then 0 else sum - 1
  }

  /** The partitions of a report and the fields they come from. */
  lemma PartitionFields(d: Disk, a: Analysis, i: nat)
    requires IsAnalysis(d, a) && i < |a.partitions|
    ensures |a.mbr.entries| == 4 && |a.chain.entries| <= |a.partitions|
    ensures var p, k := a.partitions[i], i + |a.chain.entries| - |a.partitions|;
      && p.lbaEnd == ReportedEnd(IsPrimary(a, i), p.lbaStart, CountField(a, i))
      && (IsPrimary(a, i) <==> k < 0)
      && (IsPrimary(a, i) ==>
            && p.lbaStart == a.mbr.entries[p.index].lbaStart && p.declaredType == a.mbr.entries[p.index].typeCode != 0)
      && (!IsPrimary(a, i) ==> p.lbaStart == a.chain.entries[k].logicalLbaStart)
  {
    hide IsAnalysis, IsChainOf, Partitions, PrimarySummaries, LogicalSummary, LogicalSummaries, DiskOptions.ByteOf;
    var es := a.mbr.entries;
    var prims := PrimarySummaries(d, es);
    var logicals := LogicalSummaries(d, a.chain.entries, |prims|);
    FourEntries(d, a);
    LogicalPartitions(d, es, a.chain);
    JoinedPartitions(d, es, a.chain);
    if i < |prims| {
      assert a.partitions[i] == prims[i] && prims[i] in prims;
      PrimaryIndex(d, es, prims[i]);
    } else {
      var k := i - |prims|;
      ChainIsSmall(d, es, a.chain);
      assert LinkSmall(a.chain.entries[k]);
      LogicalFields(d, a.chain.entries[k], EBR_INDEX_BASE + (|prims| + k));
    }
  }

  lemma JoinedPartitions(d: Disk, es: seq<PartitionEntry>, chain: EbrChain)
    ensures Partitions(d, es, chain) == PrimarySummaries(d, es) + LogicalSummaries(d, chain.entries, |PrimarySummaries(d, es)|)
  {
  }

  lemma LogicalFields(d: Disk, e: EbrEntry, index: nat)
    requires LinkSmall(e)
    ensures var p := LogicalSummary(d, e, index);
            p.index == index && p.lbaStart == e.logicalLbaStart && p.lbaEnd == ReportedEnd(false, p.lbaStart, e.logical.lbaCount)
  {
  }

  /** Every declaring slot and link has its partition, and the other way round. */
  lemma DeclaredByPartition(d: Disk, a: Analysis, x: int)
    requires IsAnalysis(d, a)
    ensures SlotDeclares(a.mbr.entries, x) <==> exists i :: 0 <= i < |a.partitions| && IsPrimary(a, i) && Declares(a, i, x)
    ensures LinkDeclares(a.chain.entries, x) <==> exists i :: 0 <= i < |a.partitions| && !IsPrimary(a, i) && Declares(a, i, x)
  {
    hide IsAnalysis, Declares, EntryDeclares, LinkHolds;
    var es, ps, links := a.mbr.entries, a.partitions, a.chain.entries;
    forall i | 0 <= i < |ps| && Declares(a, i, x)
      ensures if IsPrimary(a, i) then SlotDeclares(es, x) else LinkDeclares(links, x)
    {
      FieldsDeclare(d, a, i, x);
    }
    FourEntries(d, a);
    if SlotDeclares(es, x) {
      var s :| 0 <= s < |es| && EntryDeclares(es[s], x);
      SlotPlace(d, a, s, x);
    }
    if LinkDeclares(links, x) {
      var k :| 0 <= k < |links| && LinkHolds(links[k], x);
      LinkPlace(d, a, k, x);
    }
  }

  /** A partition declares what its slot or link does. */
  lemma FieldsDeclare(d: Disk, a: Analysis, i: nat, x: int)
    requires IsAnalysis(d, a) && i < |a.partitions|
    ensures IsPrimary(a, i) ==>
              a.partitions[i].index < |a.mbr.entries| && (Declares(a, i, x) <==> EntryDeclares(a.mbr.entries[a.partitions[i].index], x))
    ensures !IsPrimary(a, i) ==>
              var k := i + |a.chain.entries| - |a.partitions|;
              0 <= k < |a.chain.entries| && (Declares(a, i, x) <==> LinkHolds(a.chain.entries[k], x))
  {
    hide IsAnalysis;
    PartitionFields(d, a, i);
  }

  lemma SlotPlace(d: Disk, a: Analysis, s: nat, x: int)
    requires IsAnalysis(d, a) && s < |a.mbr.entries| && EntryDeclares(a.mbr.entries[s], x)
    ensures exists i :: 0 <= i < |a.partitions| && IsPrimary(a, i) && Declares(a, i, x)
  {
    hide IsAnalysis, Declares;
    FourEntries(d, a);
    PartitionsComplete(d, a);
    var p :| p in a.partitions && p.index == s;
    var i :| 0 <= i < |a.partitions| && a.partitions[i] == p;
    FieldsDeclare(d, a, i, x);
    assert IsPrimary(a, i) && Declares(a, i, x);
  }

  lemma LinkPlace(d: Disk, a: Analysis, k: nat, x: int)
    requires IsAnalysis(d, a) && k < |a.chain.entries| && LinkHolds(a.chain.entries[k], x)
    ensures exists i :: 0 <= i < |a.partitions| && !IsPrimary(a, i) && Declares(a, i, x)
  {
    hide IsAnalysis, Declares, PrimarySummaries, LogicalSummary;
    PartitionsComplete(d, a);
    var i := |a.partitions| - |a.chain.entries| + k;
    PartitionFields(d, a, i);
    FieldsDeclare(d, a, i, x);
    assert !IsPrimary(a, i) && Declares(a, i, x);
  }

  /** After LBA 0 the reported ranges are the declared ones, less what primaries declare from 2^32 - 1 on. */
  lemma CoveredIsDeclared(d: Disk, a: Analysis, x: int)
    requires IsAnalysis(d, a) && x >= 1
    ensures PartitionCovers(a.partitions, x) <==>
            (SlotDeclares(a.mbr.entries, x) && x < U32_MAX) || LinkDeclares(a.chain.entries, x)
  {
    hide IsAnalysis, SlotDeclares, LinkDeclares, CountField;
    var ps := a.partitions;
    DeclaredByPartition(d, a, x);
    forall i | 0 <= i < |ps|
      ensures ps[i].lbaStart <= x <= ps[i].lbaEnd <==> Declares(a, i, x) && (!IsPrimary(a, i) || x < U32_MAX)
    {
      PartitionFields(d, a, i);
    }
  }

  // ----- Gaps against declared sectors -----

  /** The sectors that primaries alone declare past the 32-bit end. */
  ghost predicate CutOff(a: Analysis, x: int) {
    SlotDeclares(a.mbr.entries, x) && !LinkDeclares(a.chain.entries, x) && x >= U32_MAX
  }

  /** A sector after the boot sector that ends within the disk's size. */
  predicate AfterBoot(d: Disk, x: int) { x >= 1 && (x + 1) * d.sectorSize <= d.size }

  /** A sector of the disk lies in a gap iff it is not declared, or cut off. */
  lemma GapIsUndeclared(d: Disk, a: Analysis, x: int)
    requires IsAnalysis(d, a) && AfterBoot(d, x)
    ensures InGap(a.gaps, x) <==> !TableDeclares(a, x) || CutOff(a, x)
  {
    hide IsAnalysis, PartitionCovers, SlotDeclares, LinkDeclares;
    CoveredIsDeclared(d, a, x);
    RunGapsExact(d, a, x);
  }

  ghost predicate GapsAreUndeclared(d: Disk, a: Analysis) {
    forall x :: AfterBoot(d, x) ==> (InGap(a.gaps, x) <==> !TableDeclares(a, x))
  }

  /** Gaps are the complement of the declared sectors iff none on the disk is cut off. */
  lemma GapsAreUndeclaredIff(d: Disk, a: Analysis)
    requires IsAnalysis(d, a)
    ensures GapsAreUndeclared(d, a) <==> forall x :: AfterBoot(d, x) ==> !CutOff(a, x)
  {
    hide IsAnalysis, InGap, AfterBoot, SlotDeclares, LinkDeclares;
    forall x | AfterBoot(d, x) ensures (InGap(a.gaps, x) <==> !TableDeclares(a, x)) <==> !CutOff(a, x) {
      GapIsUndeclared(d, a, x);
    }
  }

  ghost function DeclaredSet(a: Analysis): int -> bool { (x: int) => TableDeclares(a, x) }

  ghost function CutOffSet(a: Analysis): int -> bool { (x: int) => CutOff(a, x) }

  /** Gap sectors and declared sectors make the disk after the boot sector, with the cut-off ones
      counted twice. */
  lemma DeclaredConserved(d: Disk, a: Analysis)
    requires IsAnalysis(d, a) && d.size > 0
    requires forall i :: 0 <= i < |a.partitions| ==> a.partitions[i].lbaStart <= d.LastLba() + 1
    ensures InOrder(a.gaps)
    ensures TotalSectors(a.gaps) + Count(DeclaredSet(a), 1, d.LastLba() + 1)
         == d.LastLba() + Count(CutOffSet(a), 1, d.LastLba() + 1)
  {
    hide IsAnalysis, PartitionCovers, SlotDeclares, LinkDeclares, Count, DiskOptions.LastLba;
    RunSectorsConserved(d, a);
    forall x | 1 <= x < d.LastLba() + 1
      ensures DeclaredSet(a)(x) <==> PartitionCover(a.partitions)(x) || CutOffSet(a)(x)
      ensures !(PartitionCover(a.partitions)(x) && CutOffSet(a)(x))
    {
      CoveredIsDeclared(d, a, x);
    }
    CountSplit(DeclaredSet(a), PartitionCover(a.partitions), CutOffSet(a), 1, d.LastLba() + 1);
  }

  /** A carved header lies in an undeclared sector, or in a cut-off one. */
  lemma CarvedIsUndeclared(d: Disk, a: Analysis, f: Anomaly)
    requires IsAnalysis(d, a) && f in a.anomalies && f.kind.CarvedArtifact?
    ensures var x := f.offset / d.sectorSize; x >= 1 && (!TableDeclares(a, x) || CutOff(a, x))
  {
    hide IsAnalysis, PartitionCovers, SlotDeclares, LinkDeclares, CarvedFrom, GapFits, IsGapList;
    CarvedOutsidePartitions(d, a, f);
    RunCarvedExact(d, a, f);
    var i :| 0 <= i < |a.gaps| && CarvedFrom(d, a.gaps[i], f);
    RunGapsFit(d, a);
    HitSector(d, a.gaps[i], f);
    SizeKnown(d, a, i);
    RunGapList(d, a);
    GapAfterBoot(a.gaps, Prepared(ExtentsOf(a.partitions)), d.LastLba(), Scale(d.sectorSize), i);
    CoveredIsDeclared(d, a, f.offset / d.sectorSize);
  }

  lemma GapAfterBoot(gs: seq<Gap>, es: seq<Extent>, last: nat, size: nat -> nat, i: nat)
    requires IsGapList(gs, es, 1, last, size) && i < |gs|
    ensures gs[i].lbaStart >= 1
  {
    assert gs[i].Holds(gs[i].lbaStart) && InGap(gs, gs[i].lbaStart);
  }

  // ----- Overlaps against declared sectors -----

  /** Data partitions `i` and `j` in the order the check sorts them: by start, then by position. */
  predicate Before(a: Analysis, i: int, j: int) {
    && 0 <= i < |a.partitions| && 0 <= j < |a.partitions| && i != j && IsData(a.partitions[i]) && IsData(a.partitions[j])
    && (a.partitions[i].lbaStart < a.partitions[j].lbaStart || (a.partitions[i].lbaStart == a.partitions[j].lbaStart && i < j))
  }

  /** Both declare one sector. */
  ghost predicate Share(a: Analysis, i: nat, j: nat)
    requires i < |a.partitions| && j < |a.partitions|
  {
    exists x: int :: Declares(a, i, x) && Declares(a, j, x)
  }

  /** The start of `j` lies below the 32-bit end that a primary `i` is cut at. */
  predicate InReach(a: Analysis, i: nat, j: nat)
    requires i < |a.partitions| && j < |a.partitions|
  {
    IsPrimary(a, i) ==> a.partitions[j].lbaStart < U32_MAX
  }

  /** What else makes a report: `j` declares nothing and starts within `i`, or `i` declares nothing and
      both start at LBA 0. */
  predicate EmptyClash(a: Analysis, i: nat, j: nat)
    requires i < |a.partitions| && j < |a.partitions|
  {
    || (CountField(a, j) == 0 && Declares(a, i, a.partitions[j].lbaStart) && InReach(a, i, j))
    || (CountField(a, i) == 0 && a.partitions[i].lbaStart == 0 && a.partitions[j].lbaStart == 0)
  }

  lemma NoneStartsInsideSnoc(cs: seq<Claim>, c: Claim)
    ensures NoneStartsInside(cs + [c]) <==> NoneStartsInside(cs) && forall k :: 0 <= k < |cs| ==> Clear(cs[k], c)
  {
    var t := cs + [c];
    assert t[|cs|] == c && forall k :: 0 <= k < |cs| ==> t[k] == cs[k];
    if NoneStartsInside(t) {
      forall i, j | 0 <= i < j < |cs| ensures Clear(cs[i], cs[j]) { assert Clear(t[i], t[j]); }
      forall k | 0 <= k < |cs| ensures Clear(cs[k], c) { assert Clear(t[k], t[|cs|]); }
    }
  }

  /** No data partition starts inside another, pair by pair of the partition list. */
  predicate PartitionsClear(ps: seq<PartitionSummary>) {
    forall i, j :: 0 <= i < j < |ps| && IsData(ps[i]) && IsData(ps[j]) ==> Clear(ClaimOf(ps[i]), ClaimOf(ps[j]))
  }

  lemma {:induction false} ClaimsClear(ps: seq<PartitionSummary>)
    ensures NoneStartsInside(ClaimsOf(ps)) <==> PartitionsClear(ps)
    decreases |ps|
  {
    if ps != [] {
      var n := |ps| - 1;
      var rest, p := ps[..n], ps[n];
      assert ps == rest + [p];
      ClaimsClear(rest);
      ClaimsAppend(rest, p);
      ClearSnoc(rest, p);
      if IsData(p) {
        NoneStartsInsideSnoc(ClaimsOf(rest), ClaimOf(p));
        ClearOfClaims(rest, ClaimOf(p));
      }
    }
  }

  lemma ClearSnoc(rest: seq<PartitionSummary>, p: PartitionSummary)
    ensures PartitionsClear(rest + [p]) <==>
            PartitionsClear(rest) && (IsData(p) ==> forall i :: 0 <= i < |rest| && IsData(rest[i]) ==> Clear(ClaimOf(rest[i]), ClaimOf(p)))
  {
    hide Clear, IsData;
    var t := rest + [p];
    assert t[|rest|] == p && forall k :: 0 <= k < |rest| ==> t[k] == rest[k];
    if PartitionsClear(t) {
      forall i, j | 0 <= i < j < |rest| && IsData(rest[i]) && IsData(rest[j])
        ensures Clear(ClaimOf(rest[i]), ClaimOf(rest[j])) { assert Clear(ClaimOf(t[i]), ClaimOf(t[j])); }
      if IsData(p) {
        forall i | 0 <= i < |rest| && IsData(rest[i]) ensures Clear(ClaimOf(rest[i]), ClaimOf(p)) {
          assert Clear(ClaimOf(t[i]), ClaimOf(t[|rest|]));
        }
      }
    }
  }

  /** Claims are the data partitions, so being clear of all claims is being clear of all of those. */
  lemma ClearOfClaims(ps: seq<PartitionSummary>, c: Claim)
    ensures (forall k :: 0 <= k < |ClaimsOf(ps)| ==> Clear(ClaimsOf(ps)[k], c))
       <==> forall i :: 0 <= i < |ps| && IsData(ps[i]) ==> Clear(ClaimOf(ps[i]), c)
  {
    hide Clear, Concat;
    var cs, f := ClaimsOf(ps), ClaimAt(ps);
    if forall k :: 0 <= k < |cs| ==> Clear(cs[k], c) {
      forall i | 0 <= i < |ps| && IsData(ps[i]) ensures Clear(ClaimOf(ps[i]), c) {
        assert ClaimOf(ps[i]) in f(i);
        ConcatMember(|ps|, f, ClaimOf(ps[i]));
        var k :| 0 <= k < |cs| && cs[k] == ClaimOf(ps[i]);
      }
    }
    if forall i :: 0 <= i < |ps| && IsData(ps[i]) ==> Clear(ClaimOf(ps[i]), c) {
      forall k | 0 <= k < |cs| ensures Clear(cs[k], c) {
        assert cs[k] in cs;
        ConcatMember(|ps|, f, cs[k]);
        var i :| 0 <= i < |ps| && cs[k] in f(i);
      }
    }
  }

  /** When `j` sorts after `i` and starts no later than the reported end of `i`. */
  lemma PairReported(d: Disk, a: Analysis, i: nat, j: nat)
    requires IsAnalysis(d, a) && Before(a, i, j)
    ensures a.partitions[j].lbaStart <= a.partitions[i].lbaEnd <==> (Share(a, i, j) && InReach(a, i, j)) || EmptyClash(a, i, j)
  {
    hide IsAnalysis, CountField;
    PartitionFields(d, a, i);
    var x := a.partitions[j].lbaStart;
    if Declares(a, i, x) && CountField(a, j) > 0 { assert Declares(a, j, x); }
  }

  /** A run reports an overlap iff two data partitions share a declared sector and the later start is not
      past the 32-bit end of an earlier primary, or a partition that declares nothing clashes. */
  lemma OverlapDeclaredIff(d: Disk, a: Analysis)
    requires IsAnalysis(d, a)
    ensures ReportsOverlap(a) <==>
            || (exists i, j :: Before(a, i, j) && Share(a, i, j) && InReach(a, i, j))
            || (exists i, j :: Before(a, i, j) && EmptyClash(a, i, j))
  {
    hide IsAnalysis, ReportsOverlap, NoneStartsInside, ClaimsOf, Share, InReach, EmptyClash;
    var ps := a.partitions;
    OverlapReportedIff(d, a);
    ClaimsClear(ps);
    forall i, j | Before(a, i, j)
      ensures ps[j].lbaStart <= ps[i].lbaEnd <==> (Share(a, i, j) && InReach(a, i, j)) || EmptyClash(a, i, j)
    {
      PairReported(d, a, i, j);
    }
    ClearIsOrdered(a);
  }

  lemma ClearIsOrdered(a: Analysis)
    ensures PartitionsClear(a.partitions) <==>
            forall i, j :: Before(a, i, j) ==> a.partitions[i].lbaEnd < a.partitions[j].lbaStart
  {
    var ps := a.partitions;
    if PartitionsClear(ps) {
      forall i, j | Before(a, i, j) ensures ps[i].lbaEnd < ps[j].lbaStart {
        assert if i < j then Clear(ClaimOf(ps[i]), ClaimOf(ps[j])) else Clear(ClaimOf(ps[j]), ClaimOf(ps[i]));
      }
    }
    if forall i, j :: Before(a, i, j) ==> ps[i].lbaEnd < ps[j].lbaStart {
      forall i, j | 0 <= i < j < |ps| && IsData(ps[i]) && IsData(ps[j]) ensures Clear(ClaimOf(ps[i]), ClaimOf(ps[j])) {
        assert Before(a, i, j) || Before(a, j, i);
      }
    }
  }

  ghost predicate SharesAny(a: Analysis) { exists i, j :: Before(a, i, j) && Share(a, i, j) }

  /** The exact false alarm: with no declared sector shared, a report means a clash with a partition that
      declares nothing. */
  lemma FalseAlarmRunIff(d: Disk, a: Analysis)
    requires IsAnalysis(d, a) && !SharesAny(a)
    ensures ReportsOverlap(a) <==> exists i, j :: Before(a, i, j) && EmptyClash(a, i, j)
  {
    hide IsAnalysis, ReportsOverlap, Share, EmptyClash, InReach;
    OverlapDeclaredIff(d, a);
  }

  /** The exact miss: with declared sectors shared, silence means that every sharing pair starts past the
      32-bit end of its primary, and that no empty partition gives it away. */
  lemma MissedRunIff(d: Disk, a: Analysis)
    requires IsAnalysis(d, a) && SharesAny(a)
    ensures !ReportsOverlap(a) <==>
            && (forall i, j :: Before(a, i, j) && Share(a, i, j) ==> IsPrimary(a, i) && a.partitions[j].lbaStart >= U32_MAX)
            && (forall i, j :: Before(a, i, j) ==> !EmptyClash(a, i, j))
  {
    hide IsAnalysis, ReportsOverlap, Share, EmptyClash;
    OverlapDeclaredIff(d, a);
  }

  // ----- Bounds against declared sectors -----

  ghost predicate ReportedOut(a: Analysis, i: nat) {
    exists f :: f in a.anomalies && f.kind.OutOfBounds? && f.kind.index == i
  }

  /** Entry `e` declares a sector past the disk but below the 32-bit end. */
  ghost predicate DeclaresOut(e: PartitionEntry, last: nat) {
    exists x: int :: EntryDeclares(e, x) && last < x < U32_MAX
  }

  lemma EndPastDisk(e: PartitionEntry, last: nat)
    requires e.typeCode != 0
    ensures e.LbaEnd() > last <==> e.lbaStart > last + 1 || DeclaresOut(e, last)
  {
    if e.LbaEnd() > last && e.lbaStart <= last + 1 { assert EntryDeclares(e, e.LbaEnd()); }
  }

  lemma OutFinding(d: Disk, e: PartitionEntry, i: nat, f: Anomaly)
    requires f.kind.OutOfBounds?
    ensures IsSlotFinding(d, e, i, f) <==>
            && f == NewAnomaly(OutOfBounds(i, e.LbaEnd(), d.LastLba()), 446 + 16 * i)
            && e.typeCode != 0 && d.size > 0 && e.LbaEnd() > d.LastLba()
  {
    hide PartitionEntry.LbaEnd, DiskOptions.LastLba, CompareChs;
  }

  /** On a disk of known size a slot is reported out of bounds iff its partition starts beyond the LBA after
      the last, or declares a sector past the disk that lies below the 32-bit end; logicals never are. */
  lemma OutOfBoundsIff(d: Disk, a: Analysis, i: nat)
    requires IsAnalysis(d, a) && d.size > 0
    ensures |a.mbr.entries| == 4
    ensures i < 4 && a.mbr.entries[i].typeCode != 0 ==>
              var e := a.mbr.entries[i];
              (ReportedOut(a, i) <==> e.lbaStart > d.LastLba() + 1 || DeclaresOut(e, d.LastLba()))
    ensures i >= 4 || a.mbr.entries[i].typeCode == 0 ==> !ReportedOut(a, i)
  {
    hide IsAnalysis, DeclaresOut, DiskOptions.LastLba, PartitionEntry.LbaEnd, IsSlotFinding;
    var es := a.mbr.entries;
    FourEntries(d, a);
    forall f | f in a.anomalies && f.kind.OutOfBounds? && f.kind.index == i
      ensures i < 4 && es[i].typeCode != 0 && es[i].LbaEnd() > d.LastLba()
    {
      RunSlotFindingsExact(d, a, f);
      var j :| 0 <= j < |es| && IsSlotFinding(d, es[j], j, f);
      OutFinding(d, es[j], j, f);
    }
    if i < 4 && es[i].typeCode != 0 {
      EndPastDisk(es[i], d.LastLba());
      if es[i].LbaEnd() > d.LastLba() {
        var f := NewAnomaly(OutOfBounds(i, es[i].LbaEnd(), d.LastLba()), 446 + 16 * i);
        OutFinding(d, es[i], i, f);
        RunSlotFindingsExact(d, a, f);
      }
    }
  }

  // ----- Inputs -----

  /** A boot sector with this table and nothing else. */
  function Sector(es: seq<PartitionEntry>): Mbr.MbrSector {
    Mbr.MbrSector(seq(446, _ => 0), 0, [0, 0], es, [0x55, 0xAA])
  }

  /** A table without a container. */
  predicate PlainTable(es: seq<PartitionEntry>) {
    |es| == 4 && forall i :: 0 <= i < 4 ==> es[i].Packable() && !es[i].IsExtended()
  }

  lemma SectorFormed(es: seq<PartitionEntry>)
    requires PlainTable(es)
    ensures Mbr.WellFormed(Sector(es))
  {
    var code := seq(446, _ => 0);
    assert code[440..444] == [0, 0, 0, 0] && code[444..446] == [0, 0];
    assert ToLe32(0) == [0, 0, 0, 0];
  }

  /** An image of `size` bytes that holds only that sector. */
  function PlainDisk(es: seq<PartitionEntry>, size: U64): Disk
    requires PlainTable(es)
  {
    SectorFormed(es);
    DiskOptions((offset, len) => if offset == 0 && len == 512 then Data(Mbr.Encode(Sector(es))) else Short,
                size, 512, Volumes(_ => None, _ => None, (_, _) => false))
  }

  /** Its report. */
  function PlainRun(es: seq<PartitionEntry>, size: U64): Analysis
    requires PlainTable(es)
  {
    var d, chain := PlainDisk(es, size), EmptyChain();
    var ps := Partitions(d, es, chain);
    var a := Analysis(Sector(es), ps, chain, GapsOf(d, ExtentsOf(ps)), []);
    a.(anomalies := TableFindings(d, a) + ChainStageFindings(d, a) + OverlapFindings(ClaimsOf(ps))
                    + GapFindings(d, a.gaps) + ContentFindings(d, a))
  }

  lemma PlainRunIsAnalysis(es: seq<PartitionEntry>, size: U64)
    requires PlainTable(es)
    ensures IsAnalysis(PlainDisk(es, size), PlainRun(es, size))
  {
    hide Partitions, GapsOf, PrimaryFindings, OverlapFindings, GapFindings, ExtendedFindings, Concat, ReadMbr, PlainDisk;
    PlainSector(es, size);
    NoExtended(es);
  }

  lemma PlainSector(es: seq<PartitionEntry>, size: U64)
    requires PlainTable(es)
    ensures ReadMbr(PlainDisk(es, size)) == Ok(Sector(es))
  {
    hide Mbr.Encode, Mbr.Parse;
    SectorFormed(es);
    Mbr.EncodeParse(Sector(es));
  }

  lemma {:induction false} NoExtended(es: seq<PartitionEntry>)
    requires forall i :: 0 <= i < |es| ==> !es[i].IsExtended()
    ensures FirstExtended(es) == None
    decreases |es|
  {
    if es != [] { NoExtended(es[1..]); }
  }

  function Entry(typeCode: U8, start: U32, count: U32): (e: PartitionEntry)
    ensures e.Packable()
  {
    PartitionEntry(0, Chs(0, 0, 0), typeCode, Chs(0, 0, 0), start, count)
  }

  /** The usual protective entry on a disk of more than 2^32 sectors: it declares LBA 2^32 - 1, which is
      in a gap all the same. */
  lemma ProtectiveEntryCut(size: U64)
    requires size >= 512 * (U32_MAX + 1)
    ensures var es := [Entry(0xEE, 1, U32_MAX), Entry(0, 0, 0), Entry(0, 0, 0), Entry(0, 0, 0)];
            && IsAnalysis(PlainDisk(es, size), PlainRun(es, size))
            && TableDeclares(PlainRun(es, size), U32_MAX) && InGap(PlainRun(es, size).gaps, U32_MAX)
  {
    hide IsAnalysis, PlainRun, InGap;
    var es := [Entry(0xEE, 1, U32_MAX), Entry(0, 0, 0), Entry(0, 0, 0), Entry(0, 0, 0)];
    var d, a := PlainDisk(es, size), PlainRun(es, size);
    PlainRunIsAnalysis(es, size);
    PlainFields(es, size);
    assert EntryDeclares(es[0], U32_MAX);
    assert U32_MAX <= d.LastLba();
    GapIsUndeclared(d, a, U32_MAX);
  }

  /** The same entry on a disk one sector short of it: it declares the LBA after the last, unreported. */
  lemma MissedOutOfBounds()
    ensures var es, size := [Entry(0xEE, 1, U32_MAX), Entry(0, 0, 0), Entry(0, 0, 0), Entry(0, 0, 0)], 512 * U32_MAX;
            && IsAnalysis(PlainDisk(es, size), PlainRun(es, size))
            && EntryDeclares(es[0], PlainDisk(es, size).LastLba() + 1) && !ReportedOut(PlainRun(es, size), 0)
  {
    hide IsAnalysis, PlainRun, ReportedOut;
    var es, size := [Entry(0xEE, 1, U32_MAX), Entry(0, 0, 0), Entry(0, 0, 0), Entry(0, 0, 0)], 512 * U32_MAX;
    var d, a := PlainDisk(es, size), PlainRun(es, size);
    PlainRunIsAnalysis(es, size);
    PlainFields(es, size);
    assert d.LastLba() == U32_MAX - 1;
    OutOfBoundsIff(d, a, 0);
  }

  lemma PlainFields(es: seq<PartitionEntry>, size: U64)
    requires PlainTable(es)
    ensures PlainRun(es, size).mbr.entries == es && PlainRun(es, size).chain.entries == []
  {
  }

  /** A table of two data partitions in the first two slots. */
  function Two(e: PartitionEntry, f: PartitionEntry): seq<PartitionEntry> { [e, f, Entry(0, 0, 0), Entry(0, 0, 0)] }

  predicate DataEntry(e: PartitionEntry) { e.Packable() && e.typeCode == 7 }

  lemma TwoPartitions(e: PartitionEntry, f: PartitionEntry, size: U64)
    requires DataEntry(e) && DataEntry(f)
    ensures PlainTable(Two(e, f))
    ensures TwoPrimaries(PlainRun(Two(e, f), size), e.lbaStart, e.lbaCount, f.lbaStart, f.lbaCount)
  {
    hide PrimarySummary, PlainDisk;
    var es := Two(e, f);
    var d := PlainDisk(es, size);
    NoLogicals(d, es);
    TwoSummaries(d, e, f);
    SummaryFields(d, e, 0);
    SummaryFields(d, f, 1);
  }

  lemma TwoSummaries(d: Disk, e: PartitionEntry, f: PartitionEntry)
    requires DataEntry(e) && DataEntry(f)
    ensures PrimarySummaries(d, Two(e, f)) == [PrimarySummary(d, e, 0), PrimarySummary(d, f, 1)]
  {
    hide PrimarySummary, Concat;
    var g := SlotSummaryAt(d, Two(e, f));
    assert g(0) == [PrimarySummary(d, e, 0)] && g(1) == [PrimarySummary(d, f, 1)] && g(2) == [] && g(3) == [];
    ConcatNone(g);
    ConcatNext(0, g);
    ConcatNext(1, g);
    ConcatNext(2, g);
    ConcatNext(3, g);
  }

  lemma SummaryFields(d: Disk, e: PartitionEntry, i: nat)
    ensures var p := PrimarySummary(d, e, i); p.index == i && p.lbaStart == e.lbaStart && p.declaredType == e.typeCode
  {
  }

  lemma NoLogicals(d: Disk, es: seq<PartitionEntry>)
    ensures Partitions(d, es, EmptyChain()) == PrimarySummaries(d, es)
  {
  }

  /** The starts and counts of a report of two primaries. */
  predicate TwoPrimaries(a: Analysis, start: nat, count: nat, start': nat, count': nat) {
    && |a.partitions| == 2 && IsData(a.partitions[0]) && IsData(a.partitions[1]) && IsPrimary(a, 0) && IsPrimary(a, 1)
    && a.partitions[0].lbaStart == start && CountField(a, 0) == count
    && a.partitions[1].lbaStart == start' && CountField(a, 1) == count'
  }

  lemma MissedPair(d: Disk, a: Analysis)
    requires IsAnalysis(d, a) && TwoPrimaries(a, U32_MAX - 1, 5, U32_MAX, 3)
    ensures SharesAny(a) && !ReportsOverlap(a)
  {
    hide IsAnalysis, ReportsOverlap, CountField;
    assert Declares(a, 0, U32_MAX) && Declares(a, 1, U32_MAX);
    assert Before(a, 0, 1) && Share(a, 0, 1);
    OverlapDeclaredIff(d, a);
  }

  lemma ReportedPair(d: Disk, a: Analysis)
    requires IsAnalysis(d, a) && TwoPrimaries(a, 0, 0, 0, 10)
    ensures !SharesAny(a) && ReportsOverlap(a)
  {
    hide IsAnalysis, ReportsOverlap, CountField;
    assert Before(a, 0, 1) && EmptyClash(a, 0, 1);
    OverlapDeclaredIff(d, a);
  }

  /** Two primaries that both declare LBA 2^32 - 1, and no report. */
  lemma MissedOverlap(size: U64)
    ensures var es := Two(Entry(7, U32_MAX - 1, 5), Entry(7, U32_MAX, 3));
            && PlainTable(es) && IsAnalysis(PlainDisk(es, size), PlainRun(es, size))
            && SharesAny(PlainRun(es, size)) && !ReportsOverlap(PlainRun(es, size))
  {
    hide IsAnalysis, PlainRun, PlainDisk, ReportsOverlap, SharesAny, CountField, Two, PlainTable;
    var e, f := Entry(7, U32_MAX - 1, 5), Entry(7, U32_MAX, 3);
    TwoPartitions(e, f, size);
    PlainRunIsAnalysis(Two(e, f), size);
    MissedPair(PlainDisk(Two(e, f), size), PlainRun(Two(e, f), size));
  }

  /** A zero-count partition at LBA 0 before another that starts there: nothing is shared, and yet reported. */
  lemma FalseAlarmAtZero(size: U64)
    ensures var es := Two(Entry(7, 0, 0), Entry(7, 0, 10));
            && PlainTable(es) && IsAnalysis(PlainDisk(es, size), PlainRun(es, size))
            && !SharesAny(PlainRun(es, size)) && ReportsOverlap(PlainRun(es, size))
  {
    hide IsAnalysis, PlainRun, PlainDisk, ReportsOverlap, SharesAny, CountField, Two, PlainTable;
    var e, f := Entry(7, 0, 0), Entry(7, 0, 10);
    TwoPartitions(e, f, size);
    PlainRunIsAnalysis(Two(e, f), size);
    ReportedPair(PlainDisk(Two(e, f), size), PlainRun(Two(e, f), size));
  }
}
