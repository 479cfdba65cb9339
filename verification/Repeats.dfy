/** No run reports one finding twice. */
module Repeats {
  import opened Machine
  import opened Lists
  import opened Sorting
  import opened Partition
  import opened Ebr
  import opened Gaps
  import opened Findings
  import opened Overlaps
  import opened Stages
  import opened Pipeline
  import Carve
  import Wipe
  import opened Entropy

  predicate NoRepeats<T(==)>(s: seq<T>) { forall i, j :: 0 <= i < j < |s| ==> s[i] != s[j] }

  predicate Apart<T(==)>(s: seq<T>, t: seq<T>) { forall x :: x in s ==> x !in t }

  lemma JoinOnce<T>(s: seq<T>, t: seq<T>)
    requires NoRepeats(s) && NoRepeats(t) && Apart(s, t)
    ensures NoRepeats(s + t)
  {
    var u := s + t;
    forall i, j | 0 <= i < j < |u| ensures u[i] != u[j] {
      if i < |s| <= j { assert u[i] in s && u[j] in t; }
    }
  }

  lemma {:induction false} ConcatOnce<T(!new)>(n: nat, f: nat -> seq<T>)
    requires forall i :: 0 <= i < n ==> NoRepeats(f(i))
    requires forall i, j :: 0 <= i < j < n ==> Apart(f(i), f(j))
    ensures NoRepeats(Concat(n, f))
  {
    hide NoRepeats, Apart;
    if n > 0 {
      ConcatOnce(n - 1, f);
      ConcatApart(n - 1, f, f(n - 1));
      JoinOnce(Concat(n - 1, f), f(n - 1));
    } else {
      NoneOnce<T>();
    }
  }

  lemma NoneOnce<T>()
    ensures NoRepeats<T>([])
  {
  }

  lemma ConcatApart<T(!new)>(n: nat, f: nat -> seq<T>, t: seq<T>)
    requires forall i :: 0 <= i < n ==> Apart(f(i), t)
    ensures Apart(Concat(n, f), t)
  {
    forall x | x in Concat(n, f) ensures x !in t {
      ConcatMember(n, f, x);
      var i :| 0 <= i < n && x in f(i);
      assert Apart(f(i), t);
    }
  }

  // ----- Table and chain -----

  /** The partition a slot or link finding is about, or the EBR for slack. */
  function Subject(k: AnomalyKind): (bool, nat) {
    match k
    case ResidualEntry(index, _, _) => (true, index)
    case InvalidPartitionStatus(index, _) => (true, index)
    case OutOfBounds(index, _, _) => (true, index)
    case ChsLbaInconsistency(index) => (true, index)
    case VbrHiddenSectorsMismatch(index, _, _) => (true, index)
    case SignatureMismatch(index, _, _) => (true, index)
    case EbrSlackData(lba, _) => (false, lba)
    case _ => (false, 0)
  }

  lemma OneOnce(cond: bool, kind: AnomalyKind, offset: nat)
    ensures NoRepeats(OnlyIf(cond, kind, offset)) && forall f :: f in OnlyIf(cond, kind, offset) ==> f.kind == kind
  {
  }

  lemma VolumeOnce(d: Disk, index: nat, lbaStart: nat, offset: nat, declared: U8)
    ensures var fs := VbrFindings(d, index, lbaStart, offset) + FsFindings(d, index, offset, declared);
            NoRepeats(fs) && forall f :: f in fs ==> VolumeKind(f.kind) && Subject(f.kind) == (true, index)
  {
    hide DiskOptions.PastEnd, DiskOptions.DetectedFs;
  }

  lemma EntryOnce(e: PartitionEntry, i: nat)
    ensures NoRepeats(EntryFindings(e, i))
    ensures forall f :: f in EntryFindings(e, i) ==>
              (f.kind.InvalidPartitionStatus? || f.kind.ChsLbaInconsistency?) && Subject(f.kind) == (true, i)
  {
    hide ChsContradicts, NoRepeats, OnlyIf;
    var status, chs := InvalidPartitionStatus(i, e.status), ChsLbaInconsistency(i);
    OneOnce(e.status != 0x00 && e.status != 0x80, status, EntryOffset(i));
    OneOnce(ChsContradicts(e), chs, EntryOffset(i));
    JoinOnce(OnlyIf(e.status != 0x00 && e.status != 0x80, status, EntryOffset(i)), OnlyIf(ChsContradicts(e), chs, EntryOffset(i)));
  }

  lemma ExtentOnce(d: Disk, e: PartitionEntry, i: nat)
    ensures NoRepeats(ExtentFindings(d, e, i))
    ensures forall f :: f in ExtentFindings(d, e, i) ==>
              (f.kind.OutOfBounds? || VolumeKind(f.kind)) && Subject(f.kind) == (true, i)
  {
    hide NoRepeats, OnlyIf, VbrFindings, FsFindings, DiskOptions.ByteOf, DiskOptions.LastLba, PartitionEntry.LbaEnd;
    var out, offset := OutOfBounds(i, e.LbaEnd(), d.LastLba()), d.ByteOf(e.lbaStart);
    var outs := OnlyIf(d.size > 0 && e.LbaEnd() > d.LastLba(), out, EntryOffset(i));
    var vbrs, fss := VbrFindings(d, i, e.lbaStart, offset), FsFindings(d, i, offset, e.typeCode);
    OneOnce(d.size > 0 && e.LbaEnd() > d.LastLba(), out, EntryOffset(i));
    VolumeOnce(d, i, e.lbaStart, offset, e.typeCode);
    JoinOnce(outs, vbrs + fss);
    Assoc(outs, vbrs, fss);
  }

  lemma SlotOnce(d: Disk, e: PartitionEntry, i: nat)
    ensures NoRepeats(SlotFindings(d, e, i))
    ensures forall f :: f in SlotFindings(d, e, i) ==> TableKind(f.kind) && Subject(f.kind) == (true, i)
  {
    hide NoRepeats, OnlyIf, EntryFindings, ExtentFindings;
    OneOnce(!e.IsEmpty(), ResidualEntry(i, e.lbaStart, e.lbaCount), EntryOffset(i));
    EntryOnce(e, i);
    ExtentOnce(d, e, i);
    if e.typeCode != 0 { JoinOnce(EntryFindings(e, i), ExtentFindings(d, e, i)); }
  }

  lemma TableOnce(d: Disk, es: seq<PartitionEntry>)
    ensures NoRepeats(PrimaryFindings(d, es))
    ensures forall f :: f in PrimaryFindings(d, es) ==> TableKind(f.kind) && Subject(f.kind).0 && Subject(f.kind).1 < |es|
  {
    hide SlotFindings, Subject, TableKind, NoRepeats, Concat;
    var g := SlotFindingsAt(d, es);
    forall i | 0 <= i < |es|
      ensures NoRepeats(g(i)) && forall f :: f in g(i) ==> TableKind(f.kind) && Subject(f.kind) == (true, i)
    {
      SlotAt(d, es, i);
      SlotOnce(d, es[i], i);
    }
    ConcatOnce(|es|, g);
    forall f | f in PrimaryFindings(d, es) ensures TableKind(f.kind) && Subject(f.kind).0 && Subject(f.kind).1 < |es| {
      ConcatMember(|es|, g, f);
    }
  }

  lemma LinkOnce(d: Disk, e: EbrEntry, index: nat)
    ensures NoRepeats(LinkFindings(d, e, index))
    ensures forall f :: f in LinkFindings(d, e, index) ==>
              (f.kind.EbrSlackData? && Subject(f.kind) == (false, e.ebrLba)) || (VolumeKind(f.kind) && Subject(f.kind) == (true, index))
  {
    hide NoRepeats, OnlyIf, VbrFindings, FsFindings, DiskOptions.ByteOf, EntropyOf;
    var offset := d.ByteOf(e.logicalLbaStart);
    var vbrs, fss := VbrFindings(d, index, e.logicalLbaStart, offset), FsFindings(d, index, offset, e.logical.typeCode);
    OneOnce(e.hasSlack, EbrSlackData(e.ebrLba, EntropyOf(e.slack)), e.ebrOffset + EBR_SLACK_OFFSET);
    VolumeOnce(d, index, e.logicalLbaStart, offset, e.logical.typeCode);
    JoinOnce(SlackFindings(e), vbrs + fss);
    Assoc(SlackFindings(e), vbrs, fss);
  }

  ghost predicate DistinctLbas(es: seq<EbrEntry>) { forall i, j :: 0 <= i < j < |es| ==> es[i].ebrLba != es[j].ebrLba }

  lemma LinksOnce(d: Disk, es: seq<EbrEntry>, base: nat)
    requires DistinctLbas(es)
    ensures var fs := Concat(|es|, LinkFindingsAt(d, es, base));
            && NoRepeats(fs)
            && forall f :: f in fs ==> f.kind.EbrSlackData? || (VolumeKind(f.kind) && Subject(f.kind).0 && Subject(f.kind).1 >= 4)
  {
    hide LinkFindings, NoRepeats, Concat;
    var g := LinkFindingsAt(d, es, base);
    forall i | 0 <= i < |es|
      ensures NoRepeats(g(i))
      ensures forall f :: f in g(i) ==>
                || (f.kind.EbrSlackData? && Subject(f.kind) == (false, es[i].ebrLba))
                || (VolumeKind(f.kind) && Subject(f.kind) == (true, EBR_INDEX_BASE + (base + i)))
    {
      LinkAt(d, es, base, i, EBR_INDEX_BASE + (base + i));
      LinkOnce(d, es[i], EBR_INDEX_BASE + (base + i));
    }
    forall i, j | 0 <= i < j < |es| ensures Apart(g(i), g(j)) {
      forall f | f in g(i) ensures f !in g(j) { assert es[i].ebrLba != es[j].ebrLba; }
    }
    ConcatOnce(|es|, g);
    forall f: Anomaly | f in Concat(|es|, g)
      ensures f.kind.EbrSlackData? || (VolumeKind(f.kind) && Subject(f.kind).0 && Subject(f.kind).1 >= 4)
    {
      ConcatMember(|es|, g, f);
    }
  }

  lemma ChainDistinct(d: Disk, es: seq<PartitionEntry>, chain: EbrChain)
    requires IsChainOf(d, es, chain)
    ensures DistinctLbas(chain.entries)
  {
    if FirstExtended(es).Some? {
      var img := ImageAt(d, FirstExtended(es).value);
      var r, p :| img.Describes(r, p) && chain == if r.Ok? then r.value else EmptyChain();
      if r.Ok? { FlagsOfChain(img, r, p); }
    }
  }

  /** A flag, slack, or a volume finding of a logical. */
  predicate ChainSide(k: AnomalyKind) {
    || k.EbrCycle? || k.EbrExcessiveDepth? || k.EbrSlackData?
    || (VolumeKind(k) && Subject(k).0 && Subject(k).1 >= 4)
  }

  lemma ChainOnce(d: Disk, a: Analysis)
    requires IsChainOf(d, a.mbr.entries, a.chain)
    ensures NoRepeats(ChainStageFindings(d, a))
    ensures forall f :: f in ChainStageFindings(d, a) ==> ChainSide(f.kind)
  {
    hide LinkFindingsAt, Concat, IsChainOf, DiskOptions.ByteOf, PrimarySummaries;
    ChainDistinct(d, a.mbr.entries, a.chain);
    if FirstExtended(a.mbr.entries).Some? {
      var flags := ChainFindings(a.chain, d.ByteOf(FirstExtended(a.mbr.entries).value.lbaStart));
      var base := |PrimarySummaries(d, a.mbr.entries)|;
      LinksOnce(d, a.chain.entries, base);
      JoinOnce(flags, Concat(|a.chain.entries|, LinkFindingsAt(d, a.chain.entries, base)));
    }
  }

  // ----- Overlaps and gaps -----

  lemma {:induction false} PairsOnce(s: seq<Claim>, n: nat)
    requires (n == 0 || n < |s|) && forall i, j :: 0 <= i < j < |s| ==> s[i].id != s[j].id
    ensures NoRepeats(PairFindings(s, n))
    ensures forall f :: f in PairFindings(s, n) ==>
              f.kind.OverlappingPartitions? && exists i :: 0 <= i < n && f.kind.a == s[i].id
  {
    if n > 0 {
      PairsOnce(s, n - 1);
      JoinOnce(PairFindings(s, n - 1), PairFinding(s[n - 1], s[n]));
    }
  }

  lemma OverlapsOnce(ps: seq<PartitionSummary>)
    requires StrictBy(ps, IndexKey())
    ensures NoRepeats(OverlapFindings(ClaimsOf(ps)))
    ensures forall f :: f in OverlapFindings(ClaimsOf(ps)) ==> f.kind.OverlappingPartitions?
  {
    hide SortByKey, PairFindings, ClaimsOf, NoRepeats;
    var cs, key := ClaimsOf(ps), StartKey();
    ClaimsFacts(ps);
    SortLength(cs, key);
    SortKeepsDistinct(cs, key, (c: Claim) => c.id);
    PairsOnce(SortByKey(cs, key), if |cs| == 0 then 0 else |cs| - 1);
  }

  lemma GapsOnce(d: Disk, gs: seq<Gap>)
    requires InOrder(gs)
    ensures NoRepeats(GapFindings(d, gs))
    ensures forall f :: f in GapFindings(d, gs) ==> GapSpaceKind(f.kind)
  {
    hide Concat, DiskOptions.ByteOf;
    var g := GapFindingAt(d, gs);
    forall i | 0 <= i < |gs| ensures g(i) == [NewAnomaly(GapKindOf(gs[i]), d.ByteOf(gs[i].lbaStart))] { GapAt(d, gs, i); }
    forall i, j | 0 <= i < j < |gs| ensures Apart(g(i), g(j)) { assert gs[i].lbaStart < gs[j].lbaStart; }
    ConcatOnce(|gs|, g);
    forall f | f in GapFindings(d, gs) ensures GapSpaceKind(f.kind) { ConcatMember(|gs|, g, f); }
  }

  // ----- Gap contents -----

  lemma CarvedOnce(cs: seq<Carve.CarvedFile>)
    requires StrictBy(cs, Carve.OffsetKey())
    ensures NoRepeats(CarvedFindings(cs))
    ensures forall f :: f in CarvedFindings(cs) ==> f.kind.CarvedArtifact?
  {
    hide Concat;
    var g := CarvedFindingAt(cs);
    forall i, j | 0 <= i < j < |cs| ensures Apart(g(i), g(j)) {
      assert Carve.OffsetKey()(cs[i]) < Carve.OffsetKey()(cs[j]);
    }
    ConcatOnce(|cs|, g);
    forall f | f in CarvedFindings(cs) ensures f.kind.CarvedArtifact? { ConcatMember(|cs|, g, f); }
  }

  lemma SampleOnce(d: Disk, g: Gap)
    ensures NoRepeats(GapContent(d, g))
  {
    hide Carve.Carving, Carve.IsHit, SampleLen, CarvedFindings;
    var offset := d.ByteOf(g.lbaStart);
    match ReadExact(d.dev, offset, SampleLen(g))
    case Data(sample) =>
      var cs := Carve.Carving(sample, offset);
      Carve.CarvingExact(sample, offset);
      CarvedOnce(cs);
      JoinOnce(OnlyIf(Wipe.Classify(sample).IsDeliberateWipe(), WipedRegion(g.lbaStart, Wipe.Classify(sample)), offset),
               CarvedFindings(cs));
    case _ =>
  }

  /** What the content stage records of a gap lies in it: a wipe names its start, a header its sector. */
  lemma ContentInGap(d: Disk, g: Gap, f: Anomaly)
    requires GapFits(g, d.sectorSize) && f in GapContent(d, g)
    ensures ContentKind(f.kind)
    ensures f.kind.WipedRegion? ==> f.kind.lbaStart == g.lbaStart
    ensures f.kind.CarvedArtifact? ==> g.Holds(f.offset / d.sectorSize)
  {
    hide GapContent, GapFits, CarvedFrom, Gap.Holds;
    SampleKinds(d, g, f);
    if f.kind.WipedRegion? { SampleWiped(d, g, f); }
    if f.kind.CarvedArtifact? {
      SampleCarved(d, g, f);
      HitSector(d, g, f);
    }
  }

  lemma ContentOnce(d: Disk, gs: seq<Gap>)
    requires InOrder(gs) && AllFit(gs, d.sectorSize)
    ensures NoRepeats(Concat(|gs|, GapContentAt(d, gs)))
    ensures forall f :: f in Concat(|gs|, GapContentAt(d, gs)) ==> ContentKind(f.kind)
  {
    hide Concat, GapContent, GapFits, NoRepeats;
    var g := GapContentAt(d, gs);
    forall i | 0 <= i < |gs| ensures NoRepeats(g(i)) { SampleOnce(d, gs[i]); }
    forall i, j | 0 <= i < j < |gs| ensures Apart(g(i), g(j)) {
      forall f | f in g(i) ensures f !in g(j) {
        ContentInGap(d, gs[i], f);
        if f in g(j) {
          ContentInGap(d, gs[j], f);
        }
      }
    }
    ConcatOnce(|gs|, g);
    forall f: Anomaly | f in Concat(|gs|, g) ensures ContentKind(f.kind) {
      ConcatMember(|gs|, g, f);
      var i :| 0 <= i < |gs| && f in g(i);
      ContentInGap(d, gs[i], f);
    }
  }

  // ----- The whole run -----

  lemma RunReportsOnce(d: Disk, a: Analysis)
    requires IsAnalysis(d, a)
    ensures forall i, j :: 0 <= i < j < |a.anomalies| ==> a.anomalies[i] != a.anomalies[j]
  {
    hide IsAnalysis, TableFindings, ChainStageFindings, OverlapFindings, GapFindings, ContentFindings, ClaimsOf;
    FourEntries(d, a);
    PartitionsAscend(d, a);
    var t1, t2, t3 := TableFindings(d, a), ChainStageFindings(d, a), OverlapFindings(ClaimsOf(a.partitions));
    var t4, t5 := GapFindings(d, a.gaps), ContentFindings(d, a);
    TableStageOnce(d, a);
    ChainOnce(d, a);
    OverlapsOnce(a.partitions);
    GapStagesOnce(d, a);
    StagesInOrder(d, a);
    StagesOnce(t1, t2, t3, t4, t5);
  }

  lemma TableStageOnce(d: Disk, a: Analysis)
    requires |a.mbr.entries| == 4
    ensures NoRepeats(TableFindings(d, a))
    ensures forall f :: f in TableFindings(d, a) ==> TableKind(f.kind) && Subject(f.kind).0 && Subject(f.kind).1 < 4
  {
    hide PrimaryFindings, NoRepeats, TableKind, Subject;
    TableOnce(d, a.mbr.entries);
  }

  lemma GapStagesOnce(d: Disk, a: Analysis)
    requires IsAnalysis(d, a)
    ensures NoRepeats(GapFindings(d, a.gaps)) && NoRepeats(ContentFindings(d, a))
    ensures forall f :: f in GapFindings(d, a.gaps) ==> GapSpaceKind(f.kind)
    ensures forall f :: f in ContentFindings(d, a) ==> ContentKind(f.kind)
  {
    hide IsAnalysis, GapFindings, NoRepeats, Prepared, ExtentsOf, GapFits, Concat;
    if a.gaps != [] {
      SizeKnown(d, a, 0);
      RunGapList(d, a);
    }
    GapsOnce(d, a.gaps);
    ContentOnce(d, a.gaps);
  }

  lemma StagesInOrder(d: Disk, a: Analysis)
    requires IsAnalysis(d, a)
    ensures a.anomalies == TableFindings(d, a) + ChainStageFindings(d, a) + OverlapFindings(ClaimsOf(a.partitions))
                           + GapFindings(d, a.gaps) + ContentFindings(d, a)
  {
    hide TableFindings, ChainStageFindings, OverlapFindings, GapFindings, ContentFindings, IsChainOf, Partitions, GapsOf, ReadMbr;
  }

  lemma StagesOnce(t1: seq<Anomaly>, t2: seq<Anomaly>, t3: seq<Anomaly>, t4: seq<Anomaly>, t5: seq<Anomaly>)
    requires NoRepeats(t1) && NoRepeats(t2) && NoRepeats(t3) && NoRepeats(t4) && NoRepeats(t5)
    requires forall f :: f in t1 ==> TableKind(f.kind) && Subject(f.kind).0 && Subject(f.kind).1 < 4
    requires forall f :: f in t2 ==> ChainSide(f.kind)
    requires forall f :: f in t3 ==> f.kind.OverlappingPartitions?
    requires forall f :: f in t4 ==> GapSpaceKind(f.kind)
    requires forall f :: f in t5 ==> ContentKind(f.kind)
    ensures NoRepeats(t1 + t2 + t3 + t4 + t5)
  {
    hide NoRepeats;
    JoinOnce(t1, t2);
    JoinOnce(t1 + t2, t3);
    JoinOnce(t1 + t2 + t3, t4);
    JoinOnce(t1 + t2 + t3 + t4, t5);
  }
}
