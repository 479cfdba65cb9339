/** `analyse` of forensic/src/analyse.rs as a whole: what every run reports. */
module Pipeline {
  import opened Machine
  import opened Lists
  import opened Sorting
  import opened Partition
  import Mbr
  import opened Ebr
  import opened Gaps
  import opened Entropy
  import opened Powers
  import opened Findings
  import opened Overlaps
  import opened Stages
  import Carve
  import Wipe

  datatype Analysis = Analysis(
    mbr: Mbr.MbrSector, partitions: seq<PartitionSummary>, chain: EbrChain, gaps: seq<Gap>, anomalies: seq<Anomaly>)

  datatype AnalyseError = ReadFailed | BadSector(error: Mbr.ParseError)

  function ReadMbr(d: Disk): Result<Mbr.MbrSector, AnalyseError> {
    match ReadExact(d.dev, 0, Mbr.SECTOR_SIZE)
    case Data(raw) =>
      (match Mbr.Parse(raw)
       case Ok(m) => Ok(m)
       case Err(e) => Err(BadSector(e)))
    case _ => Err(ReadFailed)
  }

  /** Primaries in table order, then logicals in chain order. */
  function Partitions(d: Disk, es: seq<PartitionEntry>, chain: EbrChain): seq<PartitionSummary> {
    PrimarySummaries(d, es) + LogicalSummaries(d, chain.entries, |PrimarySummaries(d, es)|)
  }

  function ExtentsOf(ps: seq<PartitionSummary>): seq<Extent> {
    seq(|ps|, i requires 0 <= i < |ps| => Extent(ps[i].lbaStart, ps[i].lbaEnd))
  }

  /** What each stage adds to the findings, in stage order. */
  function TableFindings(d: Disk, a: Analysis): seq<Anomaly> { PrimaryFindings(d, a.mbr.entries) }

  function ChainStageFindings(d: Disk, a: Analysis): seq<Anomaly> {
    ExtendedFindings(d, a.mbr.entries, a.chain, |PrimarySummaries(d, a.mbr.entries)|)
  }

  function ContentFindings(d: Disk, a: Analysis): seq<Anomaly> { Concat(|a.gaps|, GapContentAt(d, a.gaps)) }

  /** The report that the image and the options determine. */
  ghost predicate IsAnalysis(d: Disk, a: Analysis) {
    && ReadMbr(d) == Ok(a.mbr)
    && IsChainOf(d, a.mbr.entries, a.chain)
    && a.partitions == Partitions(d, a.mbr.entries, a.chain)
    && a.gaps == GapsOf(d, ExtentsOf(a.partitions))
    && a.anomalies == TableFindings(d, a) + ChainStageFindings(d, a) + OverlapFindings(ClaimsOf(a.partitions))
                      + GapFindings(d, a.gaps) + ContentFindings(d, a)
  }

  method Analyse(d: Disk) returns (r: Result<Analysis, AnalyseError>)
    ensures r.Ok? ==> IsAnalysis(d, r.value)
    ensures r.Err? <==> ReadMbr(d).Err?
    ensures r.Err? ==> r.error == ReadMbr(d).error
  {
    hide *;
    var mbr := ReadMbr(d);
    if mbr.Err? {
      return Err(mbr.error);
    }
    var entries := mbr.value.entries;
    var findings := new Recorder();
    var scan := ScanPrimaryEntries(d, entries, findings);
    ghost var primaries := scan.summaries;
    var chain := WalkExtended(d, entries, scan, findings);
    var partitions := scan.summaries;
    IsPartitions(d, entries, chain, primaries, partitions);
    ValidIsAligned(scan);
    ScanFacts(d, entries, chain, partitions, scan.extents, scan.overlapExtents);
    CheckOverlaps(scan.overlapExtents, findings);
    var gaps := CheckGaps(d, scan.extents, findings);
    CheckGapContent(d, gaps, findings);
    var a := Analysis(mbr.value, partitions, chain, gaps, findings.anomalies);
    Assemble(d, a, primaries);
    r := Ok(a);
  }

  lemma ValidIsAligned(scan: PrimaryScan)
    requires scan.Valid()
    ensures Aligned(scan.summaries, scan.extents, scan.overlapExtents)
  {
  }

  lemma IsPartitions(d: Disk, es: seq<PartitionEntry>, chain: EbrChain,
                     primaries: seq<PartitionSummary>, ps: seq<PartitionSummary>)
    requires primaries == PrimarySummaries(d, es) && ps == primaries + LogicalSummaries(d, chain.entries, |primaries|)
    ensures ps == Partitions(d, es, chain)
  {
  }

  /** The stages in order make the report. */
  lemma Assemble(d: Disk, a: Analysis, primaries: seq<PartitionSummary>)
    requires ReadMbr(d) == Ok(a.mbr) && IsChainOf(d, a.mbr.entries, a.chain)
    requires a.partitions == Partitions(d, a.mbr.entries, a.chain) && a.gaps == GapsOf(d, ExtentsOf(a.partitions))
    requires primaries == PrimarySummaries(d, a.mbr.entries)
    requires a.anomalies == [] + PrimaryFindings(d, a.mbr.entries)
                            + ExtendedFindings(d, a.mbr.entries, a.chain, |primaries|)
                            + OverlapFindings(ClaimsOf(a.partitions)) + GapFindings(d, a.gaps)
                            + Concat(|a.gaps|, GapContentAt(d, a.gaps))
    ensures IsAnalysis(d, a)
  {
    hide PrimaryFindings, ExtendedFindings, OverlapFindings, GapFindings, Concat, GapsOf, IsChainOf, ReadMbr, Partitions;
    assert [] + PrimaryFindings(d, a.mbr.entries) == PrimaryFindings(d, a.mbr.entries);
  }

  /** The scan state after both scans: small extents, in the order of the summaries. */
  lemma ScanFacts(d: Disk, es: seq<PartitionEntry>, chain: EbrChain, ps: seq<PartitionSummary>,
                  extents: seq<Extent>, claims: seq<Claim>)
    requires IsChainOf(d, es, chain) && ps == Partitions(d, es, chain) && Aligned(ps, extents, claims)
    ensures extents == ExtentsOf(ps) && claims == ClaimsOf(ps) && ExtentsSmall(extents)
  {
    forall i | 0 <= i < |ps| ensures extents[i].Formed() && extents[i].start <= 3 * U32_MAX && extents[i].end <= 4 * U32_MAX {
      PartitionSmall(d, es, chain, ps[i]);
    }
  }

  /** A partition built from 32-bit fields: bounds, and byte figures that never saturated. */
  predicate IsSmall(d: Disk, p: PartitionSummary) {
    && p.lbaStart <= p.lbaEnd + 1 && p.lbaStart <= 3 * U32_MAX && p.lbaEnd <= 4 * U32_MAX
    && p.byteOffset == p.lbaStart * d.sectorSize && p.byteOffset <= U64_MAX
    && p.byteSize % d.sectorSize == 0 && p.byteSize / d.sectorSize <= U32_MAX
  }

  lemma ByteOfExact(d: Disk, lba: nat)
    requires lba <= 3 * U32_MAX
    ensures d.ByteOf(lba) == lba * d.sectorSize <= U64_MAX
    ensures d.ByteOf(lba) % d.sectorSize == 0 && d.ByteOf(lba) / d.sectorSize == lba
  {
    MulBound(lba, d.sectorSize, 3 * U32_MAX, MAX_SECTOR_SIZE);
    Digits(lba, 0, d.sectorSize);
  }

  lemma PartitionSmall(d: Disk, es: seq<PartitionEntry>, chain: EbrChain, p: PartitionSummary)
    requires IsChainOf(d, es, chain) && p in Partitions(d, es, chain)
    ensures IsSmall(d, p)
  {
    var base := |PrimarySummaries(d, es)|;
    if p in PrimarySummaries(d, es) {
      ConcatMember(|es|, SlotSummaryAt(d, es), p);
      var i :| 0 <= i < |es| && p in SlotSummaryAt(d, es)(i);
      SlotAt(d, es, i);
      ByteOfExact(d, es[i].lbaStart);
      ByteOfExact(d, es[i].lbaCount);
    } else {
      ConcatMember(|chain.entries|, LogicalSummaryAt(d, chain.entries, base), p);
      var i :| 0 <= i < |chain.entries| && p in LogicalSummaryAt(d, chain.entries, base)(i);
      LinkAt(d, chain.entries, base, i, EBR_INDEX_BASE + (base + i));
      ChainIsSmall(d, es, chain);
      LogicalSmall(d, chain.entries[i], EBR_INDEX_BASE + (base + i));
    }
  }

  lemma LogicalSmall(d: Disk, e: EbrEntry, index: nat)
    requires LinkSmall(e)
    ensures IsSmall(d, LogicalSummary(d, e, index))
  {
    ByteOfExact(d, e.logicalLbaStart);
    ByteOfExact(d, e.logical.lbaCount);
  }

  // ----- The report is a function of the image -----

  lemma AnalysisUnique(d: Disk, a: Analysis, b: Analysis)
    requires IsAnalysis(d, a) && IsAnalysis(d, b)
    ensures a == b
  {
    assert a.mbr == b.mbr;
    ChainUnique(d, a.mbr.entries, a.chain, b.chain);
  }

  lemma ChainUnique(d: Disk, es: seq<PartitionEntry>, c: EbrChain, c': EbrChain)
    requires IsChainOf(d, es, c) && IsChainOf(d, es, c')
    ensures c == c'
  {
    if FirstExtended(es).Some? {
      var img := ImageAt(d, FirstExtended(es).value);
      var r, p :| img.Describes(r, p) && c == if r.Ok? then r.value else EmptyChain();
      var r', p' :| img.Describes(r', p') && c' == if r'.Ok? then r'.value else EmptyChain();
      WalkDeterministic(img, r, p, r', p');
    }
  }

  // ----- Partition numbering -----

  function IndexKey(): PartitionSummary -> int { (p: PartitionSummary) => p.index }

  lemma PrimaryIndex(d: Disk, es: seq<PartitionEntry>, p: PartitionSummary)
    requires p in PrimarySummaries(d, es)
    ensures p.index < |es| && es[p.index].typeCode != 0 && p == PrimarySummary(d, es[p.index], p.index)
  {
    ConcatMember(|es|, SlotSummaryAt(d, es), p);
    var i :| 0 <= i < |es| && p in SlotSummaryAt(d, es)(i);
    SlotAt(d, es, i);
  }

  lemma LogicalIndex(d: Disk, es: seq<EbrEntry>, base: nat, p: PartitionSummary)
    requires p in LogicalSummaries(d, es, base)
    ensures exists i :: 0 <= i < |es| && p == LogicalSummary(d, es[i], EBR_INDEX_BASE + (base + i))
    ensures p.index >= EBR_INDEX_BASE
  {
    ConcatMember(|es|, LogicalSummaryAt(d, es, base), p);
    var i :| 0 <= i < |es| && p in LogicalSummaryAt(d, es, base)(i);
    LinkAt(d, es, base, i, EBR_INDEX_BASE + (base + i));
    assert p == LogicalSummary(d, es[i], EBR_INDEX_BASE + (base + i));
  }

  lemma PrimariesAscend(d: Disk, es: seq<PartitionEntry>)
    ensures StrictBy(PrimarySummaries(d, es), IndexKey())
  {
    var f := SlotSummaryAt(d, es);
    forall i | 0 <= i < |es| ensures |f(i)| <= 1 && (f(i) != [] ==> f(i)[0].index == i) { SlotAt(d, es, i); }
    ConcatAscends(|es|, f, IndexKey());
  }

  lemma LogicalsAscend(d: Disk, es: seq<EbrEntry>, base: nat)
    ensures StrictBy(LogicalSummaries(d, es, base), IndexKey())
  {
    var f := LogicalSummaryAt(d, es, base);
    forall i | 0 <= i < |es| ensures |f(i)| <= 1 && (f(i) != [] ==> f(i)[0].index == EBR_INDEX_BASE + (base + i)) {
      LinkAt(d, es, base, i, EBR_INDEX_BASE + (base + i));
    }
    ConcatAscends(|es|, f, IndexKey());
  }

  /** Indices strictly increase from primaries through logicals, so an index names one partition. */
  lemma PartitionsAscend(d: Disk, a: Analysis)
    requires IsAnalysis(d, a)
    ensures StrictBy(a.partitions, IndexKey())
    ensures forall i, j :: 0 <= i < j < |a.partitions| ==> a.partitions[i].index < a.partitions[j].index
  {
    hide IsChainOf, GapsOf, PrimarySummaries, LogicalSummaries, OverlapFindings, GapFindings, PrimarySummary, LogicalSummary;
    var es, key := a.mbr.entries, IndexKey();
    var ps := PrimarySummaries(d, es);
    var ls := LogicalSummaries(d, a.chain.entries, |ps|);
    assert |es| == 4;
    PrimariesAscend(d, es);
    LogicalsAscend(d, a.chain.entries, |ps|);
    forall i, j | 0 <= i < |ps| && 0 <= j < |ls| ensures ps[i].index < ls[j].index {
      PrimaryIndex(d, es, ps[i]);
      LogicalIndex(d, a.chain.entries, |ps|, ls[j]);
    }
    AscendJoin(ps, ls, a.partitions, key);
  }

  lemma AscendJoin(s: seq<PartitionSummary>, t: seq<PartitionSummary>, u: seq<PartitionSummary>, key: PartitionSummary -> int)
    requires u == s + t && key == IndexKey() && StrictBy(s, key) && StrictBy(t, key)
    requires forall i, j :: 0 <= i < |s| && 0 <= j < |t| ==> s[i].index < t[j].index
    ensures StrictBy(u, key) && forall i, j :: 0 <= i < j < |u| ==> u[i].index < u[j].index
  {
    forall i, j | 0 <= i < j < |u| ensures key(u[i]) < key(u[j]) {
      if j < |s| { assert key(s[i]) < key(s[j]); }
      else if i >= |s| { assert key(t[i - |s|]) < key(t[j - |s|]); }
    }
    forall i, j | 0 <= i < j < |u| ensures u[i].index < u[j].index { assert key(u[i]) < key(u[j]); }
  }

  /** A slot has a partition iff its type is not 0, and the k-th link has the k-th logical. */
  lemma PartitionsComplete(d: Disk, a: Analysis)
    requires IsAnalysis(d, a)
    ensures forall i :: 0 <= i < 4 ==>
              (a.mbr.entries[i].typeCode != 0 <==> exists p :: p in a.partitions && p.index == i)
    ensures var base := |PrimarySummaries(d, a.mbr.entries)|;
            && |a.partitions| == base + |a.chain.entries|
            && forall k :: 0 <= k < |a.chain.entries| ==>
                 a.partitions[base + k] == LogicalSummary(d, a.chain.entries[k], EBR_INDEX_BASE + (base + k))
  {
    hide GapsOf, IsChainOf, OverlapFindings, GapFindings, PrimaryFindings, ExtendedFindings, LogicalSummary,
         Partitions, PrimarySummaries, ContentFindings;
    var es := a.mbr.entries;
    forall i | 0 <= i < 4 ensures es[i].typeCode != 0 <==> exists p :: p in a.partitions && p.index == i {
      SlotHasPartition(d, es, a.chain, i);
    }
    LogicalPartitions(d, es, a.chain);
  }

  lemma LogicalPartitions(d: Disk, es: seq<PartitionEntry>, chain: EbrChain)
    ensures var ps, base := Partitions(d, es, chain), |PrimarySummaries(d, es)|;
            && |ps| == base + |chain.entries|
            && forall k :: 0 <= k < |chain.entries| ==>
                 ps[base + k] == LogicalSummary(d, chain.entries[k], EBR_INDEX_BASE + (base + k))
  {
    hide LogicalSummary, PrimarySummaries, LogicalSummaryAt, Concat;
    var prims := PrimarySummaries(d, es);
    var logicals := LogicalSummaries(d, chain.entries, |prims|);
    LogicalPlaces(d, chain.entries, |prims|, |chain.entries|);
    assert forall k :: 0 <= k < |logicals| ==> (prims + logicals)[|prims| + k] == logicals[k];
  }

  lemma SlotHasPartition(d: Disk, es: seq<PartitionEntry>, chain: EbrChain, i: nat)
    requires |es| == 4 && i < 4
    ensures es[i].typeCode != 0 <==> exists p :: p in Partitions(d, es, chain) && p.index == i
  {
    hide PrimarySummary, LogicalSummary;
    SlotAt(d, es, i);
    if es[i].typeCode != 0 {
      var p := PrimarySummary(d, es[i], i);
      ConcatMember(4, SlotSummaryAt(d, es), p);
      assert p in SlotSummaryAt(d, es)(i);
      assert p in Partitions(d, es, chain) && p.index == i by { SummaryIndex(d, es[i], i); }
    }
    forall p | p in Partitions(d, es, chain) && p.index == i ensures es[i].typeCode != 0 {
      if p in PrimarySummaries(d, es) { PrimaryIndex(d, es, p); }
      else { LogicalIndex(d, chain.entries, |PrimarySummaries(d, es)|, p); }
    }
  }

  lemma SummaryIndex(d: Disk, e: PartitionEntry, i: nat)
    ensures PrimarySummary(d, e, i).index == i
  {
  }

  lemma {:induction false} LogicalPlaces(d: Disk, es: seq<EbrEntry>, base: nat, n: nat)
    requires n <= |es|
    ensures var s := Concat(n, LogicalSummaryAt(d, es, base));
            |s| == n && forall k :: 0 <= k < n ==> s[k] == LogicalSummary(d, es[k], EBR_INDEX_BASE + (base + k))
  {
    hide LogicalSummary;
    if n > 0 {
      LogicalPlaces(d, es, base, n - 1);
      LinkAt(d, es, base, n - 1, EBR_INDEX_BASE + (base + (n - 1)));
    }
  }

  /** Claims are the data partitions, and an id names one claim. */
  lemma ClaimsFacts(ps: seq<PartitionSummary>)
    requires StrictBy(ps, IndexKey())
    ensures forall c :: c in ClaimsOf(ps) <==> exists i :: 0 <= i < |ps| && IsData(ps[i]) && c == ClaimOf(ps[i])
    ensures forall i, j :: 0 <= i < j < |ClaimsOf(ps)| ==> ClaimsOf(ps)[i].id != ClaimsOf(ps)[j].id
  {
    var f, key := ClaimAt(ps), (c: Claim) => c.id;
    forall i | 0 <= i < |ps| ensures |f(i)| <= 1 && (f(i) != [] ==> f(i) == [ClaimOf(ps[i])] && IsData(ps[i])) {}
    forall i, j | 0 <= i < j < |ps| && f(i) != [] && f(j) != [] ensures key(f(i)[0]) < key(f(j)[0]) {
      assert IndexKey()(ps[i]) < IndexKey()(ps[j]);
    }
    ConcatAscends(|ps|, f, key);
    var cs := ClaimsOf(ps);
    forall i, j | 0 <= i < j < |cs| ensures cs[i].id != cs[j].id { assert key(cs[i]) < key(cs[j]); }
    forall c ensures c in cs <==> exists i :: 0 <= i < |ps| && IsData(ps[i]) && c == ClaimOf(ps[i]) {
      ConcatMember(|ps|, f, c);
    }
  }

  // ----- Which stage records what -----

  predicate TableKind(k: AnomalyKind) {
    k.ResidualEntry? || k.InvalidPartitionStatus? || k.ChsLbaInconsistency? || k.OutOfBounds? || VolumeKind(k)
  }

  predicate VolumeKind(k: AnomalyKind) { k.VbrHiddenSectorsMismatch? || k.SignatureMismatch? }

  predicate ChainKind(k: AnomalyKind) { k.EbrCycle? || k.EbrExcessiveDepth? || k.EbrSlackData? || VolumeKind(k) }

  predicate GapSpaceKind(k: AnomalyKind) { k.PrePartitionSpace? || k.InterPartitionGap? || k.PostPartitionSpace? }

  predicate ContentKind(k: AnomalyKind) { k.WipedRegion? || k.CarvedArtifact? }

  /** Built by `Anomaly::new`, so with the severity of its kind. */
  predicate IsDerived(f: Anomaly) { f == NewAnomaly(f.kind, f.offset) }

  lemma TableKinds(d: Disk, a: Analysis, f: Anomaly)
    requires f in TableFindings(d, a)
    ensures IsDerived(f) && TableKind(f.kind)
  {
    hide SlotFindings;
    var es := a.mbr.entries;
    ConcatMember(|es|, SlotFindingsAt(d, es), f);
    var i :| 0 <= i < |es| && f in SlotFindingsAt(d, es)(i);
    SlotAt(d, es, i);
    SlotKinds(d, es[i], i, f);
  }

  lemma SlotKinds(d: Disk, e: PartitionEntry, i: nat, f: Anomaly)
    requires f in SlotFindings(d, e, i)
    ensures IsDerived(f) && TableKind(f.kind)
  {
    hide ChsContradicts, DiskOptions.ByteOf, DiskOptions.LastLba, DiskOptions.DetectedFs;
  }

  /** `f` reports the slack of link `e`. */
  predicate IsSlackOf(f: Anomaly, e: EbrEntry) {
    e.hasSlack && f == NewAnomaly(EbrSlackData(e.ebrLba, EntropyOf(e.slack)), e.ebrOffset + 478)
  }

  /** A chain finding is a flag of the chain or about one link. */
  lemma ChainKinds(d: Disk, a: Analysis, f: Anomaly)
    requires f in ChainStageFindings(d, a)
    ensures IsDerived(f) && ChainKind(f.kind)
    ensures f.kind.EbrCycle? ==> a.chain.hadCycle
    ensures f.kind.EbrExcessiveDepth? ==> a.chain.depthExceeded
    ensures f.kind.EbrSlackData? ==> exists i :: 0 <= i < |a.chain.entries| && IsSlackOf(f, a.chain.entries[i])
  {
    hide LinkFindings, IsSlackOf, PrimarySummaries, DiskOptions.ByteOf, Concat;
    var es, base := a.chain.entries, |PrimarySummaries(d, a.mbr.entries)|;
    var g := LinkFindingsAt(d, es, base);
    if f in Concat(|es|, g) {
      ConcatMember(|es|, g, f);
      var i :| 0 <= i < |es| && f in g(i);
      LinkAt(d, es, base, i, EBR_INDEX_BASE + (base + i));
      LinkKinds(d, es[i], EBR_INDEX_BASE + (base + i), f);
    }
  }

  lemma LinkKinds(d: Disk, e: EbrEntry, index: nat, f: Anomaly)
    requires f in LinkFindings(d, e, index)
    ensures IsDerived(f) && ((f.kind.EbrSlackData? && IsSlackOf(f, e)) || VolumeKind(f.kind))
  {
    hide DiskOptions.ByteOf, DiskOptions.DetectedFs, EntropyOf;
  }

  lemma GapKinds(d: Disk, a: Analysis, f: Anomaly)
    requires f in GapFindings(d, a.gaps)
    ensures IsDerived(f) && GapSpaceKind(f.kind)
    ensures exists i :: 0 <= i < |a.gaps| && f == NewAnomaly(GapKindOf(a.gaps[i]), d.ByteOf(a.gaps[i].lbaStart))
  {
    ConcatMember(|a.gaps|, GapFindingAt(d, a.gaps), f);
    var i :| 0 <= i < |a.gaps| && f in GapFindingAt(d, a.gaps)(i);
    GapAt(d, a.gaps, i);
  }

  lemma ContentKinds(d: Disk, a: Analysis, f: Anomaly)
    requires f in ContentFindings(d, a)
    ensures IsDerived(f) && ContentKind(f.kind)
  {
    ConcatMember(|a.gaps|, GapContentAt(d, a.gaps), f);
    var i :| 0 <= i < |a.gaps| && f in GapContentAt(d, a.gaps)(i);
    SampleKinds(d, a.gaps[i], f);
  }

  lemma SampleKinds(d: Disk, g: Gap, f: Anomaly)
    requires f in GapContent(d, g)
    ensures IsDerived(f) && ContentKind(f.kind)
  {
    var offset := d.ByteOf(g.lbaStart);
    var sample := ReadExact(d.dev, offset, SampleLen(g)).bytes;
    var cs := Carve.Carving(sample, offset);
    if f in CarvedFindings(cs) {
      ConcatMember(|cs|, CarvedFindingAt(cs), f);
    }
  }

  lemma OverlapKinds(claims: seq<Claim>, f: Anomaly)
    requires f in OverlapFindings(claims)
    ensures IsDerived(f) && f.kind.OverlappingPartitions?
  {
    SortLength(claims, StartKey());
    FindingIsPair(SortByKey(claims, StartKey()), |claims| - 1, f);
  }

  /** Every finding of a run, by the stage its kind belongs to. */
  lemma StageOf(d: Disk, a: Analysis, f: Anomaly)
    requires IsAnalysis(d, a)
    ensures f in a.anomalies && f.kind.OverlappingPartitions? <==> f in OverlapFindings(ClaimsOf(a.partitions))
    ensures f in a.anomalies && GapSpaceKind(f.kind) <==> f in GapFindings(d, a.gaps)
    ensures f in a.anomalies && (f.kind.EbrCycle? || f.kind.EbrExcessiveDepth? || f.kind.EbrSlackData?) ==>
              f in ChainStageFindings(d, a)
    ensures f in a.anomalies ==> IsDerived(f)
  {
    hide IsChainOf, Partitions, GapsOf, PrimaryFindings, OverlapFindings, GapFindings, ExtendedFindings, Concat;
    if f in TableFindings(d, a) { TableKinds(d, a, f); }
    if f in ChainStageFindings(d, a) { ChainKinds(d, a, f); }
    if f in OverlapFindings(ClaimsOf(a.partitions)) { OverlapKinds(ClaimsOf(a.partitions), f); }
    if f in GapFindings(d, a.gaps) { GapKinds(d, a, f); }
    if f in ContentFindings(d, a) { ContentKinds(d, a, f); }
  }

  // ----- Overlaps -----

  /** Exactly one partition has this index, and it is `p`. */
  ghost predicate IsThe(ps: seq<PartitionSummary>, index: nat, p: PartitionSummary) {
    p in ps && p.index == index && forall i :: 0 <= i < |ps| && ps[i].index == index ==> ps[i] == p
  }

  lemma IndexNamesOne(ps: seq<PartitionSummary>, p: PartitionSummary)
    requires p in ps && forall i, j :: 0 <= i < j < |ps| ==> ps[i].index < ps[j].index
    ensures IsThe(ps, p.index, p)
  {
    var k :| 0 <= k < |ps| && ps[k] == p;
    forall i | 0 <= i < |ps| && ps[i].index == p.index ensures ps[i] == p { assert i < k || k < i || i == k; }
  }

  /** Every overlap finding names two different data partitions, each with exactly one summary, and
      tells their ends truly; the LBA it gives lies in the first, and in the second unless that is
      empty. */
  lemma OverlapFindingTruthful(d: Disk, a: Analysis, f: Anomaly)
    requires IsAnalysis(d, a) && f in a.anomalies && f.kind.OverlappingPartitions?
    ensures f.kind.a != f.kind.b && f.severity == Critical
    ensures exists p, q :: IsThe(a.partitions, f.kind.a, p) && IsThe(a.partitions, f.kind.b, q)
                           && IsData(p) && IsData(q) && IsAbout(f.kind, ClaimOf(p), ClaimOf(q))
  {
    hide IsAnalysis, OverlapFindings, ClaimsOf, IsAbout;
    var ps := a.partitions;
    StageOf(d, a, f);
    PartitionsAscend(d, a);
    ClaimsFacts(ps);
    FindingNamesTwo(ClaimsOf(ps), f);
    var x, y :| x in ClaimsOf(ps) && y in ClaimsOf(ps) && IsAbout(f.kind, x, y);
    var i :| 0 <= i < |ps| && IsData(ps[i]) && x == ClaimOf(ps[i]);
    var j :| 0 <= j < |ps| && IsData(ps[j]) && y == ClaimOf(ps[j]);
    AboutIds(f.kind, x, y);
    IndexNamesOne(ps, ps[i]);
    IndexNamesOne(ps, ps[j]);
    assert IsThe(ps, f.kind.a, ps[i]) && IsThe(ps, f.kind.b, ps[j]);
  }

  lemma AboutIds(k: AnomalyKind, x: Claim, y: Claim)
    requires IsAbout(k, x, y)
    ensures k.OverlappingPartitions? && k.a == x.id && k.b == y.id
  {
  }

  ghost predicate ReportsOverlap(a: Analysis) {
    exists f :: f in a.anomalies && f.kind.OverlappingPartitions?
  }

  /** Two data partitions share an LBA. */
  ghost predicate DataSharesLba(p: PartitionSummary, q: PartitionSummary) {
    IsData(p) && IsData(q) && exists x: int :: ClaimOf(p).Holds(x) && ClaimOf(q).Holds(x)
  }

  /** A run reports an overlap iff a data partition starts inside one that sorts before it; if no
      data partition is empty, iff two of them share an LBA; and it never misses a shared LBA. */
  lemma OverlapReportedIff(d: Disk, a: Analysis)
    requires IsAnalysis(d, a)
    ensures ReportsOverlap(a) <==> !NoneStartsInside(ClaimsOf(a.partitions))
    ensures forall i, j :: 0 <= i < j < |a.partitions| && DataSharesLba(a.partitions[i], a.partitions[j]) ==> ReportsOverlap(a)
    ensures (forall i :: 0 <= i < |a.partitions| && IsData(a.partitions[i]) ==> ClaimOf(a.partitions[i]).NonEmpty()) ==>
              (ReportsOverlap(a) <==> !PairwiseDisjoint(ClaimsOf(a.partitions)))
  {
    hide IsAnalysis, OverlapFindings, ClaimsOf, NoneStartsInside, PairwiseDisjoint;
    var ps := a.partitions;
    var cs := ClaimsOf(ps);
    PartitionsAscend(d, a);
    ClaimsFacts(ps);
    ReportedIsRecorded(d, a);
    SilentIff(cs);
    SilentMeansDisjoint(cs);
    forall i, j | 0 <= i < j < |ps| && DataSharesLba(ps[i], ps[j])
      ensures !PairwiseDisjoint(cs)
    {
      SharedMeansNotDisjoint(cs, ClaimOf(ps[i]), ClaimOf(ps[j]));
    }
    if forall i :: 0 <= i < |ps| && IsData(ps[i]) ==> ClaimOf(ps[i]).NonEmpty() {
      forall k | 0 <= k < |cs| ensures cs[k].NonEmpty() { assert cs[k] in cs; }
    }
  }

  lemma SharedMeansNotDisjoint(cs: seq<Claim>, x: Claim, y: Claim)
    requires x in cs && y in cs && x.id != y.id && exists l: int :: x.Holds(l) && y.Holds(l)
    ensures !PairwiseDisjoint(cs)
  {
    var i :| 0 <= i < |cs| && cs[i] == x;
    var j :| 0 <= j < |cs| && cs[j] == y;
    var l: int :| x.Holds(l) && y.Holds(l);
    assert i < j || j < i;
    assert cs[i].Holds(l) && cs[j].Holds(l);
  }

  lemma ReportedIsRecorded(d: Disk, a: Analysis)
    requires IsAnalysis(d, a)
    ensures ReportsOverlap(a) <==> OverlapFindings(ClaimsOf(a.partitions)) != []
  {
    hide IsAnalysis, OverlapFindings, ClaimsOf;
    var o := OverlapFindings(ClaimsOf(a.partitions));
    if ReportsOverlap(a) {
      var f :| f in a.anomalies && f.kind.OverlappingPartitions?;
      StageOf(d, a, f);
    }
    if o != [] {
      assert o[0] in o;
      StageOf(d, a, o[0]);
    }
  }

  /** A run names every overlapping pair of data partitions exactly when none of them reaches the
      second start after its own; then in particular every pair that shares an LBA is named. */
  lemma RunOverlapsNamedIff(d: Disk, a: Analysis)
    requires IsAnalysis(d, a)
    ensures var s := SortByKey(ClaimsOf(a.partitions), StartKey());
            && (NamesEveryOverlap(a.anomalies, s) <==> NoneReachesTwo(s))
            && (NoneReachesTwo(s) ==>
                  forall i, j :: 0 <= i < j < |a.partitions| && DataSharesLba(a.partitions[i], a.partitions[j]) ==>
                    NamedEitherWay(a.anomalies, a.partitions[i].index, a.partitions[j].index))
  {
    hide IsAnalysis, OverlapFindings, ClaimsOf, NamesEveryOverlap, NoneReachesTwo, SortByKey, Names, StrictBy, NamedEitherWay;
    var ps, cs := a.partitions, ClaimsOf(a.partitions);
    var s := SortByKey(cs, StartKey());
    PartitionsAscend(d, a);
    ClaimsFacts(ps);
    EveryOverlapNamedIff(cs);
    forall i, j ensures Names(a.anomalies, i, j) <==> Names(OverlapFindings(cs), i, j) { SameNames(d, a, i, j); }
    SameNamed(a.anomalies, OverlapFindings(cs), s);
    if NoneReachesTwo(s) {
      forall i, j | 0 <= i < j < |ps| && DataSharesLba(ps[i], ps[j])
        ensures NamedEitherWay(a.anomalies, ps[i].index, ps[j].index)
      {
        SharedNamed(a.anomalies, cs, ClaimOf(ps[i]), ClaimOf(ps[j]));
      }
    }
  }

  ghost predicate NamedEitherWay(fs: seq<Anomaly>, i: nat, j: nat) { Names(fs, i, j) || Names(fs, j, i) }

  lemma SameNames(d: Disk, a: Analysis, i: nat, j: nat)
    requires IsAnalysis(d, a)
    ensures Names(a.anomalies, i, j) <==> Names(OverlapFindings(ClaimsOf(a.partitions)), i, j)
  {
    hide IsAnalysis, OverlapFindings, ClaimsOf;
    var o := OverlapFindings(ClaimsOf(a.partitions));
    forall f: Anomaly | f.kind.OverlappingPartitions? ensures f in a.anomalies <==> f in o { StageOf(d, a, f); }
  }

  lemma SameNamed(fs: seq<Anomaly>, gs: seq<Anomaly>, s: seq<Claim>)
    requires forall i, j :: Names(fs, i, j) <==> Names(gs, i, j)
    ensures NamesEveryOverlap(fs, s) <==> NamesEveryOverlap(gs, s)
  {
    hide Names;
  }

  lemma SharedNamed(fs: seq<Anomaly>, cs: seq<Claim>, x: Claim, y: Claim)
    requires x in cs && y in cs && x.id != y.id && exists l: int :: x.Holds(l) && y.Holds(l)
    requires NamesEveryOverlap(fs, SortByKey(cs, StartKey()))
    ensures NamedEitherWay(fs, x.id, y.id)
  {
    hide Names, SortByKey;
    var s := SortByKey(cs, StartKey());
    SortMember(cs, StartKey(), x);
    SortMember(cs, StartKey(), y);
    var i :| 0 <= i < |s| && s[i] == x;
    var j :| 0 <= j < |s| && s[j] == y;
    var l: int :| x.Holds(l) && y.Holds(l);
    assert i < j || j < i;
  }

  // ----- Gaps -----

  ghost predicate PartitionCovers(ps: seq<PartitionSummary>, x: int) {
    exists i :: 0 <= i < |ps| && ps[i].lbaStart <= x <= ps[i].lbaEnd
  }

  lemma CoverIsPartitions(ps: seq<PartitionSummary>, x: int)
    ensures Covered(Prepared(ExtentsOf(ps)), x) <==> PartitionCovers(ps, x)
  {
    var es := ExtentsOf(ps);
    PreparedFacts(es);
    if Covered(es, x) {
      var i :| 0 <= i < |es| && es[i].Holds(x);
      assert ps[i].lbaStart <= x <= ps[i].lbaEnd;
    }
    if PartitionCovers(ps, x) {
      var i :| 0 <= i < |ps| && ps[i].lbaStart <= x <= ps[i].lbaEnd;
      assert es[i].Holds(x);
    }
  }

  lemma RunExtentsSmall(d: Disk, a: Analysis)
    requires IsAnalysis(d, a)
    ensures ExtentsSmall(ExtentsOf(a.partitions))
  {
    hide *;
    RunPartitionsSmall(d, a);
    SmallExtents(d, a.partitions);
  }

  lemma RunPartitionsSmall(d: Disk, a: Analysis)
    requires IsAnalysis(d, a)
    ensures forall i :: 0 <= i < |a.partitions| ==> IsSmall(d, a.partitions[i])
  {
    hide IsSmall, Partitions, IsChainOf, GapsOf;
    forall i | 0 <= i < |a.partitions| ensures IsSmall(d, a.partitions[i]) {
      PartitionSmall(d, a.mbr.entries, a.chain, a.partitions[i]);
    }
  }

  lemma SmallExtents(d: Disk, ps: seq<PartitionSummary>)
    requires forall i :: 0 <= i < |ps| ==> IsSmall(d, ps[i])
    ensures ExtentsSmall(ExtentsOf(ps))
  {
  }

  /** The gaps of a run with known size: the gap list of the prepared extents. */
  lemma RunGapList(d: Disk, a: Analysis)
    requires IsAnalysis(d, a) && d.size > 0
    ensures IsGapList(a.gaps, Prepared(ExtentsOf(a.partitions)), 1, d.LastLba(), Scale(d.sectorSize))
    ensures AllFit(a.gaps, d.sectorSize)
  {
    RunExtentsSmall(d, a);
    GapsFit(d, ExtentsOf(a.partitions));
  }

  /** Every LBA of the disk after the boot sector lies in the reported range of a partition and in no
      gap, or in none and in exactly one gap; on the disk is a sector that ends within its size. */
  lemma RunGapsExact(d: Disk, a: Analysis, x: int)
    requires IsAnalysis(d, a) && x >= 1 && (x + 1) * d.sectorSize <= d.size
    ensures PartitionCovers(a.partitions, x) ==> forall i :: 0 <= i < |a.gaps| ==> !a.gaps[i].Holds(x)
    ensures !PartitionCovers(a.partitions, x) ==>
              exists i :: 0 <= i < |a.gaps| && a.gaps[i].Holds(x)
                          && forall j :: 0 <= j < |a.gaps| && a.gaps[j].Holds(x) ==> j == i
  {
    hide IsAnalysis, IsGapList, Prepared, ExtentsOf;
    MulMonotone(1, x + 1, d.sectorSize);
    LastLbaMeans(d, x);
    RunGapList(d, a);
    CoverIsPartitions(a.partitions, x);
    GapsAreComplement(a.gaps, Prepared(ExtentsOf(a.partitions)), 1, d.LastLba(), Scale(d.sectorSize), x);
  }

  ghost predicate PartitionAbove(ps: seq<PartitionSummary>, x: int) {
    exists i :: 0 <= i < |ps| && ps[i].lbaStart > x
  }

  lemma AboveIsPartitions(ps: seq<PartitionSummary>, x: int)
    ensures StartsAbove(Prepared(ExtentsOf(ps)), x) <==> PartitionAbove(ps, x)
  {
    var es := ExtentsOf(ps);
    PreparedFacts(es);
    if StartsAbove(es, x) {
      var i :| 0 <= i < |es| && es[i].start > x;
      assert ps[i].lbaStart > x;
    }
    if PartitionAbove(ps, x) {
      var i :| 0 <= i < |ps| && ps[i].lbaStart > x;
      assert es[i].start > x;
    }
  }

  /** Every gap of a run lies on the disk exactly when the partitions cover whatever lies between the
      end of the disk and the highest partition start. */
  lemma RunGapsOnDiskIff(d: Disk, a: Analysis)
    requires IsAnalysis(d, a) && d.size > 0
    ensures AllOnDisk(a.gaps, d.LastLba()) <==>
            forall x :: 1 <= x && d.LastLba() < x && PartitionAbove(a.partitions, x) ==> PartitionCovers(a.partitions, x)
  {
    hide IsAnalysis, IsGapList, Prepared, ExtentsOf, PartitionCovers, PartitionAbove, Covered, StartsAbove, AllOnDisk;
    var t := Prepared(ExtentsOf(a.partitions));
    RunGapList(d, a);
    GapsStayOnDisk(a.gaps, t, 1, d.LastLba(), Scale(d.sectorSize));
    forall x ensures Covered(t, x) <==> PartitionCovers(a.partitions, x)
             ensures StartsAbove(t, x) <==> PartitionAbove(a.partitions, x) {
      CoverIsPartitions(a.partitions, x);
      AboveIsPartitions(a.partitions, x);
    }
  }

  ghost predicate AllOnDiskPartitions(d: Disk, ps: seq<PartitionSummary>) {
    forall i :: 0 <= i < |ps| ==> ps[i].lbaStart <= ps[i].lbaEnd && ps[i].lbaStart <= d.LastLba()
  }

  lemma PreparedOnDisk(d: Disk, ps: seq<PartitionSummary>)
    requires AllOnDiskPartitions(d, ps)
    ensures OnDisk(Prepared(ExtentsOf(ps)), d.LastLba())
  {
    var es := ExtentsOf(ps);
    var t := Prepared(es);
    PreparedFacts(es);
    forall i | 0 <= i < |t| ensures t[i].NonEmpty() && t[i].start <= d.LastLba() {
      assert t[i] in t;
      var k :| 0 <= k < |es| && es[k] == t[i];
    }
  }

  /** Two images of one size and sector size whose partitions, all non-empty and starting on the
      disk, cover the same LBAs have the same gaps: neither order, nor duplicates, nor a logical
      inside its container matters. */
  lemma RunGapsCanonical(d: Disk, a: Analysis, d': Disk, a': Analysis)
    requires IsAnalysis(d, a) && IsAnalysis(d', a') && d.size == d'.size > 0 && d.sectorSize == d'.sectorSize
    requires AllOnDiskPartitions(d, a.partitions) && AllOnDiskPartitions(d', a'.partitions)
    requires forall x :: 1 <= x <= d.LastLba() ==> (PartitionCovers(a.partitions, x) <==> PartitionCovers(a'.partitions, x))
    ensures a.gaps == a'.gaps
  {
    hide IsAnalysis, IsGapList, Prepared, ExtentsOf, PartitionCovers, Covered;
    RunGapList(d, a);
    RunGapList(d', a');
    PreparedOnDisk(d, a.partitions);
    PreparedOnDisk(d', a'.partitions);
    var t, t' := Prepared(ExtentsOf(a.partitions)), Prepared(ExtentsOf(a'.partitions));
    forall x | 1 <= x <= d.LastLba() ensures Covered(t, x) <==> Covered(t', x) {
      CoverIsPartitions(a.partitions, x);
      CoverIsPartitions(a'.partitions, x);
    }
    GapListCanonical(a.gaps, a'.gaps, t, t', 1, d.LastLba(), Scale(d.sectorSize));
  }

  /** Gap sectors and partitioned sectors together are the disk after the boot sector, when no
      partition starts past the LBA after the last. */
  lemma RunSectorsConserved(d: Disk, a: Analysis)
    requires IsAnalysis(d, a) && d.size > 0
    requires forall i :: 0 <= i < |a.partitions| ==> a.partitions[i].lbaStart <= d.LastLba() + 1
    ensures InOrder(a.gaps)
    ensures TotalSectors(a.gaps) + Count(PartitionCover(a.partitions), 1, d.LastLba() + 1) == d.LastLba()
  {
    hide IsAnalysis, PartitionCovers, Covered, Count, Prepared, ExtentsOf;
    var ps := a.partitions;
    var t := Prepared(ExtentsOf(ps));
    RunGapList(d, a);
    PreparedStarts(ps, d.LastLba() + 1);
    SectorsConserved(a.gaps, t, 1, d.LastLba(), Scale(d.sectorSize));
    SameCount(ps, 1, d.LastLba() + 1);
  }

  lemma PreparedStarts(ps: seq<PartitionSummary>, top: int)
    requires forall i :: 0 <= i < |ps| ==> ps[i].lbaStart <= top
    ensures var t := Prepared(ExtentsOf(ps)); forall i :: 0 <= i < |t| ==> t[i].start <= top
  {
    var es := ExtentsOf(ps);
    var t := Prepared(es);
    PreparedFacts(es);
    forall i | 0 <= i < |t| ensures t[i].start <= top {
      assert t[i] in t;
      var k :| 0 <= k < |es| && es[k] == t[i];
    }
  }

  lemma SameCount(ps: seq<PartitionSummary>, lo: int, hi: int)
    ensures Count(x => Covered(Prepared(ExtentsOf(ps)), x), lo, hi) == Count(PartitionCover(ps), lo, hi)
  {
    hide Prepared, ExtentsOf, Covered, PartitionCovers;
    var t := Prepared(ExtentsOf(ps));
    forall x ensures Covered(t, x) <==> PartitionCover(ps)(x) { CoverIsPartitions(ps, x); }
    CountSplit(x => Covered(t, x), PartitionCover(ps), x => false, lo, hi);
    CountInterval(x => false, lo, lo - 1, lo, hi);
  }

  ghost function PartitionCover(ps: seq<PartitionSummary>): int -> bool { (x: int) => PartitionCovers(ps, x) }

  /** `f` reports gap `g`: its bounds, bytes and offset. */
  predicate IsGapFinding(d: Disk, g: Gap, f: Anomaly) {
    var bytes := (g.lbaEnd - g.lbaStart + 1) * d.sectorSize;
    && f == NewAnomaly(f.kind, f.offset) && f.offset == g.lbaStart * d.sectorSize
    && match f.kind
       case PrePartitionSpace(start, end, size) =>
         g.kind == PrePartition && start == g.lbaStart && end == g.lbaEnd && size == bytes
       case InterPartitionGap(start, end, size) =>
         g.kind == Between && start == g.lbaStart && end == g.lbaEnd && size == bytes
       case PostPartitionSpace(start, end, size) =>
         g.kind == PostPartition && start == g.lbaStart && end == g.lbaEnd && size == bytes
       case _ => false
  }

  /** A run reports each of its gaps, by its kind, and nothing else as one. */
  lemma RunGapFindingsExact(d: Disk, a: Analysis, f: Anomaly)
    requires IsAnalysis(d, a) && GapSpaceKind(f.kind)
    ensures f in a.anomalies <==> exists i :: 0 <= i < |a.gaps| && IsGapFinding(d, a.gaps[i], f)
  {
    hide IsAnalysis, GapFindings, GapFits, OverlapFindings, ClaimsOf, IsGapFinding, Concat, ChainStageFindings;
    StageOf(d, a, f);
    RunGapsFit(d, a);
    GapMember(d, a.gaps, f);
    forall i | 0 <= i < |a.gaps|
      ensures f == NewAnomaly(GapKindOf(a.gaps[i]), d.ByteOf(a.gaps[i].lbaStart)) <==> IsGapFinding(d, a.gaps[i], f)
    {
      GapFindingIs(d, a.gaps[i], f);
    }
  }

  lemma GapMember(d: Disk, gs: seq<Gap>, f: Anomaly)
    ensures f in GapFindings(d, gs) <==>
            exists i :: 0 <= i < |gs| && f == NewAnomaly(GapKindOf(gs[i]), d.ByteOf(gs[i].lbaStart))
  {
    hide Concat, GapKindOf, DiskOptions.ByteOf;
    ConcatMember(|gs|, GapFindingAt(d, gs), f);
    forall i | 0 <= i < |gs| ensures f in GapFindingAt(d, gs)(i) <==> f == NewAnomaly(GapKindOf(gs[i]), d.ByteOf(gs[i].lbaStart)) {
      GapAt(d, gs, i);
    }
  }

  lemma GapFindingIs(d: Disk, g: Gap, f: Anomaly)
    requires GapFits(g, d.sectorSize) && GapSpaceKind(f.kind) && d.ByteOf(g.lbaStart) == g.lbaStart * d.sectorSize
    ensures f == NewAnomaly(GapKindOf(g), d.ByteOf(g.lbaStart)) <==> IsGapFinding(d, g, f)
  {
    hide DiskOptions.ByteOf;
  }

  /** A gap is trailing iff no partition starts above it, and else leading iff it starts at LBA 1. */
  lemma RunGapKinds(d: Disk, a: Analysis, i: nat)
    requires IsAnalysis(d, a) && i < |a.gaps|
    ensures var g := a.gaps[i];
            && (g.kind == PostPartition <==> !PartitionAbove(a.partitions, g.lbaEnd))
            && (g.kind == PrePartition <==> PartitionAbove(a.partitions, g.lbaEnd) && g.lbaStart == 1)
  {
    hide IsAnalysis, Prepared, ExtentsOf, PartitionAbove, StartsAbove;
    SizeKnown(d, a, i);
    RunGapList(d, a);
    AboveIsPartitions(a.partitions, a.gaps[i].lbaEnd);
    assert KindRight(a.gaps, i, Prepared(ExtentsOf(a.partitions)), 1, d.LastLba());
  }

  // ----- Severities a run can reach -----

  /** Each severity by the kinds that have it in a run. */
  lemma RunSeverityClasses(d: Disk, a: Analysis, f: Anomaly)
    requires IsAnalysis(d, a) && f in a.anomalies
    ensures f.severity == Critical <==> f.kind.OverlappingPartitions? || f.kind.EbrCycle?
    ensures f.severity == High <==>
            f.kind.OutOfBounds? || f.kind.EbrExcessiveDepth? || f.kind.WipedRegion? || f.kind.VbrHiddenSectorsMismatch?
    ensures f.severity == Medium <==>
            || f.kind.ResidualEntry? || f.kind.InvalidPartitionStatus? || f.kind.ChsLbaInconsistency?
            || f.kind.SignatureMismatch? || f.kind.InterPartitionGap? || f.kind.EbrSlackData?
    ensures f.severity == Low <==> f.kind.PrePartitionSpace? || f.kind.CarvedArtifact?
    ensures f.severity == Info <==> f.kind.PostPartitionSpace?
  {
    hide IsAnalysis, Exact.Exceeds;
    RunSeverities(d, a, f);
  }

  /** A leading-space finding is about the first gap, at LBA 1, and is Low; slack findings are Medium,
      since 32 bytes hold at most 5 bits each; severities always follow the kind. */
  lemma RunSeverities(d: Disk, a: Analysis, f: Anomaly)
    requires IsAnalysis(d, a) && f in a.anomalies
    ensures f.severity == f.kind.Severity()
    ensures f.kind.PrePartitionSpace? ==>
              f.severity == Low && a.gaps != [] && f.kind == GapKindOf(a.gaps[0]) && a.gaps[0].lbaStart == 1
    ensures f.kind.EbrSlackData? ==> f.severity == Medium
  {
    hide IsAnalysis, GapFindings, ChainStageFindings, OverlapFindings, EntropyOf;
    StageOf(d, a, f);
    if f.kind.PrePartitionSpace? {
      GapKinds(d, a, f);
      var i :| 0 <= i < |a.gaps| && f == NewAnomaly(GapKindOf(a.gaps[i]), d.ByteOf(a.gaps[i].lbaStart));
      LeadingGap(d, a, i);
    }
    if f.kind.EbrSlackData? {
      ChainKinds(d, a, f);
      var i :| 0 <= i < |a.chain.entries| && IsSlackOf(f, a.chain.entries[i]);
      SlackEntropy(d, a, i);
    }
  }

  lemma LeadingGap(d: Disk, a: Analysis, i: nat)
    requires IsAnalysis(d, a) && i < |a.gaps| && a.gaps[i].kind == PrePartition
    ensures i == 0 && a.gaps[i].lbaStart == 1
  {
    assert d.size > 0;
    RunGapList(d, a);
    LeadingIsFirst(a.gaps, Prepared(ExtentsOf(a.partitions)), d.LastLba(), Scale(d.sectorSize), i);
  }

  lemma LeadingIsFirst(gs: seq<Gap>, es: seq<Extent>, last: nat, size: nat -> nat, i: nat)
    requires IsGapList(gs, es, 1, last, size) && i < |gs| && gs[i].kind == PrePartition
    ensures i == 0 && gs[i].lbaStart == 1
  {
    assert KindRight(gs, i, es, 1, last);
    assert gs[0].Holds(gs[0].lbaStart) && InGap(gs, gs[0].lbaStart);
  }

  lemma SlackEntropy(d: Disk, a: Analysis, i: nat)
    requires IsAnalysis(d, a) && i < |a.chain.entries|
    ensures !EntropyOf(a.chain.entries[i].slack).Exceeds(5)
    ensures !EntropyOf(a.chain.entries[i].slack).Exceeds(HIGH_ENTROPY_THRESHOLD)
  {
    ChainIsSmall(d, a.mbr.entries, a.chain);
    ThirtyTwoBytes(a.chain.entries[i].slack);
  }

  lemma ThirtyTwoBytes(slack: Bytes)
    requires |slack| == 32
    ensures !EntropyOf(slack).Exceeds(5) && !EntropyOf(slack).Exceeds(HIGH_ENTROPY_THRESHOLD)
  {
    hide EntropyOf, Exact.Exceeds;
    assert Pow(2, 5) == 32 by { PowAdd(2, 2, 3); }
    ShortDataBound(slack, 5);
    if EntropyOf(slack).Exceeds(6) { ExceedsMonotone(EntropyOf(slack), 5, 1); assert false; }
  }

  // ----- Chain flags and the arithmetic envelope -----

  /** A run reports a cycle or an overlong chain exactly when the chain has that flag, at the container. */
  lemma RunChainFlags(d: Disk, a: Analysis, f: Anomaly)
    requires IsAnalysis(d, a) && (f.kind.EbrCycle? || f.kind.EbrExcessiveDepth?)
    ensures f in a.anomalies <==>
            && FirstExtended(a.mbr.entries).Some?
            && (f.kind.EbrCycle? ==> a.chain.hadCycle)
            && (f.kind.EbrExcessiveDepth? ==> a.chain.depthExceeded && f.kind.depth == 64)
            && f == NewAnomaly(f.kind, FirstExtended(a.mbr.entries).value.lbaStart * d.sectorSize)
  {
    hide IsAnalysis, ChainStageFindings, DiskOptions.ByteOf, OverlapFindings, GapFindings, FlagFinding;
    FlagStage(d, a, f);
    FourEntries(d, a);
    if FirstExtended(a.mbr.entries).Some? {
      ByteOfExact(d, FirstExtended(a.mbr.entries).value.lbaStart);
      FlagMember(d, a, f);
    } else {
      NoChainFindings(d, a);
    }
    DepthIsCap(d, a);
    FlagMeans(d, a, f);
  }

  /** `f` is a flag finding of the chain. */
  predicate FlagFinding(d: Disk, a: Analysis, f: Anomaly, offset: nat) {
    f in ChainFindings(a.chain, offset)
  }

  lemma FlagMeans(d: Disk, a: Analysis, f: Anomaly)
    requires f.kind.EbrCycle? || f.kind.EbrExcessiveDepth?
    requires a.chain.depthExceeded ==> |a.chain.entries| == 64
    ensures forall offset: nat :: FlagFinding(d, a, f, offset) <==>
              && (f.kind.EbrCycle? ==> a.chain.hadCycle)
              && (f.kind.EbrExcessiveDepth? ==> a.chain.depthExceeded && f.kind.depth == 64)
              && f == NewAnomaly(f.kind, offset)
  {
  }

  lemma FlagStage(d: Disk, a: Analysis, f: Anomaly)
    requires IsAnalysis(d, a) && (f.kind.EbrCycle? || f.kind.EbrExcessiveDepth?)
    ensures f in a.anomalies <==> f in ChainStageFindings(d, a)
  {
    hide IsChainOf, Partitions, GapsOf, PrimaryFindings, OverlapFindings, GapFindings, ExtendedFindings, Concat;
    if f in a.anomalies { StageOf(d, a, f); }
  }

  lemma FlagMember(d: Disk, a: Analysis, f: Anomaly)
    requires (f.kind.EbrCycle? || f.kind.EbrExcessiveDepth?) && FirstExtended(a.mbr.entries).Some?
    ensures f in ChainStageFindings(d, a) <==> FlagFinding(d, a, f, d.ByteOf(FirstExtended(a.mbr.entries).value.lbaStart))
  {
    hide LinkFindings, PrimarySummaries, DiskOptions.ByteOf, Concat, ChainFindings;
    var es, base := a.chain.entries, |PrimarySummaries(d, a.mbr.entries)|;
    var g := LinkFindingsAt(d, es, base);
    if f in Concat(|es|, g) {
      ConcatMember(|es|, g, f);
      var i :| 0 <= i < |es| && f in g(i);
      LinkAt(d, es, base, i, EBR_INDEX_BASE + (base + i));
      LinkKinds(d, es[i], EBR_INDEX_BASE + (base + i), f);
    }
  }

  lemma NoChainFindings(d: Disk, a: Analysis)
    requires FirstExtended(a.mbr.entries).None?
    ensures ChainStageFindings(d, a) == []
  {
  }

  lemma DepthIsCap(d: Disk, a: Analysis)
    requires IsAnalysis(d, a)
    ensures a.chain.depthExceeded ==> |a.chain.entries| == 64
  {
    hide GapsOf, OverlapFindings, GapFindings, PrimaryFindings, ExtendedFindings, Partitions, ContentFindings;
  }

  /** Byte sizes are the exact products of the entries' counts; a logical ends where its fields say, and
      so does a primary unless start plus count passes the 32-bit limit, where it is cut. */
  ghost predicate SizesExact(d: Disk, a: Analysis)
    requires |a.mbr.entries| == 4
  {
    var base := |PrimarySummaries(d, a.mbr.entries)|;
    && |a.partitions| == base + |a.chain.entries|
    && (forall p :: p in a.partitions && p.index < 4 ==> PrimarySized(d, a.mbr.entries[p.index], p))
    && (forall k :: 0 <= k < |a.chain.entries| ==>
          LogicalSized(d, a.chain.entries[k], a.partitions[base + k]))
  }

  predicate PrimarySized(d: Disk, e: PartitionEntry, p: PartitionSummary) {
    && p.byteSize == e.lbaCount * d.sectorSize
    && p.lbaEnd == if e.lbaStart + e.lbaCount == 0 then 0
                   else if e.lbaStart + e.lbaCount > U32_MAX then U32_MAX - 1
                   else e.lbaStart + e.lbaCount - 1
  }

  predicate LogicalSized(d: Disk, e: EbrEntry, p: PartitionSummary) {
    && p.byteSize == e.logical.lbaCount * d.sectorSize
    && p.lbaEnd == if e.logicalLbaStart + e.logical.lbaCount == 0 then 0 else e.logicalLbaStart + e.logical.lbaCount - 1
  }

  lemma RunSizesExact(d: Disk, a: Analysis)
    requires IsAnalysis(d, a)
    ensures |a.mbr.entries| == 4 && SizesExact(d, a)
  {
    hide IsAnalysis, LogicalSummary, IsChainOf, Partitions, PrimarySummaries, LogicalSized, PrimarySized, LinkSmall;
    FourEntries(d, a);
    var es, base := a.mbr.entries, |PrimarySummaries(d, a.mbr.entries)|;
    LogicalPartitions(d, es, a.chain);
    forall p | p in a.partitions && p.index < 4 ensures PrimarySized(d, es[p.index], p) {
      SlotSized(d, es, a.chain, p);
    }
    ChainIsSmall(d, es, a.chain);
    forall k | 0 <= k < |a.chain.entries| ensures LogicalSized(d, a.chain.entries[k], a.partitions[base + k]) {
      LinkSized(d, a.chain.entries[k], EBR_INDEX_BASE + (base + k));
    }
  }

  lemma FourEntries(d: Disk, a: Analysis)
    requires IsAnalysis(d, a)
    ensures |a.mbr.entries| == 4 && IsChainOf(d, a.mbr.entries, a.chain)
    ensures a.partitions == Partitions(d, a.mbr.entries, a.chain)
  {
    hide GapsOf, OverlapFindings, GapFindings, PrimaryFindings, ExtendedFindings, IsChainOf, Partitions, ContentFindings;
  }

  lemma SlotSized(d: Disk, es: seq<PartitionEntry>, chain: EbrChain, p: PartitionSummary)
    requires |es| == 4 && p in Partitions(d, es, chain) && p.index < 4
    ensures PrimarySized(d, es[p.index], p)
  {
    if p in PrimarySummaries(d, es) {
      PrimaryIndex(d, es, p);
      ByteOfExact(d, es[p.index].lbaCount);
    } else {
      LogicalIndex(d, chain.entries, |PrimarySummaries(d, es)|, p);
    }
  }

  lemma LinkSized(d: Disk, e: EbrEntry, index: nat)
    requires LinkSmall(e)
    ensures LogicalSized(d, e, LogicalSummary(d, e, index))
  {
    ByteOfExact(d, e.logical.lbaCount);
  }

  /** No 64-bit figure of a run saturated or overflowed: partition offsets and sizes are exact products,
      no checked operation of the chain walk failed, also not where it stopped, EBR and gap figures fit in
      64 bits, and every gap sample has bytes to read. The one figure that is cut is the 32-bit end of a
      primary, and only where start plus count passes that limit. */
  lemma RunEnvelope(d: Disk, a: Analysis)
    requires IsAnalysis(d, a)
    ensures forall i :: 0 <= i < |a.partitions| ==> IsSmall(d, a.partitions[i])
    ensures |a.mbr.entries| == 4 && SizesExact(d, a)
    ensures ChainSmall(a.chain.entries)
    ensures FirstExtended(a.mbr.entries).Some? ==> ChecksPass(ImageAt(d, FirstExtended(a.mbr.entries).value))
    ensures forall i :: 0 <= i < |a.gaps| ==>
              && GapFits(a.gaps[i], d.sectorSize) && SampleLen(a.gaps[i]) > 0
              && d.ByteOf(a.gaps[i].lbaStart) == a.gaps[i].lbaStart * d.sectorSize
              && d.ByteOf(a.gaps[i].lbaStart) + SampleLen(a.gaps[i]) <= U64_MAX
  {
    hide ChecksPass, SizesExact, IsSmall, LinkSmall, IsGapList, GapFits, Partitions, GapsOf, DiskOptions.LastLba;
    RunPartitionsSmall(d, a);
    RunSizesExact(d, a);
    ChainIsSmall(d, a.mbr.entries, a.chain);
    if FirstExtended(a.mbr.entries).Some? {
      PathChecksPass(ImageAt(d, FirstExtended(a.mbr.entries).value));
    }
    RunGapsFit(d, a);
  }

  lemma RunGapsFit(d: Disk, a: Analysis)
    requires IsAnalysis(d, a)
    ensures forall i :: 0 <= i < |a.gaps| ==>
              && GapFits(a.gaps[i], d.sectorSize) && SampleLen(a.gaps[i]) > 0
              && d.ByteOf(a.gaps[i].lbaStart) == a.gaps[i].lbaStart * d.sectorSize
              && d.ByteOf(a.gaps[i].lbaStart) + SampleLen(a.gaps[i]) <= U64_MAX
  {
    hide IsGapList, GapFits, Prepared, ExtentsOf, IsAnalysis, DiskOptions.LastLba, DiskOptions.ByteOf, SampleLen;
    if a.gaps != [] {
      SizeKnown(d, a, 0);
      RunGapList(d, a);
      forall i | 0 <= i < |a.gaps| ensures GapFits(a.gaps[i], d.sectorSize) && SampleLen(a.gaps[i]) > 0
          && d.ByteOf(a.gaps[i].lbaStart) == a.gaps[i].lbaStart * d.sectorSize
          && d.ByteOf(a.gaps[i].lbaStart) + SampleLen(a.gaps[i]) <= U64_MAX {
        SampleFits(d, a.gaps[i]);
      }
    }
  }

  // ----- Volume contents -----

  /** `f` reports that the boot record of `p` names another place, or that its filesystem contradicts
      its type; neither is looked at past the end of the disk. */
  predicate IsVolumeFinding(d: Disk, p: PartitionSummary, f: Anomaly) {
    (d.size == 0 || p.byteOffset < d.size) &&
    match f.kind
    case VbrHiddenSectorsMismatch(_, hidden, _) =>
      && d.vols.hidden(p.byteOffset) == Some(hidden) && hidden != 0 && hidden != p.lbaStart
      && f == NewAnomaly(VbrHiddenSectorsMismatch(p.index, hidden, p.lbaStart), p.byteOffset)
    case SignatureMismatch(_, _, fs) =>
      && d.vols.fs(p.byteOffset) == Some(fs) && d.vols.conflicts(p.declaredType, fs)
      && f == NewAnomaly(SignatureMismatch(p.index, p.declaredType, fs), p.byteOffset)
    case _ => false
  }

  lemma SlotVolume(d: Disk, e: PartitionEntry, i: nat, f: Anomaly)
    requires VolumeKind(f.kind)
    ensures f in SlotFindings(d, e, i) <==> e.typeCode != 0 && IsVolumeFinding(d, PrimarySummary(d, e, i), f)
  {
    hide ChsContradicts, DiskOptions.ByteOf, DiskOptions.LastLba, PartitionEntry.LbaEnd;
  }

  lemma LinkVolume(d: Disk, e: EbrEntry, index: nat, f: Anomaly)
    requires VolumeKind(f.kind)
    ensures f in LinkFindings(d, e, index) <==> IsVolumeFinding(d, LogicalSummary(d, e, index), f)
  {
    hide DiskOptions.ByteOf, EntropyOf, LogicalEnd;
  }

  lemma TableVolume(d: Disk, es: seq<PartitionEntry>, f: Anomaly)
    requires VolumeKind(f.kind)
    ensures f in PrimaryFindings(d, es) <==> exists p :: p in PrimarySummaries(d, es) && IsVolumeFinding(d, p, f)
  {
    hide SlotFindings, IsVolumeFinding, PrimarySummary, Concat;
    ConcatMember(|es|, SlotFindingsAt(d, es), f);
    if f in PrimaryFindings(d, es) {
      var i :| 0 <= i < |es| && f in SlotFindingsAt(d, es)(i);
      SlotAt(d, es, i);
      SlotVolume(d, es[i], i, f);
      var p := PrimarySummary(d, es[i], i);
      ConcatMember(|es|, SlotSummaryAt(d, es), p);
      assert p in SlotSummaryAt(d, es)(i);
    }
    forall p | p in PrimarySummaries(d, es) && IsVolumeFinding(d, p, f) ensures f in PrimaryFindings(d, es) {
      PrimaryIndex(d, es, p);
      SlotAt(d, es, p.index);
      SlotVolume(d, es[p.index], p.index, f);
    }
  }

  lemma LinksVolume(d: Disk, es: seq<EbrEntry>, base: nat, f: Anomaly)
    requires VolumeKind(f.kind)
    ensures f in Concat(|es|, LinkFindingsAt(d, es, base)) <==>
            exists p :: p in LogicalSummaries(d, es, base) && IsVolumeFinding(d, p, f)
  {
    hide LinkFindings, IsVolumeFinding, LogicalSummary, Concat;
    var g := LinkFindingsAt(d, es, base);
    ConcatMember(|es|, g, f);
    if f in Concat(|es|, g) {
      var i :| 0 <= i < |es| && f in g(i);
      LinkAt(d, es, base, i, EBR_INDEX_BASE + (base + i));
      LinkVolume(d, es[i], EBR_INDEX_BASE + (base + i), f);
      var p := LogicalSummary(d, es[i], EBR_INDEX_BASE + (base + i));
      ConcatMember(|es|, LogicalSummaryAt(d, es, base), p);
      assert p in LogicalSummaryAt(d, es, base)(i);
    }
    forall p | p in LogicalSummaries(d, es, base) && IsVolumeFinding(d, p, f) ensures f in Concat(|es|, g) {
      LogicalIndex(d, es, base, p);
      var i :| 0 <= i < |es| && p == LogicalSummary(d, es[i], EBR_INDEX_BASE + (base + i));
      LinkAt(d, es, base, i, EBR_INDEX_BASE + (base + i));
      LinkVolume(d, es[i], EBR_INDEX_BASE + (base + i), f);
    }
  }

  /** A run reports a relocated boot record or a contradicted type exactly for the partitions, primary
      or logical, whose volume shows it. */
  lemma RunVolumeFindingsExact(d: Disk, a: Analysis, f: Anomaly)
    requires IsAnalysis(d, a) && VolumeKind(f.kind)
    ensures f in a.anomalies <==> exists p :: p in a.partitions && IsVolumeFinding(d, p, f)
  {
    hide IsAnalysis, IsVolumeFinding, PrimaryFindings, PrimarySummaries, LogicalSummaries;
    var es := a.mbr.entries;
    VolumeStages(d, a, f);
    TableVolume(d, es, f);
    LinksVolume(d, a.chain.entries, |PrimarySummaries(d, es)|, f);
  }

  lemma VolumeStages(d: Disk, a: Analysis, f: Anomaly)
    requires IsAnalysis(d, a) && VolumeKind(f.kind)
    ensures var prims := PrimarySummaries(d, a.mbr.entries);
            && a.partitions == prims + LogicalSummaries(d, a.chain.entries, |prims|)
            && (f in a.anomalies <==>
                  || f in PrimaryFindings(d, a.mbr.entries)
                  || f in Concat(|a.chain.entries|, LinkFindingsAt(d, a.chain.entries, |prims|)))
  {
    hide GapsOf, PrimaryFindings, OverlapFindings, GapFindings, LinkFindingsAt, PrimarySummaries, LogicalSummaries,
         Image.Describes;
    if f in OverlapFindings(ClaimsOf(a.partitions)) { OverlapKinds(ClaimsOf(a.partitions), f); }
    if f in GapFindings(d, a.gaps) { GapKinds(d, a, f); }
    if f in ContentFindings(d, a) { ContentKinds(d, a, f); }
  }

  // ----- Table and slack findings -----

  /** `f` reports a flaw of slot `i`, which holds `e`. */
  predicate IsSlotFinding(d: Disk, e: PartitionEntry, i: nat, f: Anomaly) {
    f == NewAnomaly(f.kind, 446 + 16 * i) &&
    match f.kind
    case ResidualEntry(index, start, count) =>
      index == i && start == e.lbaStart && count == e.lbaCount && e.typeCode == 0 && (start != 0 || count != 0)
    case InvalidPartitionStatus(index, status) =>
      index == i && status == e.status && e.typeCode != 0 && status != 0x00 && status != 0x80
    case ChsLbaInconsistency(index) =>
      && index == i && e.typeCode != 0
      && (|| CompareChs(e.chsFirst, e.lbaStart, 255, 63) == Inconsistent
          || CompareChs(e.chsLast, e.LbaEnd(), 255, 63) == Inconsistent)
    case OutOfBounds(index, end, last) =>
      index == i && end == e.LbaEnd() && last == d.LastLba() && e.typeCode != 0 && d.size > 0 && last < end
    case _ => false
  }

  predicate SlotKind(k: AnomalyKind) { TableKind(k) && !VolumeKind(k) }

  lemma SlotFindingIs(d: Disk, e: PartitionEntry, i: nat, f: Anomaly)
    requires SlotKind(f.kind)
    ensures f in SlotFindings(d, e, i) <==> IsSlotFinding(d, e, i, f)
  {
    hide CompareChs, DiskOptions.ByteOf, DiskOptions.LastLba, DiskOptions.DetectedFs, PartitionEntry.LbaEnd;
  }

  /** A run reports residual slots, invalid status bytes, CHS contradictions and ends past the disk for
      exactly the slots that have them. */
  lemma RunSlotFindingsExact(d: Disk, a: Analysis, f: Anomaly)
    requires IsAnalysis(d, a) && SlotKind(f.kind)
    ensures f in a.anomalies <==> exists i :: 0 <= i < |a.mbr.entries| && IsSlotFinding(d, a.mbr.entries[i], i, f)
  {
    hide IsAnalysis, IsSlotFinding, SlotFindings, Concat;
    var es := a.mbr.entries;
    SlotStage(d, a, f);
    ConcatMember(|es|, SlotFindingsAt(d, es), f);
    forall i | 0 <= i < |es| ensures f in SlotFindingsAt(d, es)(i) <==> IsSlotFinding(d, es[i], i, f) {
      SlotAt(d, es, i);
      SlotFindingIs(d, es[i], i, f);
    }
  }

  lemma SlotStage(d: Disk, a: Analysis, f: Anomaly)
    requires IsAnalysis(d, a) && SlotKind(f.kind)
    ensures f in a.anomalies <==> f in PrimaryFindings(d, a.mbr.entries)
  {
    hide IsChainOf, Partitions, GapsOf, PrimaryFindings, OverlapFindings, GapFindings, ExtendedFindings, Concat;
    if f in ChainStageFindings(d, a) { ChainKinds(d, a, f); }
    if f in OverlapFindings(ClaimsOf(a.partitions)) { OverlapKinds(ClaimsOf(a.partitions), f); }
    if f in GapFindings(d, a.gaps) { GapKinds(d, a, f); }
    if f in ContentFindings(d, a) { ContentKinds(d, a, f); }
  }

  /** A run reports slack for exactly the links whose slack is not all zero. */
  lemma RunSlackExact(d: Disk, a: Analysis, f: Anomaly)
    requires IsAnalysis(d, a) && f.kind.EbrSlackData?
    ensures f in a.anomalies <==> exists k :: 0 <= k < |a.chain.entries| && IsSlackOf(f, a.chain.entries[k])
  {
    hide IsAnalysis, IsSlackOf, Concat, PrimarySummaries;
    if f in a.anomalies {
      StageOf(d, a, f);
      ChainKinds(d, a, f);
    }
    var es, base := a.chain.entries, |PrimarySummaries(d, a.mbr.entries)|;
    forall k | 0 <= k < |es| && IsSlackOf(f, es[k]) ensures f in a.anomalies {
      LinkAt(d, es, base, k, EBR_INDEX_BASE + (base + k));
      SlackInLink(d, es[k], EBR_INDEX_BASE + (base + k), f);
      ConcatMember(|es|, LinkFindingsAt(d, es, base), f);
      LinksReported(d, a, f);
    }
  }

  lemma SlackInLink(d: Disk, e: EbrEntry, index: nat, f: Anomaly)
    requires IsSlackOf(f, e)
    ensures f in LinkFindings(d, e, index)
  {
    hide VbrFindings, FsFindings, EntropyOf;
  }

  lemma LinksReported(d: Disk, a: Analysis, f: Anomaly)
    requires IsAnalysis(d, a)
    requires f in Concat(|a.chain.entries|, LinkFindingsAt(d, a.chain.entries, |PrimarySummaries(d, a.mbr.entries)|))
    ensures f in a.anomalies
  {
    hide GapsOf, PrimaryFindings, OverlapFindings, GapFindings, LinkFindingsAt, PrimarySummaries, LogicalSummaries,
         Image.Describes, ContentFindings;
  }

  // ----- Gap contents -----

  /** The whole gap `g` or its first 4096 bytes, if the image answers with them. */
  function SampleOf(d: Disk, g: Gap): Option<Bytes> {
    assert g.lbaStart * d.sectorSize >= 0;
    var n := if g.byteSize < 4096 then g.byteSize else 4096;
    var r := d.dev(g.lbaStart * d.sectorSize, n);
    if r.Data? && |r.bytes| == n then Some(r.bytes) else None
  }

  /** What the content stage reads of a gap. */
  lemma SampleIs(d: Disk, g: Gap)
    requires GapFits(g, d.sectorSize)
    ensures d.ByteOf(g.lbaStart) == g.lbaStart * d.sectorSize
    ensures SampleOf(d, g) == match ReadExact(d.dev, d.ByteOf(g.lbaStart), SampleLen(g))
                              case Data(sample) => Some(sample)
                              case _ => None
  {
    SampleFits(d, g);
  }

  /** A magic of the table stands at the finding's offset, inside the sample of `g`. */
  ghost predicate CarvedFrom(d: Disk, g: Gap, f: Anomaly) {
    && SampleOf(d, g).Some? && f.kind.CarvedArtifact? && f == NewAnomaly(f.kind, f.offset)
    && Carve.IsHit(Carve.FILE_MAGICS, |Carve.FILE_MAGICS|, SampleOf(d, g).value, g.lbaStart * d.sectorSize,
                   Carve.CarvedFile(f.kind.kind, f.offset))
  }

  lemma SampleCarved(d: Disk, g: Gap, f: Anomaly)
    requires f.kind.CarvedArtifact? && GapFits(g, d.sectorSize)
    ensures f in GapContent(d, g) <==> CarvedFrom(d, g, f)
  {
    hide Carve.IsHit, Carve.Carving, Carve.FILE_MAGICS, Wipe.Classify, DiskOptions.ByteOf, SampleOf, GapFits, SampleLen;
    SampleIs(d, g);
    if SampleOf(d, g).Some? {
      var offset, sample := d.ByteOf(g.lbaStart), SampleOf(d, g).value;
      CarvedMember(sample, offset, f);
    }
  }

  lemma CarvedMember(sample: Bytes, offset: nat, f: Anomaly)
    requires f.kind.CarvedArtifact?
    ensures f in CarvedFindings(Carve.Carving(sample, offset)) <==>
            && f == NewAnomaly(f.kind, f.offset)
            && Carve.IsHit(Carve.FILE_MAGICS, |Carve.FILE_MAGICS|, sample, offset, Carve.CarvedFile(f.kind.kind, f.offset))
  {
    hide Carve.IsHit, Carve.Carving, Carve.FILE_MAGICS, Concat;
    var cs, c := Carve.Carving(sample, offset), Carve.CarvedFile(f.kind.kind, f.offset);
    Carve.CarvingExact(sample, offset);
    CarvingInside(sample, offset);
    ConcatMember(|cs|, CarvedFindingAt(cs), f);
    if f in CarvedFindings(cs) {
      var i :| 0 <= i < |cs| && f in CarvedFindingAt(cs)(i);
      assert cs[i] == c && cs[i] in cs;
    }
    if f == NewAnomaly(f.kind, f.offset) && c in cs {
      var i :| 0 <= i < |cs| && cs[i] == c;
      assert f in CarvedFindingAt(cs)(i);
    }
  }

  /** A run reports exactly the headers that stand in the samples of its gaps. */
  lemma RunCarvedExact(d: Disk, a: Analysis, f: Anomaly)
    requires IsAnalysis(d, a) && f.kind.CarvedArtifact?
    ensures f in a.anomalies <==> exists i :: 0 <= i < |a.gaps| && CarvedFrom(d, a.gaps[i], f)
  {
    hide IsAnalysis, CarvedFrom, GapContent, GapFits, Concat, DiskOptions.ByteOf;
    RunGapsFit(d, a);
    ContentStage(d, a, f);
    ConcatMember(|a.gaps|, GapContentAt(d, a.gaps), f);
    forall i | 0 <= i < |a.gaps| ensures f in GapContentAt(d, a.gaps)(i) <==> CarvedFrom(d, a.gaps[i], f) {
      SampleCarved(d, a.gaps[i], f);
    }
  }

  /** Every table magic that lies wholly in the first 4096 bytes of a gap is reported, if those can be read. */
  lemma RunCarvesWindow(d: Disk, a: Analysis, i: nat, k: nat, pos: nat)
    requires IsAnalysis(d, a) && i < |a.gaps| && k < |Carve.FILE_MAGICS| && SampleOf(d, a.gaps[i]).Some?
    requires var m := Carve.FILE_MAGICS[k].magic;
             pos + |m| <= |SampleOf(d, a.gaps[i]).value| && SampleOf(d, a.gaps[i]).value[pos..pos + |m|] == m
    ensures exists f :: f in a.anomalies && f.severity == Low
                        && f.kind == CarvedArtifact(Carve.FILE_MAGICS[k].kind) && f.offset == a.gaps[i].lbaStart * d.sectorSize + pos
  {
    hide IsAnalysis, SampleOf, Carve.FILE_MAGICS;
    var g, m := a.gaps[i], Carve.FILE_MAGICS[k];
    assert g.lbaStart * d.sectorSize >= 0;
    var f := NewAnomaly(CarvedArtifact(m.kind), g.lbaStart * d.sectorSize + pos);
    assert Carve.HitOf(m, SampleOf(d, g).value, g.lbaStart * d.sectorSize, Carve.CarvedFile(m.kind, f.offset));
    assert CarvedFrom(d, g, f);
    RunCarvedExact(d, a, f);
  }

  /** The bytes are one repeated value, not 0, or an alternation of two. */
  ghost predicate IsWipe(s: Bytes) {
    s != [] && !Wipe.AllEqual(s, 0x00) &&
    ((exists v: U8 :: Wipe.AllEqual(s, v)) || exists x, y: U8 :: Wipe.Alternates(s, x, y))
  }

  ghost predicate WipedAt(d: Disk, g: Gap, f: Anomaly) {
    && SampleOf(d, g).Some? && IsWipe(SampleOf(d, g).value)
    && f == NewAnomaly(WipedRegion(g.lbaStart, Wipe.Classify(SampleOf(d, g).value)), g.lbaStart * d.sectorSize)
  }

  lemma SampleWiped(d: Disk, g: Gap, f: Anomaly)
    requires f.kind.WipedRegion? && GapFits(g, d.sectorSize)
    ensures f in GapContent(d, g) <==> WipedAt(d, g, f)
  {
    hide Wipe.Classify, Carve.Carving, DiskOptions.ByteOf, SampleOf, GapFits, SampleLen;
    SampleIs(d, g);
    if SampleOf(d, g).Some? {
      var offset, sample := d.ByteOf(g.lbaStart), SampleOf(d, g).value;
      Wipe.ClassifyMeans(sample);
      var cs := Carve.Carving(sample, offset);
      ConcatMember(|cs|, CarvedFindingAt(cs), f);
    }
  }

  /** A run reports a wiped region, as High, exactly at the gaps whose sample is a wipe pattern. */
  lemma RunWipedExact(d: Disk, a: Analysis, f: Anomaly)
    requires IsAnalysis(d, a) && f.kind.WipedRegion?
    ensures f in a.anomalies <==> exists i :: 0 <= i < |a.gaps| && WipedAt(d, a.gaps[i], f)
    ensures f in a.anomalies ==> f.severity == High
  {
    hide IsAnalysis, GapContent, WipedAt, Concat, GapFits, DiskOptions.ByteOf;
    RunGapsFit(d, a);
    ContentStage(d, a, f);
    ConcatMember(|a.gaps|, GapContentAt(d, a.gaps), f);
    if f in a.anomalies { StageOf(d, a, f); }
    forall i | 0 <= i < |a.gaps| ensures f in GapContentAt(d, a.gaps)(i) <==> WipedAt(d, a.gaps[i], f) {
      SampleWiped(d, a.gaps[i], f);
    }
  }

  lemma ContentStage(d: Disk, a: Analysis, f: Anomaly)
    requires IsAnalysis(d, a) && ContentKind(f.kind)
    ensures f in a.anomalies <==> f in ContentFindings(d, a)
  {
    hide IsChainOf, Partitions, GapsOf, PrimaryFindings, OverlapFindings, GapFindings, ExtendedFindings, Concat;
    if f in TableFindings(d, a) { TableKinds(d, a, f); }
    if f in ChainStageFindings(d, a) { ChainKinds(d, a, f); }
    if f in OverlapFindings(ClaimsOf(a.partitions)) { OverlapKinds(ClaimsOf(a.partitions), f); }
    if f in GapFindings(d, a.gaps) { GapKinds(d, a, f); }
  }

  /** And every one of them lies in a sector outside the reported range of every partition. */
  lemma CarvedOutsidePartitions(d: Disk, a: Analysis, f: Anomaly)
    requires IsAnalysis(d, a) && f in a.anomalies && f.kind.CarvedArtifact?
    ensures f.severity == Low && !PartitionCovers(a.partitions, f.offset / d.sectorSize)
  {
    hide IsAnalysis, GapFits, IsGapList, PartitionCovers, Prepared, ExtentsOf, AllFit, DiskOptions.LastLba, Gap.Holds,
         CarvedFrom;
    RunCarvedExact(d, a, f);
    var i :| 0 <= i < |a.gaps| && CarvedFrom(d, a.gaps[i], f);
    var g := a.gaps[i];
    RunGapsFit(d, a);
    CarvedIsLow(d, g, f);
    SizeKnown(d, a, i);
    RunGapList(d, a);
    HitSector(d, g, f);
    InGapUncovered(a.gaps, Prepared(ExtentsOf(a.partitions)), d.LastLba(), Scale(d.sectorSize), i, f.offset / d.sectorSize);
    CoverIsPartitions(a.partitions, f.offset / d.sectorSize);
  }

  lemma CarvedIsLow(d: Disk, g: Gap, f: Anomaly)
    requires CarvedFrom(d, g, f)
    ensures f.severity == Low
  {
    hide Carve.IsHit, Carve.FILE_MAGICS;
  }

  lemma SizeKnown(d: Disk, a: Analysis, i: nat)
    requires IsAnalysis(d, a) && i < |a.gaps|
    ensures d.size > 0
  {
  }

  lemma InGapUncovered(gs: seq<Gap>, es: seq<Extent>, last: nat, size: nat -> nat, i: nat, x: int)
    requires IsGapList(gs, es, 1, last, size) && i < |gs| && gs[i].Holds(x)
    ensures !Covered(es, x)
  {
    assert InGap(gs, x);
  }

  lemma HitSector(d: Disk, g: Gap, f: Anomaly)
    requires GapFits(g, d.sectorSize) && CarvedFrom(d, g, f)
    ensures g.Holds(f.offset / d.sectorSize)
  {
    hide Carve.IsHit, Carve.FILE_MAGICS;
    var ss, sample := d.sectorSize, SampleOf(d, g).value;
    Carve.MagicsPrefixFree();
    SampleIs(d, g);
    HitInside(Carve.FILE_MAGICS, sample, g.lbaStart * d.sectorSize, Carve.CarvedFile(f.kind.kind, f.offset));
    SampleFits(d, g);
    SectorOf(f.offset, g.lbaStart, g.lbaEnd, ss, g.byteSize);
  }

  lemma SectorOf(offset: nat, first: nat, last: nat, ss: nat, size: nat)
    requires ss > 0 && first <= last && size == (last - first + 1) * ss && first * ss <= offset < first * ss + size
    ensures first <= offset / ss <= last
  {
    assert first * ss + size == (last + 1) * ss;
    DivBound(offset, ss, last + 1);
    var q := offset / ss;
    assert q * ss + offset % ss == offset;
    if q < first { MulMonotone(q + 1, first, ss); }
  }
}
