/** forensic/src/analyse.rs: the partition stages, from the parsed boot sector to the gap contents. */
module Stages {
  import opened Machine
  import opened Lists
  import opened Sorting
  import opened Partition
  import opened Ebr
  import opened Gaps
  import opened Entropy
  import opened Wipe
  import opened Carve
  import opened Findings
  import opened Overlaps

  const EBR_INDEX_BASE := 4
  const GAP_SAMPLE_BYTES := 4096

  /** What inspecting the first bytes of a volume says, by byte offset: the BPB's hidden-sectors
      field, the detected filesystem, and which declared types a filesystem contradicts. */
  datatype Volumes = Volumes(hidden: int -> Option<U32>, fs: int -> Option<int>, conflicts: (int, int) -> bool)

  /** The image under analysis and the options of the run; size 0 means unknown. */
  datatype DiskOptions = DiskOptions(dev: Device, size: U64, sectorSize: U64, vols: Volumes) {

    predicate Sane() { 1 <= sectorSize <= MAX_SECTOR_SIZE }

    function LastLba(): U64
      requires sectorSize > 0
    {
      if size > 0 then LastFits(size, sectorSize); SaturatingSub(size / sectorSize, 1) else U64_MAX
    }

    /** `lba_to_byte`, saturating at 64 bits. */
    function ByteOf(lba: nat): nat {
      var bytes: int := lba * sectorSize;
      if bytes <= U64_MAX then assert bytes >= 0; bytes else U64_MAX
    }

    predicate PastEnd(offset: int) { size != 0 && offset >= size }

    function DetectedFs(offset: int): Option<int> { if PastEnd(offset) then None else vols.fs(offset) }
  }

  type Disk = d: DiskOptions | d.Sane()
    witness DiskOptions((_, _) => Short, 0, 512, Volumes(_ => None, _ => None, (_, _) => false))

  lemma LastFits(size: U64, ss: U64)
    requires ss > 0
    ensures 0 <= size / ss <= U64_MAX && size / ss * ss <= size
  {
    assert size / ss * ss <= size;
    MulMonotone(1, ss, size / ss);
  }

  /** On a disk of known size the LBAs up to the last are those whose sector lies wholly on it; LBA 0
      always counts. */
  lemma LastLbaMeans(d: Disk, x: nat)
    requires d.size > 0
    ensures x <= d.LastLba() <==> x == 0 || (x + 1) * d.sectorSize <= d.size
  {
    var q, r, ss := d.size / d.sectorSize, d.size % d.sectorSize, d.sectorSize;
    LastFits(d.size, ss);
    assert d.size == q * ss + r && r < ss;
    if x + 1 <= q { MulMonotone(x + 1, q, ss); } else { MulMonotone(q + 1, x + 1, ss); }
  }

  datatype PartitionSummary = PartitionSummary(
    index: nat, lbaStart: U64, lbaEnd: U64, byteOffset: nat, byteSize: nat, declaredType: U8, detectedFs: Option<int>)

  // ----- Content checks shared by primaries and logicals -----

  function VbrFindings(d: Disk, index: nat, lbaStart: nat, offset: nat): seq<Anomaly> {
    var hidden := if d.PastEnd(offset) then None else d.vols.hidden(offset);
    if hidden.Some? && hidden.value != 0 && hidden.value != lbaStart
    then [NewAnomaly(VbrHiddenSectorsMismatch(index, hidden.value, lbaStart), offset)] else []
  }

  function FsFindings(d: Disk, index: nat, offset: nat, declared: U8): seq<Anomaly> {
    var fs := d.DetectedFs(offset);
    if fs.Some? && d.vols.conflicts(declared, fs.value)
    then [NewAnomaly(SignatureMismatch(index, declared, fs.value), offset)] else []
  }

  method CheckVbr(d: Disk, index: nat, lbaStart: nat, offset: nat, findings: Recorder)
    modifies findings
    ensures findings.anomalies == old(findings.anomalies) + VbrFindings(d, index, lbaStart, offset)
  {
    if d.PastEnd(offset) {
      return;
    }
    var hidden := d.vols.hidden(offset);
    if hidden.None? {
      return;
    }
    if hidden.value != 0 && hidden.value != lbaStart {
      findings.Record(VbrHiddenSectorsMismatch(index, hidden.value, lbaStart), offset);
    }
  }

  method DetectAndCheckFs(d: Disk, index: nat, offset: nat, declared: U8, findings: Recorder) returns (fs: Option<int>)
    modifies findings
    ensures fs == d.DetectedFs(offset)
    ensures findings.anomalies == old(findings.anomalies) + FsFindings(d, index, offset, declared)
  {
    fs := d.DetectedFs(offset);
    if fs.Some? && d.vols.conflicts(declared, fs.value) {
      findings.Record(SignatureMismatch(index, declared, fs.value), offset);
    }
  }

  // ----- The scan state -----

  /** Logicals and non-extended primaries take part in overlap detection. */
  predicate IsData(p: PartitionSummary) { p.index >= EBR_INDEX_BASE || !IsExtendedType(p.declaredType) }

  function ClaimOf(p: PartitionSummary): Claim { Claim(p.index, p.lbaStart, p.lbaEnd) }

  function ClaimAt(s: seq<PartitionSummary>): nat -> seq<Claim> {
    (i: nat) => if i < |s| && IsData(s[i]) then [ClaimOf(s[i])] else []
  }

  function ClaimsOf(s: seq<PartitionSummary>): seq<Claim> { Concat(|s|, ClaimAt(s)) }

  lemma ClaimsAppend(s: seq<PartitionSummary>, p: PartitionSummary)
    ensures ClaimsOf(s + [p]) == if IsData(p) then ClaimsOf(s) + [ClaimOf(p)] else ClaimsOf(s)
  {
    ConcatSame(|s|, ClaimAt(s), ClaimAt(s + [p]));
  }

  lemma {:induction false} ConcatSame<T>(n: nat, f: nat -> seq<T>, g: nat -> seq<T>)
    requires forall i :: 0 <= i < n ==> f(i) == g(i)
    ensures Concat(n, f) == Concat(n, g)
  {
    if n > 0 { ConcatSame(n - 1, f, g); }
  }

  /** Extents agree with the summaries place by place; claims are those of the data partitions. */
  predicate Aligned(summaries: seq<PartitionSummary>, extents: seq<Extent>, claims: seq<Claim>) {
    && |extents| == |summaries|
    && (forall i :: 0 <= i < |summaries| ==> extents[i] == Extent(summaries[i].lbaStart, summaries[i].lbaEnd))
    && claims == ClaimsOf(summaries)
  }

  class PrimaryScan {
    var extents: seq<Extent>
    var overlapExtents: seq<Claim>
    var summaries: seq<PartitionSummary>

    ghost predicate Valid()
      reads this
    {
      Aligned(summaries, extents, overlapExtents)
    }

    constructor ()
      ensures Valid() && summaries == []
    {
      extents, overlapExtents, summaries := [], [], [];
    }

    /** Push one partition's extent, claim and summary. */
    method Push(p: PartitionSummary)
      requires Valid()
      modifies this
      ensures Valid() && summaries == old(summaries) + [p] && extents == old(extents) + [Extent(p.lbaStart, p.lbaEnd)]
      ensures overlapExtents == old(overlapExtents) +
                if p.index >= 4 || p.declaredType !in {0x05, 0x0F, 0x85} then [Claim(p.index, p.lbaStart, p.lbaEnd)] else []
    {
      ClaimsAppend(summaries, p);
      extents := extents + [Extent(p.lbaStart, p.lbaEnd)];
      if IsData(p) {
        overlapExtents := overlapExtents + [ClaimOf(p)];
      }
      summaries := summaries + [p];
    }
  }

  // ----- Primaries -----

  function PrimarySummary(d: Disk, e: PartitionEntry, i: nat): PartitionSummary {
    PartitionSummary(i, e.lbaStart, e.LbaEnd(), d.ByteOf(e.lbaStart), d.ByteOf(e.lbaCount), e.typeCode,
                     d.DetectedFs(d.ByteOf(e.lbaStart)))
  }

  predicate ChsContradicts(e: PartitionEntry) {
    || CompareChs(e.chsFirst, e.lbaStart, STD_HEADS_PER_CYL, STD_SECTORS_PER_TRACK) == Inconsistent
    || CompareChs(e.chsLast, e.LbaEnd(), STD_HEADS_PER_CYL, STD_SECTORS_PER_TRACK) == Inconsistent
  }

  /** What the entry itself records: its status byte and its CHS fields. */
  function EntryFindings(e: PartitionEntry, i: nat): seq<Anomaly> {
    OnlyIf(e.status != 0x00 && e.status != 0x80, InvalidPartitionStatus(i, e.status), EntryOffset(i))
    + OnlyIf(ChsContradicts(e), ChsLbaInconsistency(i), EntryOffset(i))
  }

  /** What its extent records: bounds, boot record, filesystem. */
  function ExtentFindings(d: Disk, e: PartitionEntry, i: nat): seq<Anomaly> {
    OnlyIf(d.size > 0 && e.LbaEnd() > d.LastLba(), OutOfBounds(i, e.LbaEnd(), d.LastLba()), EntryOffset(i))
    + VbrFindings(d, i, e.lbaStart, d.ByteOf(e.lbaStart))
    + FsFindings(d, i, d.ByteOf(e.lbaStart), e.typeCode)
  }

  /** What one primary slot records. A slot of type 0 is empty or residual and is no partition. */
  function SlotFindings(d: Disk, e: PartitionEntry, i: nat): seq<Anomaly> {
    if e.typeCode == 0 then OnlyIf(!e.IsEmpty(), ResidualEntry(i, e.lbaStart, e.lbaCount), EntryOffset(i))
    else EntryFindings(e, i) + ExtentFindings(d, e, i)
  }

  function SlotFindingsAt(d: Disk, es: seq<PartitionEntry>): nat -> seq<Anomaly> {
    (i: nat) => if i < |es| then SlotFindings(d, es[i], i) else []
  }

  function SlotSummaryAt(d: Disk, es: seq<PartitionEntry>): nat -> seq<PartitionSummary> {
    (i: nat) => if i < |es| && es[i].typeCode != 0 then [PrimarySummary(d, es[i], i)] else []
  }

  function PrimarySummaries(d: Disk, es: seq<PartitionEntry>): seq<PartitionSummary> {
    Concat(|es|, SlotSummaryAt(d, es))
  }

  function PrimaryFindings(d: Disk, es: seq<PartitionEntry>): seq<Anomaly> {
    Concat(|es|, SlotFindingsAt(d, es))
  }

  method ScanPrimaryEntries(d: Disk, entries: seq<PartitionEntry>, findings: Recorder) returns (scan: PrimaryScan)
    modifies findings
    ensures fresh(scan) && scan.Valid() && scan.summaries == PrimarySummaries(d, entries)
    ensures findings.anomalies == old(findings.anomalies) + PrimaryFindings(d, entries)
  {
    hide SlotFindingsAt, SlotSummaryAt, SlotFindings, Aligned;
    scan := new PrimaryScan();
    ghost var start, f, g := findings.anomalies, SlotFindingsAt(d, entries), SlotSummaryAt(d, entries);
    for i := 0 to |entries|
      invariant fresh(scan) && scan.Valid() && scan.summaries == Concat(i, g)
      invariant findings.anomalies == start + Concat(i, f)
    {
      var p := ScanSlot(d, entries[i], i, findings);
      SlotAt(d, entries, i);
      ConcatStep(start, i, f);
      ConcatNext(i, g);
      PushIfAny(scan, p);
    }
  }

  /** Slots that hold no partition push nothing. */
  method PushIfAny(scan: PrimaryScan, p: Option<PartitionSummary>)
    requires scan.Valid()
    modifies scan
    ensures scan.Valid()
    ensures scan.summaries == old(scan.summaries) + if p.Some? then [p.value] else []
  {
    if p.Some? {
      scan.Push(p.value);
    }
  }

  lemma SlotAt(d: Disk, es: seq<PartitionEntry>, i: nat)
    requires i < |es|
    ensures SlotFindingsAt(d, es)(i) == SlotFindings(d, es[i], i)
    ensures SlotSummaryAt(d, es)(i) == if es[i].typeCode == 0 then [] else [PrimarySummary(d, es[i], i)]
  {
  }

  /** One turn of the loop over the slots. */
  method ScanSlot(d: Disk, e: PartitionEntry, i: nat, findings: Recorder) returns (p: Option<PartitionSummary>)
    modifies findings
    ensures p == if e.typeCode == 0 then None else Some(PrimarySummary(d, e, i))
    ensures findings.anomalies == old(findings.anomalies) + SlotFindings(d, e, i)
  {
    var off := EntryOffset(i);
    if e.typeCode == 0 && (e.lbaStart != 0 || e.lbaCount != 0) {
      findings.Record(ResidualEntry(i, e.lbaStart, e.lbaCount), off);
      return None;
    }
    if e.IsEmpty() {
      return None;
    }
    ghost var start := findings.anomalies;
    CheckEntry(e, i, findings);
    var offset := d.ByteOf(e.lbaStart);
    var fs := CheckExtent(d, e, i, offset, findings);
    Assoc(start, EntryFindings(e, i), ExtentFindings(d, e, i));
    p := Some(PartitionSummary(i, e.lbaStart, e.LbaEnd(), offset, d.ByteOf(e.lbaCount), e.typeCode, fs));
  }

  method CheckEntry(e: PartitionEntry, i: nat, findings: Recorder)
    modifies findings
    ensures findings.anomalies == old(findings.anomalies) + EntryFindings(e, i)
  {
    ghost var start := findings.anomalies;
    ghost var s1 := OnlyIf(e.status != 0x00 && e.status != 0x80, InvalidPartitionStatus(i, e.status), EntryOffset(i));
    ghost var s2 := OnlyIf(ChsContradicts(e), ChsLbaInconsistency(i), EntryOffset(i));
    if e.status != 0x00 && e.status != 0x80 {
      findings.Record(InvalidPartitionStatus(i, e.status), EntryOffset(i));
    }
    assert findings.anomalies == start + s1;
    if ChsContradicts(e) {
      findings.Record(ChsLbaInconsistency(i), EntryOffset(i));
    }
    Assoc(start, s1, s2);
  }

  method CheckExtent(d: Disk, e: PartitionEntry, i: nat, offset: nat, findings: Recorder) returns (fs: Option<int>)
    requires offset == d.ByteOf(e.lbaStart)
    modifies findings
    ensures fs == d.DetectedFs(offset)
    ensures findings.anomalies == old(findings.anomalies) + ExtentFindings(d, e, i)
  {
    ghost var start := findings.anomalies;
    ghost var s1 := OnlyIf(d.size > 0 && e.LbaEnd() > d.LastLba(), OutOfBounds(i, e.LbaEnd(), d.LastLba()), EntryOffset(i));
    ghost var s2, s3 := VbrFindings(d, i, e.lbaStart, offset), FsFindings(d, i, offset, e.typeCode);
    if d.size > 0 && e.LbaEnd() > d.LastLba() {
      findings.Record(OutOfBounds(i, e.LbaEnd(), d.LastLba()), EntryOffset(i));
    }
    assert findings.anomalies == start + s1;
    CheckVbr(d, i, e.lbaStart, offset, findings);
    Assoc(start, s1, s2);
    fs := DetectAndCheckFs(d, i, offset, e.typeCode, findings);
    Assoc(start, s1 + s2, s3);
  }

  // ----- Logicals -----

  function FirstExtended(es: seq<PartitionEntry>): Option<PartitionEntry> {
    if es == [] then None else if es[0].IsExtended() then Some(es[0]) else FirstExtended(es[1..])
  }

  function EmptyChain(): EbrChain { EbrChain([], false, false) }

  function ImageAt(d: Disk, ext: PartitionEntry): Image { Image(d.dev, ext.lbaStart, d.sectorSize) }

  /** The chain of the first extended entry, or the empty chain when there is none or its walk fails. */
  ghost predicate IsChainOf(d: Disk, es: seq<PartitionEntry>, chain: EbrChain) {
    match FirstExtended(es)
    case None => chain == EmptyChain()
    case Some(ext) =>
      exists r, p :: ImageAt(d, ext).Describes(r, p) && chain == if r.Ok? then r.value else EmptyChain()
  }

  function LogicalEnd(e: EbrEntry): U64 {
    SaturatingSub(SaturatingAdd(e.logicalLbaStart, e.logical.lbaCount), 1)
  }

  function LogicalSummary(d: Disk, e: EbrEntry, index: nat): PartitionSummary {
    var offset := d.ByteOf(e.logicalLbaStart);
    PartitionSummary(index, e.logicalLbaStart, LogicalEnd(e), offset, d.ByteOf(e.logical.lbaCount),
                     e.logical.typeCode, d.DetectedFs(offset))
  }

  function SlackFindings(e: EbrEntry): seq<Anomaly> {
    OnlyIf(e.hasSlack, EbrSlackData(e.ebrLba, EntropyOf(e.slack)), e.ebrOffset + EBR_SLACK_OFFSET)
  }

  function LinkFindings(d: Disk, e: EbrEntry, index: nat): seq<Anomaly> {
    var offset := d.ByteOf(e.logicalLbaStart);
    SlackFindings(e)
    + VbrFindings(d, index, e.logicalLbaStart, offset)
    + FsFindings(d, index, offset, e.logical.typeCode)
  }

  /** Logicals are numbered on from 4 plus the number of summaries before them. */
  function LogicalSummaryAt(d: Disk, es: seq<EbrEntry>, base: nat): nat -> seq<PartitionSummary> {
    (i: nat) => if i < |es| then [LogicalSummary(d, es[i], EBR_INDEX_BASE + (base + i))] else []
  }

  function LinkFindingsAt(d: Disk, es: seq<EbrEntry>, base: nat): nat -> seq<Anomaly> {
    (i: nat) => if i < |es| then LinkFindings(d, es[i], EBR_INDEX_BASE + (base + i)) else []
  }

  function LogicalSummaries(d: Disk, es: seq<EbrEntry>, base: nat): seq<PartitionSummary> {
    Concat(|es|, LogicalSummaryAt(d, es, base))
  }

  function ChainFindings(chain: EbrChain, extOffset: nat): seq<Anomaly> {
    OnlyIf(chain.hadCycle, EbrCycle, extOffset)
    + OnlyIf(chain.depthExceeded, EbrExcessiveDepth(|chain.entries|), extOffset)
  }

  /** Chain flags, then each link. */
  function ExtendedFindings(d: Disk, es: seq<PartitionEntry>, chain: EbrChain, base: nat): seq<Anomaly> {
    match FirstExtended(es)
    case None => []
    case Some(ext) =>
      ChainFindings(chain, d.ByteOf(ext.lbaStart)) + Concat(|chain.entries|, LinkFindingsAt(d, chain.entries, base))
  }

  /** Chain LBAs come from three 32-bit fields, and slack offsets fit in 64 bits. */
  predicate LinkSmall(e: EbrEntry) {
    && e.ebrLba <= 2 * U32_MAX && e.ebrOffset + EBR_SLACK_OFFSET <= U64_MAX && |e.slack| == 32
    && e.logicalLbaStart == e.ebrLba + e.logical.lbaStart <= 3 * U32_MAX
  }

  predicate ChainSmall(es: seq<EbrEntry>) { forall i :: 0 <= i < |es| ==> LinkSmall(es[i]) }

  lemma ChainIsSmall(d: Disk, es: seq<PartitionEntry>, chain: EbrChain)
    requires IsChainOf(d, es, chain)
    ensures ChainSmall(chain.entries)
  {
    if FirstExtended(es).Some? {
      var img := ImageAt(d, FirstExtended(es).value);
      var r, p :| img.Describes(r, p) && chain == if r.Ok? then r.value else EmptyChain();
      forall i | 0 <= i < |chain.entries| ensures LinkSmall(chain.entries[i]) {
        ChainEnvelope(img, r, p);
        assert EntrySmall(chain.entries[i]);
        MulBound(chain.entries[i].ebrLba, d.sectorSize, 2 * U32_MAX, MAX_SECTOR_SIZE);
        assert chain.entries[i] == img.EntryOf(p[i]);
      }
    }
  }

  method WalkExtended(d: Disk, entries: seq<PartitionEntry>, scan: PrimaryScan, findings: Recorder)
    returns (chain: EbrChain)
    requires scan.Valid()
    modifies scan, findings
    ensures IsChainOf(d, entries, chain) && scan.Valid()
    ensures scan.summaries == old(scan.summaries) + LogicalSummaries(d, chain.entries, |old(scan.summaries)|)
    ensures findings.anomalies
         == old(findings.anomalies) + ExtendedFindings(d, entries, chain, |old(scan.summaries)|)
  {
    var found := FirstExtended(entries);
    if found.None? {
      return EmptyChain();
    }
    var ext := found.value;
    chain := WalkOrEmpty(d, entries, ext);
    ghost var start, base := findings.anomalies, |scan.summaries|;
    RecordFlags(chain, d.ByteOf(ext.lbaStart), findings);
    AddLogicals(d, chain.entries, scan, findings);
    Assoc(start, ChainFindings(chain, d.ByteOf(ext.lbaStart)),
          Concat(|chain.entries|, LinkFindingsAt(d, chain.entries, base)));
  }

  /** A failed walk counts as an empty chain. */
  method WalkOrEmpty(d: Disk, ghost entries: seq<PartitionEntry>, ext: PartitionEntry) returns (chain: EbrChain)
    requires FirstExtended(entries) == Some(ext)
    ensures IsChainOf(d, entries, chain) && ChainSmall(chain.entries)
  {
    var walked := WalkEbrChain(ImageAt(d, ext));
    chain := if walked.Ok? then walked.value else EmptyChain();
    assert IsChainOf(d, entries, chain);
    ChainIsSmall(d, entries, chain);
  }

  method RecordFlags(chain: EbrChain, extOffset: nat, findings: Recorder)
    modifies findings
    ensures findings.anomalies == old(findings.anomalies) + ChainFindings(chain, extOffset)
  {
    ghost var start := findings.anomalies;
    ghost var s1 := OnlyIf(chain.hadCycle, EbrCycle, extOffset);
    if chain.hadCycle {
      findings.Record(EbrCycle, extOffset);
    }
    assert findings.anomalies == start + s1;
    if chain.depthExceeded {
      findings.Record(EbrExcessiveDepth(|chain.entries|), extOffset);
    }
    Assoc(start, s1, OnlyIf(chain.depthExceeded, EbrExcessiveDepth(|chain.entries|), extOffset));
  }

  /** The loop over the chain. */
  method AddLogicals(d: Disk, es: seq<EbrEntry>, scan: PrimaryScan, findings: Recorder)
    requires scan.Valid() && ChainSmall(es)
    modifies scan, findings
    ensures scan.Valid()
    ensures scan.summaries == old(scan.summaries) + LogicalSummaries(d, es, |old(scan.summaries)|)
    ensures findings.anomalies
         == old(findings.anomalies) + Concat(|es|, LinkFindingsAt(d, es, |old(scan.summaries)|))
  {
    hide LinkFindingsAt, LogicalSummaryAt, LinkFindings, LogicalSummary, Aligned;
    ghost var start, before, base := findings.anomalies, scan.summaries, |scan.summaries|;
    ghost var f, g := LinkFindingsAt(d, es, base), LogicalSummaryAt(d, es, base);
    for i := 0 to |es|
      invariant scan.Valid() && |scan.summaries| == base + i
      invariant scan.summaries == before + Concat(i, g)
      invariant findings.anomalies == start + Concat(i, f)
    {
      var index := EBR_INDEX_BASE + |scan.summaries|;
      var p := AddLogical(d, es[i], index, findings);
      LinkAt(d, es, base, i, index);
      ConcatStep(start, i, f);
      ConcatStep(before, i, g);
      ghost var sofar := scan.summaries;
      scan.Push(p);
      assert scan.summaries == sofar + g(i);
    }
  }

  lemma LinkAt(d: Disk, es: seq<EbrEntry>, base: nat, i: nat, index: nat)
    requires i < |es| && index == EBR_INDEX_BASE + (base + i)
    ensures LinkFindingsAt(d, es, base)(i) == LinkFindings(d, es[i], index)
    ensures LogicalSummaryAt(d, es, base)(i) == [LogicalSummary(d, es[i], index)]
  {
  }

  method AddLogical(d: Disk, e: EbrEntry, index: nat, findings: Recorder) returns (p: PartitionSummary)
    requires LinkSmall(e)
    modifies findings
    ensures p == LogicalSummary(d, e, index)
    ensures findings.anomalies == old(findings.anomalies) + LinkFindings(d, e, index)
  {
    hide VbrFindings, FsFindings, DiskOptions.ByteOf, DiskOptions.DetectedFs, EntropyOf;
    ghost var start := findings.anomalies;
    CheckSlack(e, findings);
    var lbaStart := e.logicalLbaStart;
    var lbaEnd := SaturatingSub(SaturatingAdd(lbaStart, e.logical.lbaCount), 1);
    var offset := d.ByteOf(lbaStart);
    ghost var s1, s2, s3 :=
      SlackFindings(e), VbrFindings(d, index, lbaStart, offset), FsFindings(d, index, offset, e.logical.typeCode);
    CheckVbr(d, index, lbaStart, offset, findings);
    Assoc(start, s1, s2);
    var fs := DetectAndCheckFs(d, index, offset, e.logical.typeCode, findings);
    Assoc(start, s1 + s2, s3);
    p := PartitionSummary(index, lbaStart, lbaEnd, offset, d.ByteOf(e.logical.lbaCount), e.logical.typeCode, fs);
  }

  method CheckSlack(e: EbrEntry, findings: Recorder)
    requires LinkSmall(e)
    modifies findings
    ensures findings.anomalies == old(findings.anomalies) + SlackFindings(e)
  {
    if e.hasSlack {
      var entropy := Shannon(e.slack);
      var slackOffset: U64 := e.ebrOffset + EBR_SLACK_OFFSET;
      findings.Record(EbrSlackData(e.ebrLba, entropy), slackOffset);
    }
  }

  // ----- Gaps -----

  /** The extents as `compute_gaps` gets them. */
  function Prepared(es: seq<Extent>): seq<Extent> { Dedup(SortByKey(es, ExtentKey())) }

  function GapsOf(d: Disk, es: seq<Extent>): seq<Gap> {
    if d.size == 0 then [] else Sweep(Prepared(es), 1, 1, d.LastLba(), Scale(d.sectorSize))
  }

  /** Extents made of 32-bit starts and counts. */
  predicate ExtentsSmall(es: seq<Extent>) {
    forall i :: 0 <= i < |es| ==> es[i].Formed() && es[i].start <= 3 * U32_MAX && es[i].end <= 4 * U32_MAX
  }

  /** A gap whose bytes, and the offset just past it, fit in 64 bits. */
  predicate GapFits(g: Gap, ss: nat) {
    && g.lbaStart <= g.lbaEnd && g.byteSize == Scale(ss)(g.lbaEnd - g.lbaStart + 1) && (g.lbaEnd + 1) * ss <= U64_MAX
  }

  predicate AllFit(gs: seq<Gap>, ss: nat) { forall i :: 0 <= i < |gs| ==> GapFits(gs[i], ss) }

  /** Sorting and deduplicating keep the extents, so what is covered and where extents start. */
  lemma PreparedFacts(es: seq<Extent>)
    ensures SortedBy(Prepared(es), ExtentKey())
    ensures forall e :: e in Prepared(es) <==> e in es
    ensures forall x :: Covered(Prepared(es), x) <==> Covered(es, x)
    ensures forall x :: StartsAbove(Prepared(es), x) <==> StartsAbove(es, x)
  {
    var key := ExtentKey();
    var s, t := SortByKey(es, key), Prepared(es);
    SortFacts(es, key);
    DedupSorted(s, key);
    forall e ensures e in t <==> e in es {
      SortMember(es, key, e);
      DedupMember(s, e);
    }
    SameMembersSameCover(es, t);
    SameMembersSameCover(t, es);
  }

  lemma SameMembersSameCover(a: seq<Extent>, b: seq<Extent>)
    requires forall e :: e in a ==> e in b
    ensures forall x :: Covered(a, x) ==> Covered(b, x)
    ensures forall x :: StartsAbove(a, x) ==> StartsAbove(b, x)
  {
    forall x | Covered(a, x) ensures Covered(b, x) {
      var i :| 0 <= i < |a| && a[i].Holds(x);
      assert a[i] in b;
      var j :| 0 <= j < |b| && b[j] == a[i];
      assert b[j].Holds(x);
    }
    forall x | StartsAbove(a, x) ensures StartsAbove(b, x) {
      var i :| 0 <= i < |a| && a[i].start > x;
      assert a[i] in b;
    }
  }

  lemma PreparedSmall(es: seq<Extent>)
    requires ExtentsSmall(es)
    ensures ExtentsSmall(Prepared(es)) && AllFormed(Prepared(es))
  {
    PreparedFacts(es);
    var t := Prepared(es);
    forall i | 0 <= i < |t| ensures t[i].Formed() && t[i].start <= 3 * U32_MAX && t[i].end <= 4 * U32_MAX {
      assert t[i] in t;
    }
  }

  /** The longest span the sweep can measure fits. */
  lemma SpanFits(d: Disk)
    requires d.size > 0
    ensures (d.LastLba() + 1) * d.sectorSize <= U64_MAX && 3 * U32_MAX * d.sectorSize <= U64_MAX
  {
    MulBound(3 * U32_MAX, d.sectorSize, 3 * U32_MAX, MAX_SECTOR_SIZE);
    LastFits(d.size, d.sectorSize);
    if d.size / d.sectorSize > 0 {
      assert d.LastLba() + 1 == d.size / d.sectorSize;
    }
  }

  lemma GapsFit(d: Disk, es: seq<Extent>)
    requires ExtentsSmall(es)
    ensures AllFit(GapsOf(d, es), d.sectorSize)
    ensures d.size > 0 ==> IsGapList(GapsOf(d, es), Prepared(es), 1, d.LastLba(), Scale(d.sectorSize))
  {
    if d.size > 0 {
      PreparedFacts(es);
      PreparedSmall(es);
      SweepIsGapList(Prepared(es), 1, d.LastLba(), Scale(d.sectorSize));
      GapListFits(d, GapsOf(d, es), Prepared(es));
    }
  }

  lemma GapListFits(d: Disk, gs: seq<Gap>, t: seq<Extent>)
    requires d.size > 0 && ExtentsSmall(t) && IsGapList(gs, t, 1, d.LastLba(), Scale(d.sectorSize))
    ensures AllFit(gs, d.sectorSize)
  {
    SpanFits(d);
    forall i | 0 <= i < |gs| ensures GapFits(gs[i], d.sectorSize) {
      GapBelow(gs, t, d.LastLba(), Scale(d.sectorSize), i);
      var top := if gs[i].lbaEnd <= d.LastLba() then d.LastLba() + 1 else 3 * U32_MAX;
      MulMonotone(gs[i].lbaEnd + 1, top, d.sectorSize);
    }
  }

  lemma GapBelow(gs: seq<Gap>, t: seq<Extent>, last: nat, size: nat -> nat, i: nat)
    requires IsGapList(gs, t, 1, last, size) && ExtentsSmall(t) && i < |gs|
    ensures gs[i].lbaStart >= 1 && (gs[i].lbaEnd <= last || gs[i].lbaEnd < 3 * U32_MAX)
  {
    assert gs[i].Holds(gs[i].lbaEnd) && InGap(gs, gs[i].lbaEnd);
    assert gs[i].Holds(gs[i].lbaStart) && InGap(gs, gs[i].lbaStart);
  }

  function GapKindOf(g: Gap): AnomalyKind {
    match g.kind
    case PrePartition => PrePartitionSpace(g.lbaStart, g.lbaEnd, g.byteSize)
    case Between => InterPartitionGap(g.lbaStart, g.lbaEnd, g.byteSize)
    case PostPartition => PostPartitionSpace(g.lbaStart, g.lbaEnd, g.byteSize)
  }

  function GapFindingAt(d: Disk, gs: seq<Gap>): nat -> seq<Anomaly> {
    (i: nat) => if i < |gs| then [NewAnomaly(GapKindOf(gs[i]), d.ByteOf(gs[i].lbaStart))] else []
  }

  function GapFindings(d: Disk, gs: seq<Gap>): seq<Anomaly> { Concat(|gs|, GapFindingAt(d, gs)) }

  method CheckGaps(d: Disk, extents: seq<Extent>, findings: Recorder) returns (gaps: seq<Gap>)
    requires ExtentsSmall(extents)
    modifies findings
    ensures gaps == GapsOf(d, extents) && AllFit(gaps, d.sectorSize)
    ensures findings.anomalies == old(findings.anomalies) + GapFindings(d, gaps)
  {
    hide *;
    GapsFit(d, extents);
    if d.size == 0 {
      NoSizeNoGaps(d, extents);
      gaps := [];
    } else {
      gaps := SortAndSweep(d, extents);
    }
    RecordGaps(d, gaps, findings);
  }

  lemma NoSizeNoGaps(d: Disk, es: seq<Extent>)
    requires d.size == 0
    ensures GapsOf(d, es) == []
  {
  }

  method RecordGaps(d: Disk, gaps: seq<Gap>, findings: Recorder)
    modifies findings
    ensures findings.anomalies == old(findings.anomalies) + GapFindings(d, gaps)
  {
    hide GapFindingAt, GapKindOf, DiskOptions.ByteOf;
    ghost var start, f := findings.anomalies, GapFindingAt(d, gaps);
    for i := 0 to |gaps|
      invariant findings.anomalies == start + Concat(i, f)
    {
      GapAt(d, gaps, i);
      findings.Record(GapKindOf(gaps[i]), d.ByteOf(gaps[i].lbaStart));
      ConcatStep(start, i, f);
    }
  }

  lemma GapAt(d: Disk, gs: seq<Gap>, i: nat)
    requires i < |gs|
    ensures GapFindingAt(d, gs)(i) == [NewAnomaly(GapKindOf(gs[i]), d.ByteOf(gs[i].lbaStart))]
  {
  }

  method SortAndSweep(d: Disk, extents: seq<Extent>) returns (gaps: seq<Gap>)
    requires d.size > 0 && ExtentsSmall(extents)
    ensures gaps == GapsOf(d, extents)
  {
    var sorted := Dedup(SortByKey(extents, ExtentKey()));
    PreparedFits(d, extents);
    gaps := ComputeGaps(sorted, 1, d.LastLba(), d.sectorSize);
  }

  /** The sweep of a run overflows nowhere. */
  lemma PreparedFits(d: Disk, es: seq<Extent>)
    requires d.size > 0 && ExtentsSmall(es)
    ensures SweepFits(Prepared(es), 1, d.LastLba(), Scale(d.sectorSize))
  {
    hide Prepared, SweepFits, DiskOptions.LastLba;
    PreparedFacts(es);
    PreparedSmall(es);
    SpanFits(d);
    var span: nat := if d.LastLba() < 3 * U32_MAX then 3 * U32_MAX else d.LastLba() + 1;
    MulMonotone(1, d.sectorSize, span);
    SpanSuffices(Prepared(es), 1, d.LastLba(), d.sectorSize, span);
  }

  // ----- Gap contents -----

  function CarvedFindingAt(cs: seq<CarvedFile>): nat -> seq<Anomaly> {
    (i: nat) => if i < |cs| && cs[i].offset >= 0 then [NewAnomaly(CarvedArtifact(cs[i].kind), cs[i].offset)] else []
  }

  function CarvedFindings(cs: seq<CarvedFile>): seq<Anomaly> { Concat(|cs|, CarvedFindingAt(cs)) }

  /** Carved offsets lie inside the sample. */
  lemma CarvingInside(data: Bytes, base: nat)
    ensures forall i :: 0 <= i < |Carving(data, base)| ==> base <= Carving(data, base)[i].offset < base + |data|
  {
    var cs := Carving(data, base);
    CarvingExact(data, base);
    MagicsPrefixFree();
    forall i | 0 <= i < |cs| ensures base <= cs[i].offset < base + |data| {
      assert cs[i] in cs;
      HitInside(FILE_MAGICS, data, base, cs[i]);
    }
  }

  lemma HitInside(table: seq<FileMagic>, data: Bytes, base: int, c: CarvedFile)
    requires PrefixFree(table) && IsHit(table, |table|, data, base, c)
    ensures base <= c.offset < base + |data|
  {
    var k :| 0 <= k < |table| && HitOf(table[k], data, base, c);
    assert table[k].magic != [];
  }

  function SampleLen(g: Gap): nat { if g.byteSize < GAP_SAMPLE_BYTES then g.byteSize else GAP_SAMPLE_BYTES }

  /** What the sample at a gap's start shows: its fill, then the carved headers. */
  function SampleFindings(g: Gap, offset: nat, sample: Bytes): seq<Anomaly> {
    OnlyIf(Classify(sample).IsDeliberateWipe(), WipedRegion(g.lbaStart, Classify(sample)), offset)
    + CarvedFindings(Carving(sample, offset))
  }

  function GapContent(d: Disk, g: Gap): seq<Anomaly> {
    var offset := d.ByteOf(g.lbaStart);
    match ReadExact(d.dev, offset, SampleLen(g))
    case Data(sample) => SampleFindings(g, offset, sample)
    case _ => []
  }

  function GapContentAt(d: Disk, gs: seq<Gap>): nat -> seq<Anomaly> {
    (i: nat) => if i < |gs| then GapContent(d, gs[i]) else []
  }

  /** The sample has bytes, is the whole gap or its first 4096 bytes, starts at the exact product, and its
      end fits in 64 bits. */
  lemma SampleFits(d: Disk, g: Gap)
    requires GapFits(g, d.sectorSize)
    ensures SampleLen(g) > 0 && d.ByteOf(g.lbaStart) == g.lbaStart * d.sectorSize
    ensures SampleLen(g) <= 4096 && SampleLen(g) <= g.byteSize && (SampleLen(g) == 4096 || SampleLen(g) == g.byteSize)
    ensures d.ByteOf(g.lbaStart) + SampleLen(g) <= U64_MAX
  {
    var n, ss := g.lbaEnd - g.lbaStart + 1, d.sectorSize;
    assert g.byteSize == n * ss;
    MulMonotone(1, n, ss);
    assert g.lbaStart * ss + n * ss == (g.lbaEnd + 1) * ss;
  }

  method CheckGapContent(d: Disk, gaps: seq<Gap>, findings: Recorder)
    requires AllFit(gaps, d.sectorSize)
    modifies findings
    ensures findings.anomalies == old(findings.anomalies) + Concat(|gaps|, GapContentAt(d, gaps))
  {
    hide GapContent, GapFits, Concat;
    ghost var start, f := findings.anomalies, GapContentAt(d, gaps);
    ConcatNone(f);
    for i := 0 to |gaps|
      invariant findings.anomalies == start + Concat(i, f)
    {
      CheckOneGap(d, gaps[i], findings);
      assert f(i) == GapContent(d, gaps[i]);
      ConcatStep(start, i, f);
    }
  }

  method CheckOneGap(d: Disk, g: Gap, findings: Recorder)
    requires GapFits(g, d.sectorSize)
    modifies findings
    ensures findings.anomalies == old(findings.anomalies) + GapContent(d, g)
  {
    SampleFits(d, g);
    var offset := d.ByteOf(g.lbaStart);
    var sampleLen := SampleLen(g);
    var read := ReadExact(d.dev, offset, sampleLen);
    if !read.Data? {
      return;
    }
    CheckSample(g, offset, read.bytes, findings);
  }

  method CheckSample(g: Gap, offset: U64, sample: Bytes, findings: Recorder)
    requires offset + |sample| <= U64_MAX
    modifies findings
    ensures findings.anomalies == old(findings.anomalies) + SampleFindings(g, offset, sample)
  {
    ghost var start := findings.anomalies;
    var pattern := Classify(sample);
    ghost var wiped := OnlyIf(pattern.IsDeliberateWipe(), WipedRegion(g.lbaStart, pattern), offset);
    if pattern.IsDeliberateWipe() {
      findings.Record(WipedRegion(g.lbaStart, pattern), offset);
    }
    assert findings.anomalies == start + wiped;
    var carved := Carve.Carve(sample, offset);
    CarvingInside(sample, offset);
    RecordCarved(carved, findings);
    Assoc(start, wiped, CarvedFindings(carved));
  }

  method RecordCarved(cs: seq<CarvedFile>, findings: Recorder)
    requires forall i :: 0 <= i < |cs| ==> cs[i].offset >= 0
    modifies findings
    ensures findings.anomalies == old(findings.anomalies) + CarvedFindings(cs)
  {
    ghost var start, f := findings.anomalies, CarvedFindingAt(cs);
    for i := 0 to |cs|
      invariant findings.anomalies == start + Concat(i, f)
    {
      findings.Record(CarvedArtifact(cs[i].kind), cs[i].offset);
      assert f(i) == [NewAnomaly(CarvedArtifact(cs[i].kind), cs[i].offset)];
      ConcatStep(start, i, f);
    }
  }
}
