/** What a run reports, by the bytes of the image: the boot sector, the chain behind the container, the
    partitions and which of them the overlap check compares. */
module ImageBytes {
  import opened Machine
  import opened Partition
  import Mbr
  import opened Ebr
  import opened Findings
  import opened Overlaps
  import opened Stages
  import opened Pipeline
  import opened Declared

  // ----- The boot sector -----

  /** Which boot sectors are refused, with which error, and how the table is read from the others. */
  lemma BootByBytes(d: Disk)
    ensures ReadMbr(d).Ok? <==> Signed(d.dev(0, 512))
    ensures ReadMbr(d).Ok? ==>
              && |ReadMbr(d).value.entries| == 4
              && forall i :: 0 <= i < 4 ==> TellsFields(d.dev(0, 512).bytes, 446 + 16 * i, ReadMbr(d).value.entries[i])
    ensures ReadMbr(d).Err? && (!d.dev(0, 512).Data? || |d.dev(0, 512).bytes| != 512) ==> ReadMbr(d).error == ReadFailed
    ensures ReadMbr(d).Err? && d.dev(0, 512).Data? && |d.dev(0, 512).bytes| == 512 ==>
              && ReadMbr(d).error.BadSector? && ReadMbr(d).error.error.BadSignature?
              && var high: int := d.dev(0, 512).bytes[510];
                 ReadMbr(d).error.error.value == 256 * high + d.dev(0, 512).bytes[511]
  {
    hide Mbr.Parse, TellsFields;
    var r := d.dev(0, 512);
    if r.Data? && |r.bytes| == 512 { Mbr.ParseByBytes(r.bytes); }
  }

  lemma RunBoot(d: Disk, a: Analysis)
    requires IsAnalysis(d, a)
    ensures Signed(d.dev(0, 512)) && |a.mbr.entries| == 4
    ensures forall i :: 0 <= i < 4 ==> TellsFields(d.dev(0, 512).bytes, 446 + 16 * i, a.mbr.entries[i])
  {
    hide TellsFields, Signed, GapsOf, OverlapFindings, GapFindings, PrimaryFindings, ExtendedFindings, IsChainOf, Partitions,
         ContentFindings, ReadMbr;
    BootByBytes(d);
  }

  // ----- The chain -----

  predicate ContainerType(t: U8) { t == 0x05 || t == 0x0F || t == 0x85 }

  /** Slot `k` of boot sector `s` is the first whose type byte is that of a container. */
  predicate IsContainer(s: Bytes, k: nat)
    requires |s| == 512
  {
    k < 4 && ContainerType(s[450 + 16 * k]) && forall j :: 0 <= j < k ==> !ContainerType(s[450 + 16 * j])
  }

  predicate NoContainer(s: Bytes)
    requires |s| == 512
  {
    forall j :: 0 <= j < 4 ==> !ContainerType(s[450 + 16 * j])
  }

  lemma {:induction false} FirstExtendedIs(es: seq<PartitionEntry>, k: nat)
    requires k < |es| && ContainerType(es[k].typeCode) && forall j :: 0 <= j < k ==> !ContainerType(es[j].typeCode)
    ensures FirstExtended(es) == Some(es[k])
    decreases k
  {
    if k > 0 { FirstExtendedIs(es[1..], k - 1); }
  }

  lemma {:induction false} NoneExtended(es: seq<PartitionEntry>)
    requires forall j :: 0 <= j < |es| ==> !ContainerType(es[j].typeCode)
    ensures FirstExtended(es) == None
    decreases |es|
  {
    if es != [] { NoneExtended(es[1..]); }
  }

  /** The chain of a run is that of the first slot of type 0x05, 0x0F or 0x85, and empty without one. */
  lemma RunChainByBytes(d: Disk, a: Analysis, k: nat)
    requires IsAnalysis(d, a)
    ensures Signed(d.dev(0, 512))
    ensures var s := d.dev(0, 512).bytes;
            && (NoContainer(s) ==> a.chain == EbrChain([], false, false))
            && (IsContainer(s, k) ==> ChainTold(Image(d.dev, Word(s, 454 + 16 * k), d.sectorSize), a.chain))
  {
    hide IsAnalysis, ChainTold, Image.Describes, Word;
    RunBoot(d, a);
    FourEntries(d, a);
    var s, es := d.dev(0, 512).bytes, a.mbr.entries;
    forall j | 0 <= j < 4 ensures es[j].typeCode == s[450 + 16 * j] { assert TellsFields(s, 446 + 16 * j, es[j]); }
    if NoContainer(s) { NoneExtended(es); }
    if IsContainer(s, k) {
      FirstExtendedIs(es, k);
      assert TellsFields(s, 446 + 16 * k, es[k]);
      var img := ImageAt(d, es[k]);
      var r, p :| img.Describes(r, p) && a.chain == if r.Ok? then r.value else EmptyChain();
      DescribedIsTold(img, r, p);
    }
  }

  // ----- Partitions -----

  /** Every field of the partition at place `i` of the report. The first come from the slots whose type byte
      is not 0, the others from the links, numbered on from 4 plus their place. */
  ghost predicate PartitionTold(d: Disk, a: Analysis, i: nat)
    requires i < |a.partitions| && Signed(d.dev(0, 512))
  {
    var s, p, k := d.dev(0, 512).bytes, a.partitions[i], i + |a.chain.entries| - |a.partitions|;
    && p.byteOffset == p.lbaStart * d.sectorSize
    && p.detectedFs == (if d.size != 0 && p.byteOffset >= d.size then None else d.vols.fs(p.byteOffset))
    && if k < 0 then
         && p.index < 4 && p.declaredType == s[450 + 16 * p.index] != 0 && p.lbaStart == Word(s, 454 + 16 * p.index)
         && p.byteSize == Word(s, 458 + 16 * p.index) * d.sectorSize
         && p.lbaEnd == ReportedEnd(true, p.lbaStart, Word(s, 458 + 16 * p.index))
       else
         && k < |a.chain.entries| && p.index == 4 + i
         && var e := a.chain.entries[k];
            && p.declaredType == e.logical.typeCode && p.lbaStart == e.logicalLbaStart
            && p.byteSize == e.logical.lbaCount * d.sectorSize
            && p.lbaEnd == ReportedEnd(false, p.lbaStart, e.logical.lbaCount)
  }

  lemma RunPartitionsByBytes(d: Disk, a: Analysis)
    requires IsAnalysis(d, a)
    ensures Signed(d.dev(0, 512))
    ensures forall i :: 0 <= i < |a.partitions| ==> PartitionTold(d, a, i)
    ensures forall k :: 0 <= k < 4 ==>
              (d.dev(0, 512).bytes[450 + 16 * k] != 0 <==> exists p :: p in a.partitions && p.index == k)
  {
    hide IsAnalysis, PartitionTold, Word;
    RunBoot(d, a);
    forall i | 0 <= i < |a.partitions| ensures PartitionTold(d, a, i) { PartitionIsTold(d, a, i); }
    PartitionsComplete(d, a);
    var s := d.dev(0, 512).bytes;
    forall k | 0 <= k < 4 ensures s[450 + 16 * k] != 0 <==> exists p :: p in a.partitions && p.index == k {
      assert TellsFields(s, 446 + 16 * k, a.mbr.entries[k]);
    }
  }

  lemma PartitionIsTold(d: Disk, a: Analysis, i: nat)
    requires IsAnalysis(d, a) && i < |a.partitions|
    ensures Signed(d.dev(0, 512)) && PartitionTold(d, a, i)
  {
    hide IsAnalysis, ReportedEnd, PrimarySized, LogicalSized, Word, Partitions, IsChainOf, DiskOptions.ByteOf, PrimarySummaries;
    var p, es, n := a.partitions[i], a.mbr.entries, |PrimarySummaries(d, a.mbr.entries)|;
    RunBoot(d, a);
    PartitionFields(d, a, i);
    RunPartitionsSmall(d, a);
    RunSizesExact(d, a);
    FourEntries(d, a);
    LogicalPartitions(d, es, a.chain);
    OffsetExact(d, p);
    if i < n {
      JoinedPartitions(d, es, a.chain);
      assert p in PrimarySummaries(d, es);
      PrimaryIndex(d, es, p);
      assert TellsFields(d.dev(0, 512).bytes, 446 + 16 * p.index, es[p.index]);
      assert PrimarySized(d, es[p.index], p);
      SizeOfPrimary(d, es[p.index], p);
      PrimaryFs(d, es[p.index], p.index);
    } else {
      var k := i - n;
      assert LogicalSized(d, a.chain.entries[k], a.partitions[n + k]);
      SizeOfLogical(d, a.chain.entries[k], p);
      LogicalFs(d, a.chain.entries[k], EBR_INDEX_BASE + (n + k));
    }
  }

  lemma OffsetExact(d: Disk, p: PartitionSummary)
    requires IsSmall(d, p)
    ensures p.byteOffset == p.lbaStart * d.sectorSize
  {
  }

  lemma SizeOfPrimary(d: Disk, e: PartitionEntry, p: PartitionSummary)
    requires PrimarySized(d, e, p)
    ensures p.byteSize == e.lbaCount * d.sectorSize
  {
  }

  lemma SizeOfLogical(d: Disk, e: EbrEntry, p: PartitionSummary)
    requires LogicalSized(d, e, p)
    ensures p.byteSize == e.logical.lbaCount * d.sectorSize
  {
  }

  lemma PrimaryFs(d: Disk, e: PartitionEntry, i: nat)
    ensures var p := PrimarySummary(d, e, i);
            p.detectedFs == if d.size != 0 && p.byteOffset >= d.size then None else d.vols.fs(p.byteOffset)
  {
    hide DiskOptions.ByteOf;
  }

  lemma LogicalFs(d: Disk, e: EbrEntry, index: nat)
    ensures var p := LogicalSummary(d, e, index);
            && p.index == index && p.declaredType == e.logical.typeCode
            && p.detectedFs == if d.size != 0 && p.byteOffset >= d.size then None else d.vols.fs(p.byteOffset)
  {
    hide DiskOptions.ByteOf;
  }

  // ----- Who takes part in the overlap check -----

  /** A logical, or a primary whose type byte is not that of a container. */
  predicate TakesPart(s: Bytes, index: nat)
    requires |s| == 512
  {
    index >= 4 || !ContainerType(s[450 + 16 * index])
  }

  lemma DataByBytes(d: Disk, a: Analysis, p: PartitionSummary)
    requires IsAnalysis(d, a) && p in a.partitions
    ensures Signed(d.dev(0, 512)) && (IsData(p) <==> TakesPart(d.dev(0, 512).bytes, p.index))
  {
    hide IsAnalysis, Word;
    RunPartitionsByBytes(d, a);
    var i :| 0 <= i < |a.partitions| && a.partitions[i] == p;
    assert PartitionTold(d, a, i);
  }

  /** The overlap check compares exactly the logicals and the primaries that are no containers. */
  lemma BeforeByBytes(d: Disk, a: Analysis, i: nat, j: nat)
    requires IsAnalysis(d, a) && i < |a.partitions| && j < |a.partitions|
    ensures Signed(d.dev(0, 512))
    ensures var s, p, q := d.dev(0, 512).bytes, a.partitions[i], a.partitions[j];
            Before(a, i, j) <==>
              && TakesPart(s, p.index) && TakesPart(s, q.index)
              && (p.lbaStart < q.lbaStart || (p.lbaStart == q.lbaStart && i < j))
  {
    hide IsAnalysis, IsData, TakesPart;
    DataByBytes(d, a, a.partitions[i]);
    DataByBytes(d, a, a.partitions[j]);
  }

  /** An overlap finding never names a container, and points at the slot it names first, or the last. */
  lemma OverlapNamesByBytes(d: Disk, a: Analysis, f: Anomaly)
    requires IsAnalysis(d, a) && f in a.anomalies && f.kind.OverlappingPartitions?
    ensures Signed(d.dev(0, 512))
    ensures TakesPart(d.dev(0, 512).bytes, f.kind.a) && TakesPart(d.dev(0, 512).bytes, f.kind.b)
    ensures f.offset == 446 + 16 * if f.kind.a < 3 then f.kind.a else 3
  {
    hide IsAnalysis, IsData, IsAbout, TakesPart, OverlapFindings, ClaimsOf;
    OverlapFindingTruthful(d, a, f);
    var p, q :| IsThe(a.partitions, f.kind.a, p) && IsThe(a.partitions, f.kind.b, q)
                && IsData(p) && IsData(q) && IsAbout(f.kind, ClaimOf(p), ClaimOf(q));
    DataByBytes(d, a, p);
    DataByBytes(d, a, q);
    StageOf(d, a, f);
    PartitionsAscend(d, a);
    ClaimsFacts(a.partitions);
    FindingNamesTwo(ClaimsOf(a.partitions), f);
  }

  // ----- The CHS fields -----

  /** Three packed bytes contradict `lba` under 255 heads and 63 sectors. */
  predicate Contradicts(b: Bytes, lba: int)
    requires |b| == 3
  {
    && b != [0, 0, 0] && b != [254, 255, 255] && b != [255, 255, 255]
    && !(PackedLba(b, 255, 63) == Some(lba) && lba < 1024 * 255 * 63)
  }

  /** A CHS finding appears iff a slot's first or last CHS bytes contradict its first or reported last LBA. */
  lemma RunChsByBytes(d: Disk, a: Analysis, i: nat)
    requires IsAnalysis(d, a) && i < 4
    ensures Signed(d.dev(0, 512))
    ensures var s, at := d.dev(0, 512).bytes, 446 + 16 * i;
            NewAnomaly(ChsLbaInconsistency(i), at) in a.anomalies <==>
              && s[at + 4] != 0
              && (|| Contradicts(s[at + 1..at + 4], Word(s, at + 8))
                  || Contradicts(s[at + 5..at + 8], ReportedEnd(true, Word(s, at + 8), Word(s, at + 12))))
  {
    hide IsAnalysis, CompareChs, PackedLba, Word, ChsFromBytes;
    RunBoot(d, a);
    var s, at, e := d.dev(0, 512).bytes, 446 + 16 * i, a.mbr.entries[i];
    assert TellsFields(s, at, e);
    var f := NewAnomaly(ChsLbaInconsistency(i), at);
    RunSlotFindingsExact(d, a, f);
    CompareByBytes(s[at + 1..at + 4], e.lbaStart, 255, 63);
    CompareByBytes(s[at + 5..at + 8], e.LbaEnd(), 255, 63);
    assert e.LbaEnd() == ReportedEnd(true, e.lbaStart, e.lbaCount);
    if f in a.anomalies {
      var j :| 0 <= j < 4 && IsSlotFinding(d, a.mbr.entries[j], j, f);
    } else {
      assert !IsSlotFinding(d, e, i, f);
    }
  }
}
