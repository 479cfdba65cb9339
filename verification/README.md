# Verified model of an MBR forensic analyser

This project models the partition side of an MBR disk analyser in Dafny and proves what its reports
mean. An untrusted image is read through a boot sector, four primary slots and a chain of extended
boot records (EBRs); the extents found are checked for overlaps and swept for unpartitioned gaps; the
start of each gap is sampled, classified and carved. The same code base scans byte regions for
entropy, wipe patterns, strings and disk-signature collisions.

Verify everything with `dafny verify dfyconfig.toml`.

## How the model is built

- **Image.** `Ebr.Device` is a function from byte offset and length to "seek failed", "short" or the
  bytes, so two reads of one place agree. Nothing is assumed about its contents. The run
  (`Pipeline.Analyse`) takes the image, its size (0 when unknown), the sector size and a
  `Stages.Volumes` value for what inspecting a volume's first bytes says.
- **Machine integers.** `U8` to `U64` are subset types of `int`. A local typed `U64` makes the verifier
  check that the plain operation assigned to it cannot overflow; checked and saturating operations are
  written out.
- **Form.** Loops are methods, the accumulating objects (`Findings.Recorder`, `Stages.PrimaryScan`,
  `Reads.Source`) are classes, and each method is proved against a function or a declarative predicate.
  The rest are functions and lemmas.
- **Entropy.** `Entropy.Exact` holds n and W, the product of c^c over the histogram counts. The
  mathematical entropy is H = log2(n) - log2(W)/n, so H > k iff n^n > 2^(k n) W, in whole numbers.

| file | content |
|---|---|
| `Machine`, `Lists`, `Sorting`, `Powers` | integers; concatenation; stable sort and dedup; powers, Bernoulli and arithmetic/geometric means |
| `Partition`, `Mbr` | CHS field, 16-byte entry, CHS/LBA comparison, sector parse |
| `PointerPath`, `Ebr` | pointer paths in general; the EBR walk |
| `Gaps`, `Overlaps` | the gap sweep; neighbour comparison after sorting |
| `Limits` | the largest sector size for which no gap size overflows |
| `Entropy`, `Wipe`, `Carve`, `DiskSignature`, `Reads` | byte-region scanners and short-read loops |
| `Findings`, `Stages`, `Pipeline` | anomalies; the stages of a run; theorems about whole runs |
| `ImageBytes` | boot sector, chain, partitions and overlap participants by the bytes of the image |
| `Repeats` | no finding of a run is reported twice |
| `Declared` | gaps and overlaps of a run against the sectors its tables declare |

## What is false of the code, and exactly when

- *Gaps are the sectors no table entry declares.* A primary's end saturates in 32 bits, so a declared
  sector from 2^32 - 1 on can lie in a gap and be carved, as under the usual protective entry of a large
  disk (`Declared.ProtectiveEntryCut`). Gaps are exactly the undeclared sectors iff primaries alone declare
  none from 2^32 - 1 to the disk end (`Declared.GapsAreUndeclaredIff`).
- *Two partitions that declare one sector are reported.* Not past that same end
  (`Declared.MissedOverlap`); `Declared.MissedRunIff` says exactly when a run is silent all the same.
- *A partition that reaches past the disk is reported.* Logicals never are, and a primary only below that
  end (`Declared.MissedOutOfBounds`); `Declared.OutOfBoundsIff` gives the exact condition.
- *Reported overlaps share a sector.* A zero-count partition inside another is reported
  (`Overlaps.FalseAlarm`), and so is one at LBA 0 before another that starts there
  (`Declared.FalseAlarmAtZero`). With no declared sector shared, a report appears iff a zero-count data
  partition starts within the reported range of one that sorts before it, or one at LBA 0 sorts before
  another at LBA 0 (`Declared.FalseAlarmRunIff`; on reported ranges `Overlaps.FalseAlarmIff`).
- *Every overlapping pair is reported.* Only sorted neighbours are compared (`Overlaps.NeighboursOnly`).
  Every pair is named iff no partition reaches the second start after its own in sorted order
  (`Overlaps.EveryOverlapNamedIff`, for runs `Pipeline.RunOverlapsNamedIff`).
- *Gaps lie on the disk.* An extent past the end drags a gap off the disk (`Gaps.SweepEdges`);
  `Gaps.GapsStayOnDisk` and, for runs, `Pipeline.RunGapsOnDiskIff` give the exact condition.
- *No arithmetic overflows.* True for sector sizes 1 to 0x5555_5555 (`Pipeline.RunEnvelope`). The bound is
  exact: for every larger size some image has a partition whose byte offset saturates
  (`Ebr.OffsetsExactIff`). The plain multiplication of gap sizes holds out longer: it overflows for no
  image iff sectors have at most 2^31 bytes (`Limits.GapSizesFitIff`).
- *One CHS field per LBA.* Heads past the geometry alias the next cylinder (`Partition.AliasedAddress`).
  Two fields are accepted for one LBA iff it lies on the first track of a cylinder other than the first
  (`Partition.TwoFieldsAcceptedIff`); `Partition.TwoFieldsIff` gives the condition for every geometry.

Where comments and code disagree the code is followed: `walk_ebr_chain` never looks at an entry's type
(core/src/ebr.rs:78-79 says it does), `to_lba` gives nothing only for sector 0 or a zero geometry (core/src/partition.rs:35
also names all ones), and `is_empty` ignores the status byte and the CHS fields (core/src/partition.rs:162).

## Model

| member | source | states |
|---|---|---|
| Ebr.WalkEbrChain | core/src/ebr.rs:80-167 | for every image, start LBA and sector size the result describes the cut of the pointer path; it is an error iff distinct signed sectors, fewer than 64, lead to a new place where the seek fails, and else the chain that the image's answers tell: signed sectors read byte by byte along the trail, none left out below the cap, with the two flags |
| Ebr.FetchNode | core/src/ebr.rs:104-121 | one iteration's read: a link iff the image answers with 512 bytes ending in 0x55 0xAA, a failed seek iff it answers so, and the bytes are those answered |
| Ebr.RecordedAreSigned | core/src/ebr.rs:118-152 | every recorded entry is a signed sector, its fields those of its bytes, and the entries follow the pointer bytes from the start |
| Ebr.SignedAreRecorded | core/src/ebr.rs:94-160 | unless the cap fires, a signed sector that any trail of pointer bytes leads to is recorded |
| Ebr.FlagsByBytes | core/src/ebr.rs:95-102 | the flags by the pointer bytes of the last recorded sector: back into the chain below 64, or on from the 64th |
| Ebr.ErrorByAnswer | core/src/ebr.rs:111-117 | the walk fails iff a trail of fewer than 64 distinct signed sectors leads to a new place whose seek fails |
| Ebr.EbrDecodesLayout | core/src/ebr.rs:123-149 | an EBR sector laid out from code, logical entry, next entry and slack decodes to those parts, with the logical start relative to the EBR's own LBA |
| Ebr.WalkDeterministic | core/src/ebr.rs:80-167 | there is one cut of the path and one result that describes it |
| Ebr.FlagsMeanWhatTheySay | core/src/ebr.rs:94-160 | entries start at the head and follow the pointers through distinct LBAs at exact offsets; flags exclude each other; a cycle iff 2 to 63 entries and the last pointer resolves to a recorded EBR, never the head, and iff fewer than 64 EBRs carry an endless path; depth iff 64 entries and a 65th place |
| Ebr.WalkMissesNothing | core/src/ebr.rs:94-160 | unless the cap fires, every link on any pointer path, of any length and with repeats, is recorded |
| Ebr.ChainEnvelope | core/src/ebr.rs:107-159 | from a 32-bit start every EBR LBA is at most 2(2^32-1) and logical starts are exact sums of at most 3(2^32-1); for sector sizes up to 0x5555_5555 neither the checked multiplication nor the checked addition fails at any place a pointer path leads to, the stopping one included |
| Ebr.OffsetsExactIff | core/src/ebr.rs:107-159 | the extended start and every logical start of every image have a byte offset within 64 bits iff the sector size is at most 0x5555_5555 |
| PointerPath.Graph.CutChainUnique | core/src/ebr.rs:94-160 | following one pointer per node with a visited set and a cap has one outcome |
| PointerPath.Graph.NothingMissed | core/src/ebr.rs:99-102 | below the cap any path stays in the recorded nodes except for a last node that is no link |
| Gaps.ComputeGaps | forensic/src/gap.rs:36-75 | whenever no plain 64-bit operation overflows the cursor loop yields the sweep of the extents |
| Gaps.SweepIsGapList | forensic/src/gap.rs:45-72 | for sorted extents with start <= end+1 the sweep is in increasing order, disjoint, non-empty, sized by its sectors, lists exactly the free LBAs up to the disk end or the highest start, has the kind its position gives, and starts a new gap exactly at the first LBA, after a covered one, or where an empty extent starts |
| Gaps.GapListUnique | forensic/src/gap.rs:45-72 | that description leaves one list for all such extents, empty ones included; it depends only on the covered LBAs and the starts |
| Gaps.SpanSuffices | forensic/src/gap.rs:45-69 | no operation of the sweep overflows when the longest span that extents and disk leave fits in 64 bits of bytes |
| Gaps.GapsAreComplement | forensic/src/gap.rs:36-75 | an LBA of the disk is covered and in no gap, or free and in exactly one |
| Gaps.GapsStayOnDisk | forensic/src/gap.rs:45-72 | all gaps end on the disk iff no free LBA past its end lies below an extent's start |
| Gaps.GapListCanonical | forensic/src/gap.rs:45-72 | for non-empty extents starting on the disk the gaps, kinds and sizes depend only on the covered LBAs |
| Gaps.SectorsConserved | forensic/src/gap.rs:36-75 | gap sectors plus covered sectors are the whole range when nothing starts past the LBA after the last |
| Gaps.DedupIsNoOp | forensic/src/analyse.rs:805-809 | removing repeats before the sweep never changes its result |
| Gaps.SweepEdges | forensic/src/gap.rs:45-63 | concrete extents: one past the disk end gives a gap past the end, a zero-count one splits a gap |
| Limits.GapSizesFitIff | forensic/src/gap.rs:52-69 | for every positive sector size: no table, chain and disk size make a plain operation of the sweep overflow iff it is at most 2^31 |
| Limits.LargeSectorsOverflow | forensic/src/gap.rs:52-58 | for each larger size an image, of table entries and where they are addressable two EBRs, gives a gap past 64 bits of bytes |
| Overlaps.CheckOverlaps | forensic/src/analyse.rs:679-697 | appends to the findings what the neighbouring pairs of the stably sorted claims give |
| Overlaps.SilentIff | forensic/src/analyse.rs:679-697 | nothing is recorded iff no claim starts inside one that sorts before it, by start and then by input order |
| Overlaps.SilentMeansDisjoint | forensic/src/analyse.rs:679-697 | silence implies pairwise disjointness, and for non-empty claims is equivalent to it |
| Overlaps.FalseAlarmIff | forensic/src/analyse.rs:682-695 | claims with disjoint reported ranges are reported iff an empty one starts inside another that sorts before it |
| Overlaps.FindingNamesTwo | forensic/src/analyse.rs:682-695 | a finding names two different claims with their true end and start; that start lies in the first, and in the second unless it is empty |
| Overlaps.EveryOverlapNamedIff | forensic/src/analyse.rs:679-697 | every claim that starts inside an earlier sorted one is named with it iff no claim reaches the second start after its own |
| Overlaps.NeighboursOnly | forensic/src/analyse.rs:682-695 | concrete claims outside that condition: an overlapping pair goes unnamed |
| Overlaps.FalseAlarm | forensic/src/analyse.rs:682-695 | concrete disjoint claims that are reported |
| Sorting.StableSortUnique | forensic/src/analyse.rs:680-681 | sorted by key with each key's elements in input order leaves one list, so every stable sort is the modelled one |
| Partition.ChsRoundTrip | core/src/partition.rs:22-31 | packing as the repository's tests do and unpacking are inverse both ways |
| Partition.ChsBitForm | core/src/partition.rs:22-31 | the masks and shifts of the decoder equal the modelled quotients and remainders for all bytes |
| Partition.LbaFitsU32 | core/src/partition.rs:37-51 | the translation fits in 32 bits for every CHS value and geometry |
| Partition.ChsBijection | core/src/partition.rs:37-51 | on existing addresses translation is one-to-one onto 0..1024*hpc*spt-1, with the mixed-radix digits as inverse |
| Partition.ChsAcceptsExactlyOneLba | core/src/partition.rs:101-128 | a real non-marker address is accepted for exactly one LBA and its range check never decides; off the geometry the check is what remains |
| Partition.CompareByBytes | core/src/partition.rs:111-128 | by the packed bytes, for every LBA and geometry: 0 0 0 is unused, 254 255 255 and 255 255 255 are consistent, any other field is inconsistent iff it does not translate to the LBA within the addressable range |
| Partition.TwoFieldsAcceptedIff | core/src/partition.rs:101-128 | under the standard geometry an LBA has two accepted fields iff it is addressable, past the first cylinder and on the first track of its own |
| Partition.TwoFieldsIff | core/src/partition.rs:37-51 | under any geometry an addressable LBA is the translation of two packed fields iff its head or sector digit has room for one more cylinder or track |
| Partition.AliasedAddress | core/src/partition.rs:111-128 | concrete alias: two fields accepted for one LBA |
| Partition.PartitionEntry.LbaEnd | core/src/partition.rs:174-180 | the inclusive end, 0 for an empty range at 0, and 2^32-2 whenever start+count reaches 2^32 |
| Partition.EntryDecodeEncode | core/src/partition.rs:151-160 | encoding a decoded entry gives back its 16 bytes |
| Partition.EntryEncodeDecode | core/src/partition.rs:151-160 | decoding an encoded entry gives back the entry |
| Mbr.ParseEncode | core/src/mbr.rs:38-80 | re-encoding a parsed sector gives back its first 512 bytes |
| Mbr.EncodeParse | core/src/mbr.rs:38-80 | every well-formed sector value is the parse of its encoding |
| Mbr.ParseLossless | core/src/mbr.rs:38-80 | equal parses come from equal first 512 bytes, and bytes past 512 never matter, errors included |
| Mbr.ParseByBytes | core/src/mbr.rs:38-80 | which sectors are refused and with which error, the bad signature big-endian, and the byte place of every field |
| Entropy.Shannon | forensic/src/entropy.rs:16-33 | the 256-slot histogram pass yields the exact entropy of the data |
| Entropy.HistogramTotal | forensic/src/entropy.rs:20-23 | the counts sum to the length |
| Entropy.Gibbs | forensic/src/entropy.rs:25-32 | S letters on K symbols satisfy S^S <= K^S W |
| Entropy.EntropyAtMostEight | forensic/src/entropy.rs:12-33 | no byte sequence exceeds 8 bits |
| Entropy.AlphabetBound | forensic/src/entropy.rs:16-33 | data on at most 2^k symbols never exceeds k bits |
| Entropy.FlatEntropy | forensic/src/entropy.rs:16-33 | 2^k equally frequent symbols carry exactly k bits: above j bits iff j < k |
| Entropy.ZeroIffUniform | forensic/src/entropy.rs:35-39 | entropy is never negative, and zero iff all bytes are equal |
| Wipe.TestsCommute | forensic/src/wipe.rs:62-93 | any order of the uniform, alternating and entropy tests classifies alike |
| Wipe.ClassifyMeans | forensic/src/wipe.rs:62-93 | each verdict, with its byte values, by a property of the bytes alone; high entropy iff above 6 bits; past the all-equal test the length is always at least 2 |
| Wipe.TwoSymbolsLowEntropy | forensic/src/wipe.rs:67-90 | data on two byte values carries at most one bit, so is never of high entropy |
| Carve.Carve | core/src/carve.rs:101-119 | every occurrence of every table magic, each once, at base plus position, in strictly increasing order |
| Carve.MagicsPrefixFree | core/src/carve.rs:32-93 | the 15 table magics are non-empty and none is a prefix of another |
| Carve.ArchiveMagicsAsText | core/src/carve.rs:32-93 | the archive signatures spelled as text |
| Carve.DocumentMagicsAsText | core/src/carve.rs:32-93 | the image and document signatures spelled as text |
| Carve.OtherMagicsAsText | core/src/carve.rs:32-93 | the ELF, RIFF and SQLite signatures spelled as text |
| Carve.CarvingUnique | core/src/carve.rs:101-119 | that description leaves one list: the sort has no tie to break |
| Carve.ExtractAsciiStrings | core/src/carve.rs:131-143 | for every minimum length the output is, left to right, all maximal printable runs of at least that length and nothing else |
| Carve.RunsUnique | core/src/carve.rs:131-143 | that description leaves one list |
| DiskSignature.FindSignatureCollisions | core/src/disk_signature.rs:32-57 | one record per non-zero signature of two or more disks, by first appearance, with exactly its places in ascending order |
| DiskSignature.CollisionsUnique | core/src/disk_signature.rs:25-31 | that description leaves one list |
| Reads.ReadFingerprint | forensic/src/analyse.rs:924-942 | for every schedule of short reads and interrupts the result is the available window, and an error iff the seek fails or a failing read is reached before the buffer is full or the end of data is seen |
| Reads.Fill | core/src/vfs.rs:20-33 | for every schedule of short reads the buffer gets exactly the available prefix and keeps its tail; an error, with a shorter prefix, iff an interrupted or failing read is reached |
| Stages.PrimaryScan.Push | forensic/src/analyse.rs:519-548 | extents stay aligned with summaries place by place; a claim is added iff the partition is a logical or its type is none of 0x05, 0x0F, 0x85 |
| Stages.ScanPrimaryEntries | forensic/src/analyse.rs:458-556 | summaries and findings are those of the slots in table order, with the scan state aligned |
| Stages.ScanSlot | forensic/src/analyse.rs:470-548 | one slot: residual and empty slots give no partition; otherwise status, CHS, bounds and content findings in order |
| Stages.WalkExtended | forensic/src/analyse.rs:701-791 | the chain of the first extended entry, its flag findings, and one numbered logical with its findings per link |
| Stages.CheckGaps | forensic/src/analyse.rs:795-817 | the gaps of the sorted, deduplicated extents, one finding each, all figures within 64 bits |
| Stages.LastLbaMeans | forensic/src/analyse.rs:52-61 | on a disk of known size an LBA past 0 is at most the last iff its sector ends within the size |
| Stages.GapsFit | forensic/src/analyse.rs:795-817 | every gap's bytes and end offset fit in 64 bits |
| Stages.CheckGapContent | forensic/src/analyse.rs:828-869 | per gap, the wipe finding and the carved headers of its sample |
| Stages.SampleFits | forensic/src/analyse.rs:834-846 | a gap's sample is never empty, is the whole gap or its first 4096 bytes, starts at the exact product and ends within 64 bits |
| Pipeline.Analyse | forensic/src/analyse.rs:140-224 | the report that the image and options determine, or exactly the boot-sector error |
| Pipeline.AnalysisUnique | forensic/src/analyse.rs:140-224 | one report per image and options |
| Repeats.RunReportsOnce | forensic/src/analyse.rs:140-224 | no run reports one finding twice |
| ImageBytes.BootByBytes | forensic/src/analyse.rs:140-146 | the run fails iff the first 512 bytes are not answered in full with the signature, with the exact error, and reads the four slots from their bytes |
| ImageBytes.RunChainByBytes | forensic/src/analyse.rs:709-720 | the chain is the one the image's answers tell from the first slot of type byte 0x05, 0x0F or 0x85, and empty without one |
| ImageBytes.RunPartitionsByBytes | forensic/src/analyse.rs:504-548 | every field of every partition by the slot's bytes or the link's fields; a slot has a partition iff its type byte is not 0 |
| ImageBytes.BeforeByBytes | forensic/src/analyse.rs:519-524 | the overlap check compares exactly the logicals and the primaries whose type byte is none of 0x05, 0x0F, 0x85 |
| ImageBytes.OverlapNamesByBytes | forensic/src/analyse.rs:679-697 | no overlap finding names a container; it points at the slot it names first, or the last slot |
| ImageBytes.RunChsByBytes | forensic/src/analyse.rs:612-634 | a CHS finding appears iff the first or last CHS bytes of a slot contradict its start or reported end under 255 heads and 63 sectors |
| Pipeline.PartitionsAscend | forensic/src/analyse.rs:470-548 | over every run indices strictly increase from primaries through logicals |
| Pipeline.PartitionsComplete | forensic/src/analyse.rs:735-788 | a slot has a partition iff its type is not 0, and the k-th link has the k-th logical |
| Pipeline.OverlapFindingTruthful | forensic/src/analyse.rs:679-697 | every overlap finding of a run names two different data partitions with exactly one summary each and tells their bounds truly |
| Pipeline.OverlapReportedIff | forensic/src/analyse.rs:180-184 | on reported ranges: a run reports an overlap iff a data partition starts inside one that sorts before it; never misses a shared LBA; equals non-disjointness when none is empty |
| Declared.OverlapDeclaredIff | forensic/src/analyse.rs:679-697 | on declared sectors: a run reports an overlap iff two data partitions share one and the later start is not past the 32-bit end of an earlier primary, or a zero-count partition starts within an earlier one or precedes another at LBA 0 |
| Declared.FalseAlarmRunIff | forensic/src/analyse.rs:682-695 | with no declared sector shared, a report means exactly such a clash with a zero-count partition |
| Declared.MissedRunIff | core/src/partition.rs:174-180 | with declared sectors shared, a run is silent iff every sharing pair starts past the 32-bit end of its primary and no zero-count partition clashes |
| Declared.MissedOverlap | core/src/partition.rs:174-180 | concrete table: two primaries declare LBA 2^32-1 and nothing is reported |
| Declared.FalseAlarmAtZero | forensic/src/analyse.rs:682-695 | concrete table: a zero-count and a real partition at LBA 0 share nothing and are reported |
| Pipeline.RunOverlapsNamedIff | forensic/src/analyse.rs:180-184 | on reported ranges: a run names every overlapping pair of data partitions iff none reaches the second start after its own; then every pair that shares an LBA is named |
| Pipeline.RunGapsExact | forensic/src/analyse.rs:185-191 | each sector after the boot sector that ends within the disk size is in the reported range of a partition and in no gap, or in exactly one gap |
| Pipeline.RunGapFindingsExact | forensic/src/analyse.rs:805-817 | leading, inner and trailing space is reported iff the run has such a gap, with its bounds, bytes and offset |
| Pipeline.RunGapKinds | forensic/src/gap.rs:45-72 | a gap is trailing iff no partition starts above it, and else leading iff it starts at LBA 1 |
| Declared.CoveredIsDeclared | core/src/partition.rs:174-180 | after LBA 0 the reported ranges are the declared sectors, less those only primaries declare from 2^32-1 on |
| Declared.GapIsUndeclared | forensic/src/analyse.rs:185-191 | a sector of the disk is in a gap iff no slot or link declares it, or primaries alone do from 2^32-1 on |
| Declared.GapsAreUndeclaredIff | forensic/src/analyse.rs:185-191 | the gaps are exactly the undeclared sectors iff there is none of the latter on the disk |
| Declared.ProtectiveEntryCut | core/src/partition.rs:174-180 | concrete table: the protective entry on a disk past 2^32 sectors declares LBA 2^32-1, which is in a gap |
| Pipeline.RunGapsOnDiskIff | forensic/src/analyse.rs:795-817 | every gap of a run ends on the disk iff the partitions cover all between the disk end and the highest partition start |
| Pipeline.RunGapsCanonical | forensic/src/analyse.rs:805-809 | two runs whose partitions cover the same LBAs have the same gaps, whatever the order, repeats or nesting |
| Pipeline.RunSectorsConserved | forensic/src/analyse.rs:795-817 | gap sectors plus sectors in reported ranges are the disk after the boot sector |
| Declared.DeclaredConserved | forensic/src/analyse.rs:795-817 | gap sectors plus declared sectors are the disk after the boot sector plus the sectors cut off by the 32-bit end |
| Pipeline.RunSeverities | forensic/src/findings.rs:269-285 | every finding has the severity of its kind; a leading-space finding is the first gap, at LBA 1, and Low; a slack finding is always Medium |
| Pipeline.RunSeverityClasses | forensic/src/findings.rs:240-305 | each severity is that of exactly the listed kinds in every run |
| Pipeline.SlackEntropy | forensic/src/analyse.rs:735-745 | the 32 slack bytes of a link carry at most 5 bits |
| Pipeline.RunChainFlags | forensic/src/analyse.rs:722-733 | a cycle or depth finding appears iff the chain has the flag, at the container's offset and with depth 64 |
| Pipeline.RunEnvelope | forensic/src/analyse.rs:735-860 | partition offsets and sizes are the exact products of starts and counts; logical ends are exact and primary ends too unless start plus count passes 32 bits, where they are 2^32-2; no checked operation of the walk fails; slack offsets, gap sizes and sample ends fit in 64 bits |
| Pipeline.RunCarvedExact | forensic/src/analyse.rs:858-867 | a carved finding is reported iff a table magic stands there in the sample of a gap |
| Pipeline.RunCarvesWindow | forensic/src/analyse.rs:834-867 | every table magic wholly in the first 4096 bytes of a gap is reported when they can be read |
| Pipeline.CarvedOutsidePartitions | forensic/src/analyse.rs:858-867 | no carved finding lies in the reported range of a partition |
| Declared.CarvedIsUndeclared | forensic/src/analyse.rs:858-867 | a carved finding lies in an undeclared sector or in one cut off by the 32-bit end |
| Pipeline.RunWipedExact | forensic/src/analyse.rs:847-856 | a wiped region is reported, as High, iff a gap's sample is one repeated non-zero byte or a two-byte alternation |
| Pipeline.RunVolumeFindingsExact | forensic/src/analyse.rs:645-672 | a relocated boot record or contradicted type is reported iff a partition, primary or logical, not past the disk shows it |
| Pipeline.RunSlotFindingsExact | forensic/src/analyse.rs:470-518 | residual, status, CHS and out-of-bounds findings are reported iff a slot has that flaw, with its own figures |
| Declared.OutOfBoundsIff | forensic/src/analyse.rs:505-517 | with a known disk size a slot is reported out of bounds iff it starts beyond the LBA after the last, or declares a sector past the disk below 2^32-1; a logical never is |
| Declared.MissedOutOfBounds | core/src/partition.rs:174-180 | concrete table: an entry declares the LBA after the disk's last and is not reported |
| Pipeline.RunSlackExact | forensic/src/analyse.rs:735-745 | slack is reported iff a link's slack is not all zero, with its LBA, entropy and offset |

## Left out

- Floating point: `Entropy.Exact` is the mathematical entropy; the rounding of the `f64` sum in `shannon` is not modelled.
- Pipeline.Analyse: covers the boot-sector read, primary scan, EBR walk, overlap, gap and gap-content stages; boot code, disk signature, reserved field, bootable flags, duplicate entries, GPT cross-checks and era attribution record other kinds and are not modelled.
- Pipeline.Analyse: requires a sector size from 1 to 0x5555_5555; 0 divides by zero when the disk size is known, and larger ones can saturate or overflow (`Ebr.OffsetsExactIff`, `Limits.GapSizesFitIff`).
- Gaps.ComputeGaps: takes as precondition exactly that no plain 64-bit operation overflows, which the stages establish; outside it the code panics or wraps.
- Carve.Carve: requires that base plus position, a plain addition, fits in 64 bits at each occurrence.
- Partition.ChsAcceptsExactlyOneLba: requires a geometry with at least one head and one sector, since the range bound underflows otherwise.
- Reads.Fill: requires a source of at most 2^64-1 bytes, so that its saturating offset is exact.
- Pipeline.RunVolumeFindingsExact: what a volume's bytes show is a parameter, since BPB and filesystem parsing are tables of constants.
- Volume inspection (BPB fields, filesystem magics, type conflicts) is a parameter; volume serials and encryption detection are not modelled.
- Readers whose answers change between reads of one place; the `Reads` module alone models stateful sources.
- Wording of findings, stable codes, tracing, serialisation, volume windows over a shared parent source: presentation or thin wrappers.
