/** core/src/ebr.rs: the EBR chain walk, proved to be a cut of the next-pointer graph. */
module Ebr {
  import opened Machine
  import opened Partition
  import PointerPath

  const SECTOR_LEN := 512
  const LOGICAL_ENTRY := 446
  const NEXT_ENTRY := 462
  const EBR_SLACK_OFFSET := 478
  const BOOT_SIG := 510
  const MAX_DEPTH := 64

  /** Sector sizes up to this keep every 64-bit operation of the run exact: three 32-bit fields make
      an LBA, and 3 * 0x5555_5555 is 2^32 - 1. */
  const MAX_SECTOR_SIZE := 0x5555_5555

  /** What a `seek` to an offset followed by a `read_exact` of a length yields. */
  datatype ReadResult = SeekFailed | Short | Data(bytes: Bytes)

  /** A disk image whose answers depend only on the offset and length asked for. */
  type Device = (int, nat) -> ReadResult

  function ReadExact(dev: Device, offset: U64, len: nat): (r: ReadResult)
    ensures r.Data? ==> |r.bytes| == len
  {
    var r := dev(offset, len);
    if r.Data? && |r.bytes| != len then Short else r
  }

  datatype EbrEntry = EbrEntry(
    ebrOffset: U64, ebrLba: U64, logical: PartitionEntry, logicalLbaStart: U64, slack: Bytes, hasSlack: bool)

  datatype EbrChain = EbrChain(entries: seq<EbrEntry>, hadCycle: bool, depthExceeded: bool)

  datatype WalkError = Io

  predicate AnyNonZero(s: Bytes) {
    exists i :: 0 <= i < |s| && s[i] != 0
  }

  /** The chain entry a signed sector at `lba` stands for; the logical start is relative to `lba`. */
  function LinkEntry(offset: U64, lba: U64, sector: Bytes): EbrEntry
    requires |sector| == SECTOR_LEN
  {
    var logical := EntryFromBytes(sector[LOGICAL_ENTRY..NEXT_ENTRY]);
    var slack := sector[EBR_SLACK_OFFSET..BOOT_SIG];
    EbrEntry(offset, lba, logical, SaturatingAdd(lba, logical.lbaStart), slack, AnyNonZero(slack))
  }

  /** The next-EBR pointer of a sector, relative to the extended partition; 0 ends the chain. */
  function NextRelative(sector: Bytes): U32
    requires |sector| == SECTOR_LEN
  {
    EntryFromBytes(sector[NEXT_ENTRY..EBR_SLACK_OFFSET]).lbaStart
  }

  // ----- The pointer graph -----

  /** What stands at an LBA: only a `Link` is a chain member. */
  datatype Node = Unaddressable | SeekFails | Unreadable | Unsigned | Link(sector: Bytes)

  /** One image with its extended-partition start and sector size. */
  datatype Image = Image(dev: Device, ext: U64, sectorSize: U64) {

    function NodeAt(lba: U64): (n: Node)
      ensures n.Link? ==> |n.sector| == SECTOR_LEN && lba * sectorSize <= U64_MAX
    {
      match CheckedMul(lba, sectorSize)
      case None => Unaddressable
      case Some(offset) =>
        match ReadExact(dev, offset, SECTOR_LEN)
        case SeekFailed => SeekFails
        case Short => Unreadable
        case Data(s) => if s[BOOT_SIG..] == [0x55, 0xAA] then Link(s) else Unsigned
    }

    /** The resolved next pointer: relative to the extended partition, 0 for the end. */
    function Successor(lba: U64): (r: Option<U64>)
      ensures r.Some? ==> NodeAt(lba).Link? && ext < r.value <= ext + U32_MAX
    {
      match NodeAt(lba)
      case Link(s) =>
        if NextRelative(s) == 0 then None else CheckedAdd(ext, NextRelative(s))
      case _ => None
    }

    /** The pointer graph of this image. */
    function Pointers(): PointerPath.Graph<U64> {
      PointerPath.Graph(ext, (lba: U64) => NodeAt(lba).Link?, (lba: U64) => Successor(lba))
    }

    /** The chain entry that a link stands for. */
    function EntryOf(lba: U64): EbrEntry
      requires NodeAt(lba).Link?
    {
      assert lba * sectorSize >= 0;
      LinkEntry(lba * sectorSize, lba, NodeAt(lba).sector)
    }

    /** What the walk must return when the path is cut to `p`: an entry for each node of `p`, and
        the meaning of each flag and of the error. */
    ghost predicate Describes(r: Result<EbrChain, WalkError>, p: seq<U64>) {
      var g := Pointers();
      var after := g.After(p);
      && g.IsCutChain(p, MAX_DEPTH)
      && (r.Err? <==> |p| < MAX_DEPTH && after.Some? && after.value !in p && NodeAt(after.value).SeekFails?)
      && (r.Ok? ==>
            && |r.value.entries| == |p|
            && (forall i :: 0 <= i < |p| ==> r.value.entries[i] == EntryOf(p[i]))
            && (r.value.hadCycle <==> |p| < MAX_DEPTH && after.Some? && after.value in p)
            && (r.value.depthExceeded <==> |p| == MAX_DEPTH && after.Some?))
    }
  }

  /** One iteration's read: byte offset, seek, exact read, signature, in that order. */
  method FetchNode(img: Image, lba: U64) returns (n: Node)
    ensures n == img.NodeAt(lba)
    ensures n.Link? <==> SignedAt(img, lba)
    ensures n.Link? ==> n.sector == AnswerAt(img, lba).value.bytes
    ensures n.SeekFails? <==> AnswerAt(img, lba) == Some(SeekFailed)
  {
    NodeByAnswer(img, lba);
    var offset := CheckedMul(lba, img.sectorSize);
    if offset.None? {
      return Unaddressable;
    }
    var read := ReadExact(img.dev, offset.value, SECTOR_LEN);
    if read.SeekFailed? {
      return SeekFails;
    }
    if read.Short? {
      return Unreadable;
    }
    var sector := read.bytes;
    if sector[BOOT_SIG] != 0x55 || sector[BOOT_SIG + 1] != 0xAA {
      return Unsigned;
    }
    assert sector[BOOT_SIG..] == [0x55, 0xAA];
    n := Link(sector);
  }

  /** The walk: its result describes the cut of the pointer path, and is told by the image's answers. */
  method WalkEbrChain(img: Image) returns (r: Result<EbrChain, WalkError>)
    ensures exists path :: img.Describes(r, path)
    ensures r.Err? <==> exists q, x :: IsSeekStop(img, q, x)
    ensures r.Ok? ==> ChainTold(img, r.value)
  {
    ghost var path;
    r, path := WalkWithPath(img);
    ErrorByAnswer(img, r, path);
    DescribedIsTold(img, r, path);
  }

  /** The loop, with the path it follows. */
  method WalkWithPath(img: Image) returns (r: Result<EbrChain, WalkError>, ghost path: seq<U64>)
    ensures img.Describes(r, path)
  {
    hide Image.NodeAt, Image.Successor, Image.EntryOf, Image.Describes, LinkEntry, NextRelative, EntriesOf;
    var entries: seq<EbrEntry> := [];
    var hadCycle, depthExceeded := false, false;
    var visited: set<U64> := {};
    var nextEbrLba := img.ext;
    ghost var g := img.Pointers();
    path := [];
    NoEntries(img);
    while true
      invariant |entries| == |path| <= MAX_DEPTH && !hadCycle && !depthExceeded && EntriesOf(img, entries, path)
      invariant g.IsChain(path) && g.After(path) == Some(nextEbrLba)
      invariant forall x :: x in visited <==> x in path
      decreases MAX_DEPTH - |entries|
    {
      if |entries| >= MAX_DEPTH {
        depthExceeded := true;
        break;
      }
      if nextEbrLba in visited {
        hadCycle := true;
        break;
      }
      visited := visited + {nextEbrLba};
      var node := FetchNode(img, nextEbrLba);
      if node.SeekFails? {
        SeekStops(img, path, nextEbrLba);
        r := Err(Io);
        return;
      }
      if !node.Link? {
        break;
      }
      EntriesGrow(img, entries, path, nextEbrLba);
      LinkFacts(img, nextEbrLba);
      entries := entries + [LinkEntry(nextEbrLba * img.sectorSize, nextEbrLba, node.sector)];
      g.ChainExtends(path, nextEbrLba);
      path := path + [nextEbrLba];
      if NextRelative(node.sector) == 0 {
        break;
      }
      var nextLba := CheckedAdd(img.ext, NextRelative(node.sector));
      if nextLba.None? {
        break;
      }
      nextEbrLba := nextLba.value;
    }
    WalkStops(img, path, entries, hadCycle, depthExceeded);
    r := Ok(EbrChain(entries, hadCycle, depthExceeded));
  }

  /** Each entry is that of its node. */
  ghost predicate EntriesOf(img: Image, entries: seq<EbrEntry>, p: seq<U64>) {
    |entries| == |p| && forall i :: 0 <= i < |p| ==> img.NodeAt(p[i]).Link? && entries[i] == img.EntryOf(p[i])
  }

  /** A link's entry and successor, by its sector. */
  lemma LinkFacts(img: Image, lba: U64)
    requires img.NodeAt(lba).Link?
    ensures var s := img.NodeAt(lba).sector;
            && 0 <= lba * img.sectorSize <= U64_MAX && img.EntryOf(lba) == LinkEntry(lba * img.sectorSize, lba, s)
            && img.Successor(lba) == if NextRelative(s) == 0 then None else CheckedAdd(img.ext, NextRelative(s))
  {
    hide NextRelative, LinkEntry;
  }

  lemma NoEntries(img: Image)
    ensures EntriesOf(img, [], [])
  {
  }

  lemma EntriesGrow(img: Image, entries: seq<EbrEntry>, p: seq<U64>, lba: U64)
    requires EntriesOf(img, entries, p) && img.NodeAt(lba).Link?
    ensures EntriesOf(img, entries + [img.EntryOf(lba)], p + [lba]) && |entries| == |p|
  {
    hide Image.NodeAt, Image.EntryOf;
  }

  lemma SeekStops(img: Image, p: seq<U64>, next: U64)
    requires img.Pointers().IsChain(p) && |p| < MAX_DEPTH
    requires img.Pointers().After(p) == Some(next) && next !in p && img.NodeAt(next).SeekFails?
    ensures img.Describes(Err(Io), p)
  {
    hide Image.NodeAt, Image.EntryOf;
  }

  /** Why the walk may stop: the cap, a visited node, a node that is no link, or no next pointer. */
  lemma WalkStops(img: Image, p: seq<U64>, entries: seq<EbrEntry>, hadCycle: bool, depthExceeded: bool)
    requires img.Pointers().IsChain(p) && |p| <= MAX_DEPTH && EntriesOf(img, entries, p)
    requires hadCycle <==> |p| < MAX_DEPTH && img.Pointers().After(p).Some? && img.Pointers().After(p).value in p
    requires depthExceeded <==> |p| == MAX_DEPTH && img.Pointers().After(p).Some?
    requires img.Pointers().After(p).Some? ==>
               var next := img.Pointers().After(p).value;
               hadCycle || depthExceeded || !(img.NodeAt(next).Link? || img.NodeAt(next).SeekFails?)
    ensures img.Describes(Ok(EbrChain(entries, hadCycle, depthExceeded)), p)
  {
    hide Image.NodeAt, Image.EntryOf;
  }

  /** An EBR sector laid out by its parts, as the repository's tests build them. */
  function EncodeEbr(code: Bytes, logical: PartitionEntry, next: PartitionEntry, slack: Bytes): Bytes {
    code + EntryToBytes(logical) + EntryToBytes(next) + slack + [0x55, 0xAA]
  }

  /** Decoding reads each part back from where the layout puts it. */
  lemma EbrDecodesLayout(code: Bytes, logical: PartitionEntry, next: PartitionEntry, slack: Bytes,
                         offset: U64, lba: U64)
    requires |code| == 446 && |slack| == 32 && logical.Packable() && next.Packable()
    ensures var s := EncodeEbr(code, logical, next, slack);
            && |s| == SECTOR_LEN && s[BOOT_SIG..] == [0x55, 0xAA]
            && NextRelative(s) == next.lbaStart
            && var e := LinkEntry(offset, lba, s);
               && e.logical == logical && e.slack == slack && (e.hasSlack <==> slack != seq(32, _ => 0))
               && e.ebrOffset == offset && e.ebrLba == lba
               && e.logicalLbaStart == if lba + logical.lbaStart <= U64_MAX then lba + logical.lbaStart else U64_MAX
  {
    EntryEncodeDecode(logical);
    EntryEncodeDecode(next);
    var a, b := EntryToBytes(logical), EntryToBytes(next);
    var s := EncodeEbr(code, logical, next, slack);
    assert (code + a)[446..462] == a && (code + a + b)[462..478] == b;
    assert s[446..462] == a && s[462..478] == b && s[478..510] == slack && s[510..] == [0x55, 0xAA];
    if !AnyNonZero(slack) { assert slack == seq(32, _ => 0); }
  }

  // ----- What a described result means -----

  /** Every place after the head is a resolved pointer, so never the head itself. */
  lemma PathBounds(img: Image, p: seq<U64>, i: nat)
    requires img.Pointers().IsPath(p) && i < |p|
    ensures i == 0 ==> p[i] == img.ext
    ensures i > 0 ==> img.ext < p[i] <= img.ext + U32_MAX
  {
    if i > 0 { assert img.Pointers().Step(p[i - 1]) == Some(p[i]); }
  }

  /** The image alone decides the result. */
  lemma WalkDeterministic(img: Image, r: Result<EbrChain, WalkError>, p: seq<U64>,
                          r': Result<EbrChain, WalkError>, p': seq<U64>)
    requires img.Describes(r, p) && img.Describes(r', p')
    ensures r == r' && p == p'
  {
    img.Pointers().CutChainUnique(p, p', MAX_DEPTH);
    if r.Ok? {
      assert r.value.entries == r'.value.entries;
    } else {
      assert r.error == r'.error == Io;
    }
  }

  /** The pointer of a recorded EBR, resolved to an absolute LBA. */
  function Resolved(img: Image, e: EbrEntry): Option<U64> { img.Successor(e.ebrLba) }

  /** The entries and flags of a described chain, in terms of the chain itself. */
  ghost predicate FlagsTrue(img: Image, c: EbrChain) {
    var n := |c.entries|;
    && n <= MAX_DEPTH
    && (forall i :: 0 <= i < n ==> c.entries[i].ebrOffset == c.entries[i].ebrLba * img.sectorSize)
    && (forall i, j :: 0 <= i < j < n ==> c.entries[i].ebrLba != c.entries[j].ebrLba)
    && (forall i :: 0 <= i < n - 1 ==> Resolved(img, c.entries[i]) == Some(c.entries[i + 1].ebrLba))
    && (n > 0 ==> c.entries[0].ebrLba == img.ext)
    && !(c.hadCycle && c.depthExceeded)
    && (c.hadCycle <==>
          && 2 <= n < MAX_DEPTH
          && exists j :: 1 <= j < n && Resolved(img, c.entries[n - 1]) == Some(c.entries[j].ebrLba))
    && (c.hadCycle ==> Resolved(img, c.entries[n - 1]) != Some(c.entries[0].ebrLba))
    && (c.depthExceeded <==> n == MAX_DEPTH && Resolved(img, c.entries[n - 1]).Some?)
  }

  /** Entries start at the head and follow the pointers through distinct LBAs, with exact offsets; the
      flags exclude each other. A cycle means the last pointer resolves to a recorded EBR other than
      the head, and equally that the pointers go on for ever among fewer than 64 EBRs; the depth flag
      means the 64th still points somewhere. */
  lemma FlagsMeanWhatTheySay(img: Image, r: Result<EbrChain, WalkError>, p: seq<U64>)
    requires img.Describes(r, p) && r.Ok?
    ensures FlagsTrue(img, r.value)
    ensures r.value.hadCycle <==>
            |r.value.entries| < MAX_DEPTH && forall n: nat :: img.Pointers().HasPathOfLength(n)
  {
    hide *;
    FlagsOfChain(img, r, p);
    CycleMeansEndless(img, r, p);
  }

  lemma FlagsOfChain(img: Image, r: Result<EbrChain, WalkError>, p: seq<U64>)
    requires img.Describes(r, p) && r.Ok?
    ensures FlagsTrue(img, r.value)
  {
    hide Image.NodeAt, Image.Successor, NextRelative, EntryFromBytes, AnyNonZero;
    var c, g := r.value, img.Pointers();
    var n := |c.entries|;
    forall i | 0 <= i < n ensures c.entries[i].ebrLba == p[i] && c.entries[i].ebrOffset == p[i] * img.sectorSize {
      assert c.entries[i] == img.EntryOf(p[i]);
    }
    forall i | 0 <= i < n - 1 ensures Resolved(img, c.entries[i]) == Some(c.entries[i + 1].ebrLba) {
      assert g.Step(p[i]) == Some(p[i + 1]);
    }
    if n > 0 {
      assert g.After(p) == img.Successor(p[n - 1]) == Resolved(img, c.entries[n - 1]);
    }
    if c.hadCycle {
      CycleTarget(img, p);
      var j :| 1 <= j < n && g.After(p) == Some(p[j]);
      assert Resolved(img, c.entries[n - 1]) == Some(c.entries[j].ebrLba);
    }
  }

  lemma CycleTarget(img: Image, p: seq<U64>)
    requires img.Pointers().IsChain(p)
    requires img.Pointers().After(p).Some? && img.Pointers().After(p).value in p
    ensures |p| >= 2 && img.Pointers().After(p) != Some(p[0])
    ensures exists j :: 1 <= j < |p| && img.Pointers().After(p) == Some(p[j])
  {
    var x := img.Pointers().After(p).value;
    assert x > img.ext;
    var j :| 0 <= j < |p| && p[j] == x;
    PathBounds(img, p, j);
  }

  /** Unless the cap fires, the walk records every link any pointer path can reach. */
  lemma WalkMissesNothing(img: Image, r: Result<EbrChain, WalkError>, p: seq<U64>, q: seq<U64>, i: nat)
    requires img.Describes(r, p) && r.Ok? && !r.value.depthExceeded
    requires img.Pointers().IsPath(q) && i < |q| && img.NodeAt(q[i]).Link?
    ensures exists k :: 0 <= k < |r.value.entries| && r.value.entries[k] == img.EntryOf(q[i])
  {
    img.Pointers().NothingMissed(p, MAX_DEPTH, q, i);
    var k :| 0 <= k < |p| && p[k] == q[i];
    assert r.value.entries[k] == img.EntryOf(p[k]);
  }

  lemma CycleMeansEndless(img: Image, r: Result<EbrChain, WalkError>, p: seq<U64>)
    requires img.Describes(r, p) && r.Ok?
    ensures r.value.hadCycle <==>
            |r.value.entries| < MAX_DEPTH && forall n: nat :: img.Pointers().HasPathOfLength(n)
  {
    var g := img.Pointers();
    if r.value.hadCycle {
      forall n: nat ensures g.HasPathOfLength(n) {
        g.CycleNeverEnds(p, MAX_DEPTH, n);
      }
    } else if |p| < MAX_DEPTH && g.HasPathOfLength(|p| + 2) {
      var q :| g.IsPath(q) && |q| == |p| + 2;
      g.OtherStopsEnd(p, MAX_DEPTH, q);
      assert false;
    }
  }

  // ----- The walk by the image's answers -----

  /** A full sector that ends in the boot signature. */
  predicate Signed(r: ReadResult) {
    r.Data? && |r.bytes| == 512 && r.bytes[510] == 0x55 && r.bytes[511] == 0xAA
  }

  /** The answer for the sector at `lba`, if that has a 64-bit offset. */
  function AnswerAt(img: Image, lba: nat): Option<ReadResult> {
    if lba * img.sectorSize <= U64_MAX then Some(img.dev(lba * img.sectorSize, 512)) else None
  }

  ghost predicate SignedAt(img: Image, lba: nat) {
    AnswerAt(img, lba).Some? && Signed(AnswerAt(img, lba).value)
  }

  /** The sector at `lba` is signed and its second entry points to `next`. */
  ghost predicate PointsTo(img: Image, lba: nat, next: nat) {
    && SignedAt(img, lba)
    && var rel := Word(AnswerAt(img, lba).value.bytes, 470);
       rel != 0 && next == img.ext + rel <= U64_MAX
  }

  /** A walk over signed sectors from the start of the extended partition. */
  ghost predicate IsTrail(img: Image, q: seq<U64>) {
    && (q != [] ==> q[0] == img.ext)
    && forall i :: 0 <= i < |q| - 1 ==> PointsTo(img, q[i], q[i + 1])
  }

  /** The entry that a signed sector must give, byte by byte. */
  ghost predicate TellsEntry(img: Image, e: EbrEntry) {
    && SignedAt(img, e.ebrLba) && e.ebrOffset == e.ebrLba * img.sectorSize
    && var s := AnswerAt(img, e.ebrLba).value.bytes;
       && TellsFields(s, 446, e.logical)
       && e.logicalLbaStart == (if e.ebrLba + Word(s, 454) <= U64_MAX then e.ebrLba + Word(s, 454) else U64_MAX)
       && e.slack == s[478..510] && (e.hasSlack <==> exists i :: 478 <= i < 510 && s[i] != 0)
  }

  lemma NodeByAnswer(img: Image, lba: U64)
    ensures img.NodeAt(lba).Link? <==> SignedAt(img, lba)
    ensures img.NodeAt(lba).Link? ==> img.NodeAt(lba).sector == AnswerAt(img, lba).value.bytes
    ensures img.NodeAt(lba).SeekFails? <==> AnswerAt(img, lba) == Some(SeekFailed)
    ensures img.NodeAt(lba).Unaddressable? <==> AnswerAt(img, lba) == None
  {
    if SignedAt(img, lba) {
      var s := AnswerAt(img, lba).value.bytes;
      assert s[BOOT_SIG..] == [0x55, 0xAA];
    }
    if img.NodeAt(lba).Link? {
      var s := img.NodeAt(lba).sector;
      assert s[510] == s[BOOT_SIG..][0] && s[511] == s[BOOT_SIG..][1];
    }
  }

  lemma StepByAnswer(img: Image, lba: U64, next: U64)
    ensures img.Pointers().Step(lba) == Some(next) <==> PointsTo(img, lba, next)
  {
    NodeByAnswer(img, lba);
    if img.NodeAt(lba).Link? { PointerByBytes(img.NodeAt(lba).sector); }
  }

  lemma PointerByBytes(s: Bytes)
    requires |s| == SECTOR_LEN
    ensures NextRelative(s) == Word(s, 470)
  {
    var e := s[NEXT_ENTRY..EBR_SLACK_OFFSET];
    assert e[8..12] == s[470..474];
  }

  lemma TrailIsPath(img: Image, q: seq<U64>)
    ensures IsTrail(img, q) <==> img.Pointers().IsPath(q)
  {
    hide PointsTo, Image.Successor, Image.NodeAt;
    forall i | 0 <= i < |q| - 1 ensures img.Pointers().Step(q[i]) == Some(q[i + 1]) <==> PointsTo(img, q[i], q[i + 1]) {
      StepByAnswer(img, q[i], q[i + 1]);
    }
  }

  lemma EntryByBytes(img: Image, lba: U64)
    requires img.NodeAt(lba).Link?
    ensures TellsEntry(img, img.EntryOf(lba))
  {
    hide SignedAt;
    NodeByAnswer(img, lba);
    FieldsByBytes(lba * img.sectorSize, lba, img.NodeAt(lba).sector);
  }

  lemma FieldsByBytes(offset: U64, lba: U64, s: Bytes)
    requires |s| == SECTOR_LEN
    ensures var e := LinkEntry(offset, lba, s);
            && e.ebrOffset == offset && e.ebrLba == lba
            && TellsFields(s, 446, e.logical)
            && e.logicalLbaStart == (if lba + Word(s, 454) <= U64_MAX then lba + Word(s, 454) else U64_MAX)
            && e.slack == s[478..510] && (e.hasSlack <==> exists i :: 478 <= i < 510 && s[i] != 0)
  {
    var slack := s[478..510];
    EntryByOffset(s, 446);
    if AnyNonZero(slack) {
      var i :| 0 <= i < 32 && slack[i] != 0;
      assert s[478 + i] != 0;
    }
    if i :| 478 <= i < 510 && s[i] != 0 { assert slack[i - 478] != 0; }
  }

  /** What a result records: the entries are signed sectors, byte by byte, along a trail. */
  lemma RecordedAreSigned(img: Image, r: Result<EbrChain, WalkError>, p: seq<U64>)
    requires img.Describes(r, p) && r.Ok?
    ensures |r.value.entries| <= 64 && IsTrail(img, Places(r.value))
    ensures forall i :: 0 <= i < |r.value.entries| ==> TellsEntry(img, r.value.entries[i])
  {
    hide Image.NodeAt, TellsEntry, PointsTo, Image.Successor;
    var es := r.value.entries;
    forall i | 0 <= i < |es| ensures es[i].ebrLba == p[i] && TellsEntry(img, es[i]) {
      assert es[i] == img.EntryOf(p[i]);
      EntryByBytes(img, p[i]);
    }
    assert Places(r.value) == p;
    TrailIsPath(img, p);
  }

  /** The LBAs of a chain. */
  function Places(c: EbrChain): seq<U64> { seq(|c.entries|, i requires 0 <= i < |c.entries| => c.entries[i].ebrLba) }

  /** And nothing is left out: a signed sector that any trail leads to is recorded, unless the cap fires. */
  lemma SignedAreRecorded(img: Image, r: Result<EbrChain, WalkError>, p: seq<U64>, q: seq<U64>)
    requires img.Describes(r, p) && r.Ok? && !r.value.depthExceeded
    requires IsTrail(img, q) && q != [] && SignedAt(img, q[|q| - 1])
    ensures q[|q| - 1] in Places(r.value)
  {
    hide SignedAt;
    TrailIsPath(img, q);
    NodeByAnswer(img, q[|q| - 1]);
    WalkMissesNothing(img, r, p, q, |q| - 1);
    var k :| 0 <= k < |r.value.entries| && r.value.entries[k] == img.EntryOf(q[|q| - 1]);
    assert Places(r.value)[k] == q[|q| - 1];
  }

  /** The flags by the bytes: a trail of recorded places leads back into them, or on from the 64th. */
  lemma FlagsByBytes(img: Image, r: Result<EbrChain, WalkError>, p: seq<U64>)
    requires img.Describes(r, p) && r.Ok?
    ensures var c, n := Places(r.value), |r.value.entries|;
            && (r.value.hadCycle <==> 0 < n < 64 && PointsInto(img, c[n - 1], c))
            && (r.value.depthExceeded <==> n == 64 && PointsOn(img, c[n - 1]))
  {
    hide Image.NodeAt, PointsTo, Image.Successor;
    var c, n := Places(r.value), |r.value.entries|;
    forall i | 0 <= i < n ensures c[i] == p[i] { assert r.value.entries[i] == img.EntryOf(p[i]); }
    assert c == p;
    if n > 0 { AfterByBytes(img, p, p[n - 1]); }
  }

  lemma AfterByBytes(img: Image, p: seq<U64>, last: U64)
    requires p != [] && p[|p| - 1] == last
    ensures img.Pointers().After(p).Some? <==> PointsOn(img, last)
    ensures img.Pointers().After(p).Some? && img.Pointers().After(p).value in p <==> PointsInto(img, last, p)
  {
    hide Image.NodeAt, PointsTo, Image.Successor;
    var after := img.Pointers().After(p);
    if after.Some? { StepByAnswer(img, last, after.value); }
    forall x: nat | PointsTo(img, last, x) ensures after == Some(x) {
      PointsBounded(img, last);
      StepByAnswer(img, last, x);
    }
  }

  ghost predicate PointsOn(img: Image, lba: U64) { exists x: nat :: PointsTo(img, lba, x) }

  ghost predicate PointsInto(img: Image, lba: U64, c: seq<U64>) { exists x: nat :: PointsTo(img, lba, x) && x in c }

  lemma PointsBounded(img: Image, lba: U64)
    ensures forall x: nat :: PointsTo(img, lba, x) ==> x <= U64_MAX
  {
  }

  /** The walk fails iff fewer than 64 signed sectors lead to a new place where the seek fails. */
  lemma ErrorByAnswer(img: Image, r: Result<EbrChain, WalkError>, p: seq<U64>)
    requires img.Describes(r, p)
    ensures r.Err? <==> exists q, x :: IsSeekStop(img, q, x)
  {
    hide Image.NodeAt, Image.Successor, SignedAt;
    var g := img.Pointers();
    if r.Err? {
      var x := g.After(p).value;
      TrailIsPath(img, p + [x]);
      PathGrows(img, p, x);
      NodeByAnswer(img, x);
      forall i | 0 <= i < |p| ensures SignedAt(img, p[i]) { NodeByAnswer(img, p[i]); }
      assert IsSeekStop(img, p, x);
    }
    if exists q, x :: IsSeekStop(img, q, x) {
      var q, x :| IsSeekStop(img, q, x);
      SeekStopCuts(img, q, x);
      g.CutChainUnique(p, q, MAX_DEPTH);
      NodeByAnswer(img, x);
    }
  }

  /** Distinct signed sectors `q`, fewer than 64, then a new place `x` that cannot be seeked to. */
  ghost predicate IsSeekStop(img: Image, q: seq<U64>, x: U64) {
    && |q| < 64 && IsTrail(img, q + [x]) && x !in q && AnswerAt(img, x) == Some(SeekFailed)
    && (forall i :: 0 <= i < |q| ==> SignedAt(img, q[i])) && (forall i, j :: 0 <= i < j < |q| ==> q[i] != q[j])
  }

  lemma PathGrows(img: Image, p: seq<U64>, x: U64)
    requires img.Pointers().IsPath(p) && img.Pointers().After(p) == Some(x)
    ensures img.Pointers().IsPath(p + [x])
  {
  }

  lemma SeekStopCuts(img: Image, q: seq<U64>, x: U64)
    requires IsSeekStop(img, q, x)
    ensures img.Pointers().IsCutChain(q, MAX_DEPTH) && img.Pointers().After(q) == Some(x)
  {
    hide Image.NodeAt, Image.Successor, SignedAt, PointsTo;
    var g, all := img.Pointers(), q + [x];
    TrailIsPath(img, all);
    forall i | 0 <= i < |q| - 1 ensures g.Step(q[i]) == Some(q[i + 1]) { assert all[i] == q[i] && all[i + 1] == q[i + 1]; }
    assert q != [] ==> q[0] == all[0] && g.Step(all[|q| - 1]) == Some(all[|q|]);
    forall i | 0 <= i < |q| ensures img.NodeAt(q[i]).Link? { NodeByAnswer(img, q[i]); }
    NodeByAnswer(img, x);
    LinkIsNode(img, x);
  }

  lemma LinkIsNode(img: Image, x: U64)
    ensures img.Pointers().link(x) <==> img.NodeAt(x).Link?
  {
  }

  /** All there is to say of a chain by the answers of its image: nothing after a failed seek; else the
      signed sectors of the trail, read byte by byte, to the last one below the cap, with the flags. */
  ghost predicate ChainTold(img: Image, c: EbrChain) {
    if exists q, x :: IsSeekStop(img, q, x) then c == EbrChain([], false, false)
    else
      var n := |c.entries|;
      && n <= 64 && IsTrail(img, Places(c))
      && (forall i :: 0 <= i < n ==> TellsEntry(img, c.entries[i]))
      && (c.hadCycle <==> 0 < n < 64 && PointsInto(img, Places(c)[n - 1], Places(c)))
      && (c.depthExceeded <==> n == 64 && PointsOn(img, Places(c)[n - 1]))
      && (!c.depthExceeded ==>
            forall q: seq<U64> :: q != [] && IsTrail(img, q) && SignedAt(img, q[|q| - 1]) ==> q[|q| - 1] in Places(c))
  }

  lemma DescribedIsTold(img: Image, r: Result<EbrChain, WalkError>, p: seq<U64>)
    requires img.Describes(r, p)
    ensures ChainTold(img, if r.Ok? then r.value else EbrChain([], false, false))
  {
    hide Image.Describes, IsSeekStop, IsTrail, TellsEntry, SignedAt, PointsInto, PointsOn, Places;
    ErrorByAnswer(img, r, p);
    if r.Ok? {
      PlacesLength(r.value);
      RecordedAreSigned(img, r, p);
      FlagsByBytes(img, r, p);
      if !r.value.depthExceeded {
        forall q: seq<U64> | q != [] && IsTrail(img, q) && SignedAt(img, q[|q| - 1]) ensures q[|q| - 1] in Places(r.value) {
          SignedAreRecorded(img, r, p, q);
        }
      }
    }
  }

  lemma PlacesLength(c: EbrChain)
    ensures |Places(c)| == |c.entries|
  {
  }

  /** Wherever a pointer path leads, neither checked operation takes its overflow exit: the offset of
      the place exists, and a link without a successor has a zero pointer. */
  ghost predicate ChecksPass(img: Image) {
    forall q, i :: img.Pointers().IsPath(q) && 0 <= i < |q| ==>
      && !img.NodeAt(q[i]).Unaddressable?
      && (img.NodeAt(q[i]).Link? ==> (img.Successor(q[i]).None? <==> NextRelative(img.NodeAt(q[i]).sector) == 0))
  }

  /** From a 32-bit partition entry every LBA stays small, so nothing saturates; with sectors up to
      `MAX_SECTOR_SIZE` no checked operation fails either, at the recorded EBRs or where the walk stops. */
  lemma ChainEnvelope(img: Image, r: Result<EbrChain, WalkError>, p: seq<U64>)
    requires img.Describes(r, p) && img.ext <= U32_MAX
    ensures r.Ok? ==> forall i :: 0 <= i < |r.value.entries| ==> EntrySmall(r.value.entries[i])
    ensures img.sectorSize <= MAX_SECTOR_SIZE ==> ChecksPass(img)
  {
    hide Image.NodeAt, Image.Successor;
    if r.Ok? {
      forall i | 0 <= i < |r.value.entries| ensures EntrySmall(r.value.entries[i]) {
        PathBounds(img, p, i);
        assert r.value.entries[i] == img.EntryOf(p[i]);
      }
    }
    if img.sectorSize <= MAX_SECTOR_SIZE {
      PathChecksPass(img);
    }
  }

  /** A chain entry made of three 32-bit fields. */
  predicate EntrySmall(e: EbrEntry) {
    e.ebrLba <= 2 * U32_MAX && e.logicalLbaStart == e.ebrLba + e.logical.lbaStart <= 3 * U32_MAX
  }

  lemma PathChecksPass(img: Image)
    requires img.ext <= U32_MAX && img.sectorSize <= MAX_SECTOR_SIZE
    ensures ChecksPass(img)
  {
    hide NextRelative;
    forall q, i | img.Pointers().IsPath(q) && 0 <= i < |q|
      ensures !img.NodeAt(q[i]).Unaddressable?
      ensures img.NodeAt(q[i]).Link? ==> (img.Successor(q[i]).None? <==> NextRelative(img.NodeAt(q[i]).sector) == 0)
    {
      PathBounds(img, q, i);
      MulBound(q[i], img.sectorSize, 2 * U32_MAX, MAX_SECTOR_SIZE);
    }
  }

  /** The walk of `img` leads only to places whose byte offset fits in 64 bits. */
  ghost predicate OffsetsExact(img: Image) {
    && img.ext * img.sectorSize <= U64_MAX
    && forall r, p, i :: img.Describes(r, p) && r.Ok? && 0 <= i < |r.value.entries| ==>
         r.value.entries[i].logicalLbaStart * img.sectorSize <= U64_MAX
  }

  /** The largest sector size for which no byte offset saturates, whatever the image holds. */
  lemma OffsetsExactIff(ss: U64)
    ensures ss <= MAX_SECTOR_SIZE
        <==> forall img: Image :: img.ext <= U32_MAX && img.sectorSize == ss ==> OffsetsExact(img)
  {
    if ss <= MAX_SECTOR_SIZE {
      forall img: Image | img.ext <= U32_MAX && img.sectorSize == ss ensures OffsetsExact(img) {
        SmallSectorsExact(img);
      }
    } else {
      SomeImageSaturates(ss);
    }
  }

  lemma SmallSectorsExact(img: Image)
    requires img.ext <= U32_MAX && img.sectorSize <= MAX_SECTOR_SIZE
    ensures OffsetsExact(img)
  {
    hide Image.Describes;
    MulBound(img.ext, img.sectorSize, U32_MAX, MAX_SECTOR_SIZE);
    forall r, p, i | img.Describes(r, p) && r.Ok? && 0 <= i < |r.value.entries|
      ensures r.value.entries[i].logicalLbaStart * img.sectorSize <= U64_MAX {
      ChainEnvelope(img, r, p);
      assert EntrySmall(r.value.entries[i]);
      MulBound(r.value.entries[i].logicalLbaStart, img.sectorSize, 3 * U32_MAX, MAX_SECTOR_SIZE);
    }
  }

  /** A signed sector with this logical start and this next pointer. */
  function PointingSector(start: U32, next: U32): (s: Bytes)
    ensures |s| == SECTOR_LEN && s[BOOT_SIG..] == [0x55, 0xAA] && NextRelative(s) == next
    ensures var e := EntryFromBytes(s[LOGICAL_ENTRY..NEXT_ENTRY]); e.lbaStart == start && e.lbaCount == 1
  {
    var none := Chs(0, 0, 0);
    var logical, link := PartitionEntry(0, none, 7, none, start, 1), PartitionEntry(0, none, 5, none, next, 1);
    EbrDecodesLayout(seq(446, _ => 0), logical, link, seq(32, _ => 0), 0, 0);
    EncodeEbr(seq(446, _ => 0), logical, link, seq(32, _ => 0))
  }

  /** The image that holds the sector pointing furthest everywhere, with the extended partition as far out as it goes. */
  function FarImage(ss: U64): Image {
    Image((_, _) => Data(PointingSector(U32_MAX, U32_MAX)), U32_MAX, ss)
  }

  lemma FarNodes(ss: U64, lba: U64)
    ensures var img := FarImage(ss);
      && (img.NodeAt(lba) == if lba * ss <= U64_MAX then Link(PointingSector(U32_MAX, U32_MAX)) else Unaddressable)
      && img.Successor(lba) == if lba * ss <= U64_MAX then Some(2 * U32_MAX) else None
  {
    hide NextRelative, EntryFromBytes;
  }

  lemma SomeImageSaturates(ss: U64)
    requires ss > MAX_SECTOR_SIZE
    ensures exists img: Image :: img.ext <= U32_MAX && img.sectorSize == ss && !OffsetsExact(img)
  {
    hide Image.NodeAt, Image.Successor, PointingSector;
    var img := FarImage(ss);
    var far := 2 * U32_MAX;
    FarNodes(ss, U32_MAX);
    FarNodes(ss, far);
    if U32_MAX * ss <= U64_MAX {
      var p := if far * ss <= U64_MAX then [U32_MAX, far] else [U32_MAX];
      FarChain(ss, p);
    }
    assert !OffsetsExact(img);
  }

  /** The far image's chain: the head, and the second EBR when its offset fits, which points to itself. */
  lemma FarChain(ss: U64, p: seq<U64>)
    requires U32_MAX * ss <= U64_MAX
    requires p == if 2 * U32_MAX * ss <= U64_MAX then [U32_MAX, 2 * U32_MAX] else [U32_MAX]
    ensures exists r ::
              && FarImage(ss).Describes(r, p) && r.Ok?
              && r.value.entries[|p| - 1].logicalLbaStart == (|p| + 1) * U32_MAX
  {
    hide Image.NodeAt, Image.Successor, NextRelative, EntryFromBytes;
    var img := FarImage(ss);
    FarNodes(ss, U32_MAX);
    FarNodes(ss, 2 * U32_MAX);
    var entries := seq(|p|, i requires 0 <= i < |p| => img.EntryOf(p[i]));
    var r: Result<EbrChain, WalkError> := Ok(EbrChain(entries, |p| == 2, false));
    assert img.Describes(r, p);
  }
}
