/** core/src/carve.rs: header carving and printable-string extraction. */
module Carve {
  import opened Machine
  import opened Sorting

  datatype FileMagic = FileMagic(kind: string, magic: Bytes)

  datatype CarvedFile = CarvedFile(kind: string, offset: int)

  const FILE_MAGICS: seq<FileMagic> := [
    FileMagic("ZIP", [0x50, 0x4B, 0x03, 0x04]),
    FileMagic("PDF", [0x25, 0x50, 0x44, 0x46, 0x2D]),
    FileMagic("PNG", [0x89, 0x50, 0x4E, 0x47, 0x0D, 0x0A, 0x1A, 0x0A]),
    FileMagic("JPEG", [0xFF, 0xD8, 0xFF]),
    FileMagic("GIF", [0x47, 0x49, 0x46, 0x38, 0x37, 0x61]),
    FileMagic("GIF", [0x47, 0x49, 0x46, 0x38, 0x39, 0x61]),
    FileMagic("BZIP2", [0x42, 0x5A, 0x68]),
    FileMagic("7Z", [0x37, 0x7A, 0xBC, 0xAF, 0x27, 0x1C]),
    FileMagic("RAR", [0x52, 0x61, 0x72, 0x21, 0x1A, 0x07]),
    FileMagic("XZ", [0xFD, 0x37, 0x7A, 0x58, 0x5A, 0x00]),
    FileMagic("ELF", [0x7F, 0x45, 0x4C, 0x46]),
    FileMagic("RIFF", [0x52, 0x49, 0x46, 0x46]),
    FileMagic("SQLite", [0x53, 0x51, 0x4C, 0x69, 0x74, 0x65, 0x20, 0x66, 0x6F, 0x72, 0x6D, 0x61, 0x74, 0x20, 0x33, 0x00]),
    FileMagic("OLE", [0xD0, 0xCF, 0x11, 0xE0, 0xA1, 0xB1, 0x1A, 0xE1]),
    FileMagic("CAB", [0x4D, 0x53, 0x43, 0x46])
  ]

  /** `magic` occurs in `data` at `i`. */
  predicate OccursAt(data: Bytes, magic: Bytes, i: int) {
    0 <= i <= |data| - |magic| && data[i..i + |magic|] == magic
  }

  function OffsetKey(): CarvedFile -> int { (c: CarvedFile) => c.offset }

  /** `c` is the occurrence of one of the first `n` magics. */
  ghost predicate IsHit(table: seq<FileMagic>, n: nat, data: Bytes, base: int, c: CarvedFile)
    requires n <= |table|
  {
    exists k :: 0 <= k < n && HitOf(table[k], data, base, c)
  }

  ghost predicate HitOf(m: FileMagic, data: Bytes, base: int, c: CarvedFile) {
    c.kind == m.kind && OccursAt(data, m.magic, c.offset - base)
  }

  /** Magics are non-empty and none is a prefix of another. */
  ghost predicate PrefixFree(table: seq<FileMagic>) {
    && (forall k :: 0 <= k < |table| ==> table[k].magic != [])
    && (forall j, k :: 0 <= j < |table| && 0 <= k < |table| && j != k ==> !(table[j].magic <= table[k].magic))
  }

  predicate DistinctOffsets(out: seq<CarvedFile>) {
    forall i, j :: 0 <= i < j < |out| ==> out[i].offset != out[j].offset
  }

  /** Two magics that match at one place would be prefix and extension. */
  lemma OneMagicPerPlace(table: seq<FileMagic>, data: Bytes, base: int, j: nat, k: nat, c: CarvedFile, d: CarvedFile)
    requires PrefixFree(table) && j < k < |table|
    requires HitOf(table[j], data, base, c) && HitOf(table[k], data, base, d)
    ensures c.offset != d.offset
  {
    if c.offset == d.offset {
      var i, a, b := c.offset - base, table[j].magic, table[k].magic;
      if |a| <= |b| { SharedStart(data, a, b, i); } else { SharedStart(data, b, a, i); }
      assert false;
    }
  }

  lemma SharedStart(data: Bytes, a: Bytes, b: Bytes, i: int)
    requires OccursAt(data, a, i) && OccursAt(data, b, i) && |a| <= |b|
    ensures a <= b
  {
    assert a == data[i..i + |b|][..|a|];
  }

  /** The bytes of an ASCII text. */
  function Text(t: string): Bytes { seq(|t|, i requires 0 <= i < |t| => if t[i] as int < 0x80 then t[i] as int else 0) }

  predicate HasMagic(kind: string, magic: Bytes) {
    exists k :: 0 <= k < |FILE_MAGICS| && FILE_MAGICS[k] == FileMagic(kind, magic)
  }

  /** The signatures that are words, as their formats spell them: archives. */
  lemma ArchiveMagicsAsText()
    ensures HasMagic("ZIP", Text("PK") + [3, 4]) && HasMagic("BZIP2", Text("BZh")) && HasMagic("CAB", Text("MSCF"))
    ensures HasMagic("RAR", Text("Rar!") + [0x1A, 7]) && HasMagic("XZ", [0xFD] + Text("7zXZ") + [0])
  {
    assert FILE_MAGICS[0] == FileMagic("ZIP", Text("PK") + [3, 4]);
    assert FILE_MAGICS[6] == FileMagic("BZIP2", Text("BZh"));
    assert FILE_MAGICS[14] == FileMagic("CAB", Text("MSCF"));
    assert FILE_MAGICS[8] == FileMagic("RAR", Text("Rar!") + [0x1A, 7]);
    assert FILE_MAGICS[9] == FileMagic("XZ", [0xFD] + Text("7zXZ") + [0]);
  }

  /** Images and documents. */
  lemma DocumentMagicsAsText()
    ensures HasMagic("PDF", Text("%PDF-")) && HasMagic("PNG", [0x89] + Text("PNG") + [13, 10, 26, 10])
    ensures HasMagic("GIF", Text("GIF87a")) && HasMagic("GIF", Text("GIF89a"))
  {
    assert FILE_MAGICS[1] == FileMagic("PDF", Text("%PDF-"));
    assert FILE_MAGICS[2] == FileMagic("PNG", [0x89] + Text("PNG") + [13, 10, 26, 10]);
    assert FILE_MAGICS[4] == FileMagic("GIF", Text("GIF87a"));
    assert FILE_MAGICS[5] == FileMagic("GIF", Text("GIF89a"));
  }

  /** And the others. */
  lemma OtherMagicsAsText()
    ensures HasMagic("ELF", [0x7F] + Text("ELF")) && HasMagic("RIFF", Text("RIFF"))
    ensures HasMagic("SQLite", Text("SQLite format 3") + [0])
  {
    assert FILE_MAGICS[10] == FileMagic("ELF", [0x7F] + Text("ELF"));
    assert FILE_MAGICS[11] == FileMagic("RIFF", Text("RIFF"));
    assert FILE_MAGICS[12] == FileMagic("SQLite", Text("SQLite format 3") + [0]);
  }

  /** The table's own magics: the first two bytes tell them apart, except GIF87a and GIF89a. */
  lemma MagicsPrefixFree()
    ensures PrefixFree(FILE_MAGICS)
  {
    hide FILE_MAGICS, Lead, PrefixFree;
    MagicLeads();
    LeadsApart();
    ByLead(FILE_MAGICS, LEADS);
  }

  const LEADS: seq<int> := [
    0x504B, 0x2550, 0x8950, 0xFFD8, 0x4749, 0x4749, 0x425A, 0x377A, 0x5261, 0xFD37, 0x7F45, 0x5249, 0x5351, 0xD0CF, 0x4D53
  ]

  lemma MagicLeads()
    ensures |FILE_MAGICS| == |LEADS| == 15
    ensures forall k :: 0 <= k < 15 ==> |FILE_MAGICS[k].magic| >= 3 && Lead(FILE_MAGICS[k].magic) == LEADS[k]
    ensures |FILE_MAGICS[4].magic| == |FILE_MAGICS[5].magic| == 6 && FILE_MAGICS[4].magic[4] != FILE_MAGICS[5].magic[4]
  {
    forall k | 0 <= k < 15 ensures |FILE_MAGICS[k].magic| >= 3 && Lead(FILE_MAGICS[k].magic) == LEADS[k] {
      if k < 8 { assert k in {0, 1, 2, 3, 4, 5, 6, 7}; } else { assert k in {8, 9, 10, 11, 12, 13, 14}; }
    }
  }

  lemma LeadsApart()
    ensures forall j, k :: 0 <= j < |LEADS| && 0 <= k < |LEADS| && j != k && LEADS[j] == LEADS[k] ==> {j, k} == {4, 5}
  {
  }

  /** Magics with different leading bytes are no prefixes of each other. */
  lemma ByLead(t: seq<FileMagic>, lead: seq<int>)
    requires |t| == |lead| && forall k :: 0 <= k < |t| ==> |t[k].magic| >= 3 && Lead(t[k].magic) == lead[k]
    requires |t| > 5 && |t[4].magic| == |t[5].magic| == 6 && t[4].magic[4] != t[5].magic[4]
    requires forall j, k :: 0 <= j < |t| && 0 <= k < |t| && j != k && lead[j] == lead[k] ==> {j, k} == {4, 5}
    ensures PrefixFree(t)
  {
    forall j, k | 0 <= j < |t| && 0 <= k < |t| && j != k
      ensures !(t[j].magic <= t[k].magic)
    {
      var a, b := t[j].magic, t[k].magic;
      if lead[j] == lead[k] {
        assert j in {4, 5} && k in {4, 5};
        assert a[4] != b[4];
      } else {
        assert a[0] != b[0] || a[1] != b[1];
      }
    }
  }

  /** The first two bytes of a magic. */
  function Lead(m: Bytes): int
    requires |m| >= 2
  {
    var first: int := m[0];
    first * 256 + m[1]
  }

  /** The hits of one magic among the first `n` places, in order. */
  function HitsOf(m: FileMagic, data: Bytes, base: int, n: nat): seq<CarvedFile> {
    if n == 0 then []
    else if OccursAt(data, m.magic, n - 1) then HitsOf(m, data, base, n - 1) + [CarvedFile(m.kind, base + n - 1)]
    else HitsOf(m, data, base, n - 1)
  }

  /** How many windows of the magic's length there are. */
  function Windows(m: Bytes, data: Bytes): nat {
    if m == [] || |m| > |data| then 0 else |data| - |m| + 1
  }

  /** The hits of the first `k` magics, magic by magic. */
  function AllHits(table: seq<FileMagic>, data: Bytes, base: int, k: nat): seq<CarvedFile>
    requires k <= |table|
  {
    if k == 0 then []
    else AllHits(table, data, base, k - 1) + HitsOf(table[k - 1], data, base, Windows(table[k - 1].magic, data))
  }

  /** What `carve` returns. */
  function Carving(data: Bytes, base: int): seq<CarvedFile> {
    SortByKey(AllHits(FILE_MAGICS, data, base, |FILE_MAGICS|), OffsetKey())
  }

  /** The plain addition of base and position overflows at no occurrence. */
  ghost predicate HitsFit(table: seq<FileMagic>, data: Bytes, base: U64) {
    forall k, i :: 0 <= k < |table| && OccursAt(data, table[k].magic, i) && table[k].magic != [] ==> base + i <= U64_MAX
  }

  /** The nested loops of `carve`: every window of every magic. */
  method ScanMagics(table: seq<FileMagic>, data: Bytes, base: U64) returns (out: seq<CarvedFile>)
    requires HitsFit(table, data, base)
    ensures out == AllHits(table, data, base, |table|)
  {
    out := [];
    for k := 0 to |table|
      invariant out == AllHits(table, data, base, k)
    {
      var FileMagic(kind, m) := table[k];
      if m == [] || |m| > |data| {
        continue;
      }
      ghost var before := out;
      for i := 0 to |data| - |m| + 1
        invariant out == before + HitsOf(table[k], data, base, i)
      {
        if data[i..i + |m|] == m {
          assert OccursAt(data, table[k].magic, i);
          var offset: U64 := base + i;
          out := out + [CarvedFile(kind, offset)];
        }
      }
    }
  }

  method Carve(data: Bytes, baseOffset: U64) returns (out: seq<CarvedFile>)
    requires HitsFit(FILE_MAGICS, data, baseOffset)
    ensures out == Carving(data, baseOffset) && IsCarving(out, data, baseOffset)
  {
    var hits := ScanMagics(FILE_MAGICS, data, baseOffset);
    out := SortByKey(hits, OffsetKey());
    CarvingExact(data, baseOffset);
  }

  /** `out` has every occurrence of every table magic, each once, at strictly increasing offsets. */
  ghost predicate IsCarving(out: seq<CarvedFile>, data: Bytes, base: int) {
    && (forall c :: c in out <==> IsHit(FILE_MAGICS, |FILE_MAGICS|, data, base, c))
    && StrictBy(out, OffsetKey())
  }

  lemma {:induction false} HitsExact(m: FileMagic, data: Bytes, base: int, n: nat)
    ensures forall c :: c in HitsOf(m, data, base, n) <==> HitOf(m, data, base, c) && c.offset - base < n
    ensures StrictBy(HitsOf(m, data, base, n), OffsetKey())
  {
    hide StrictBy, OccursAt, HitOf;
    var hits := HitsOf(m, data, base, n);
    if n == 0 {
      forall c ensures !(HitOf(m, data, base, c) && c.offset - base < 0) { HitPlace(m, data, base, c); }
      StrictNone(OffsetKey());
    } else {
      var rest, here := HitsOf(m, data, base, n - 1), CarvedFile(m.kind, base + n - 1);
      HitsExact(m, data, base, n - 1);
      forall c ensures HitOf(m, data, base, c) && c.offset - base == n - 1 <==> c == here && OccursAt(data, m.magic, n - 1) {
        HitPlace(m, data, base, c);
      }
      if OccursAt(data, m.magic, n - 1) {
        assert forall j :: 0 <= j < |rest| ==> rest[j] in rest;
        StrictSnoc(rest, here, OffsetKey());
      }
    }
  }

  lemma HitPlace(m: FileMagic, data: Bytes, base: int, c: CarvedFile)
    ensures HitOf(m, data, base, c) <==> c.kind == m.kind && OccursAt(data, m.magic, c.offset - base)
    ensures HitOf(m, data, base, c) ==> c.offset >= base
  {
  }

  /** Every occurrence of a non-empty magic is in one of its windows. */
  lemma HitsInWindows(m: FileMagic, data: Bytes, base: int)
    requires m.magic != []
    ensures var hits := HitsOf(m, data, base, Windows(m.magic, data));
            (forall c :: c in hits <==> HitOf(m, data, base, c)) && StrictBy(hits, OffsetKey())
  {
    hide HitsOf;
    HitsExact(m, data, base, Windows(m.magic, data));
  }

  lemma {:induction false} AllHitsExact(table: seq<FileMagic>, data: Bytes, base: int, k: nat)
    requires PrefixFree(table) && k <= |table|
    ensures forall c :: c in AllHits(table, data, base, k) <==> IsHit(table, k, data, base, c)
    ensures DistinctOffsets(AllHits(table, data, base, k))
  {
    if k > 0 {
      hide PrefixFree, HitOf, IsHit, StrictBy, HitsOf, DistinctOffsets, OffsetKey;
      AllHitsExact(table, data, base, k - 1);
      var m := table[k - 1];
      var before, hits := AllHits(table, data, base, k - 1), HitsOf(m, data, base, Windows(m.magic, data));
      NonEmptyMagic(table, k - 1);
      HitsInWindows(m, data, base);
      NewOffsets(table, data, base, k, before, hits);
      DistinctJoin(before, hits);
      forall c ensures c in before + hits <==> IsHit(table, k, data, base, c) {
        HitStep(table, data, base, k, c);
      }
    }
  }

  lemma NonEmptyMagic(table: seq<FileMagic>, k: nat)
    requires PrefixFree(table) && k < |table|
    ensures table[k].magic != []
  {
  }

  lemma HitStep(table: seq<FileMagic>, data: Bytes, base: int, k: nat, c: CarvedFile)
    requires 0 < k <= |table|
    ensures IsHit(table, k, data, base, c) <==> IsHit(table, k - 1, data, base, c) || HitOf(table[k - 1], data, base, c)
  {
    hide HitOf;
  }

  lemma NewOffsets(table: seq<FileMagic>, data: Bytes, base: int, k: nat, before: seq<CarvedFile>, hits: seq<CarvedFile>)
    requires PrefixFree(table) && 0 < k <= |table|
    requires forall c :: c in before ==> IsHit(table, k - 1, data, base, c)
    requires forall c :: c in hits ==> HitOf(table[k - 1], data, base, c)
    ensures forall i, j :: 0 <= i < |before| && 0 <= j < |hits| ==> before[i].offset != hits[j].offset
  {
    hide PrefixFree, HitOf;
    forall i, j | 0 <= i < |before| && 0 <= j < |hits| ensures before[i].offset != hits[j].offset {
      assert before[i] in before && hits[j] in hits;
      var l :| 0 <= l < k - 1 && HitOf(table[l], data, base, before[i]);
      OneMagicPerPlace(table, data, base, l, k - 1, before[i], hits[j]);
    }
  }

  lemma DistinctJoin(before: seq<CarvedFile>, hits: seq<CarvedFile>)
    requires DistinctOffsets(before) && StrictBy(hits, OffsetKey())
    requires forall i, j :: 0 <= i < |before| && 0 <= j < |hits| ==> before[i].offset != hits[j].offset
    ensures DistinctOffsets(before + hits)
  {
    var all := before + hits;
    forall i, j | 0 <= i < j < |all| ensures all[i].offset != all[j].offset {
      if i >= |before| { assert OffsetKey()(hits[i - |before|]) < OffsetKey()(hits[j - |before|]); }
    }
  }

  /** Because no magic is a prefix of another the sort never has a tie to break. */
  lemma CarvingExact(data: Bytes, base: int)
    ensures IsCarving(Carving(data, base), data, base)
  {
    MagicsPrefixFree();
    var hits, key := AllHits(FILE_MAGICS, data, base, |FILE_MAGICS|), OffsetKey();
    AllHitsExact(FILE_MAGICS, data, base, |FILE_MAGICS|);
    SortedHits(hits, SortByKey(hits, key));
  }

  lemma SortedHits(hits: seq<CarvedFile>, out: seq<CarvedFile>)
    requires out == SortByKey(hits, OffsetKey()) && DistinctOffsets(hits)
    ensures forall c :: c in out <==> c in hits
    ensures StrictBy(out, OffsetKey())
  {
    var key := OffsetKey();
    SortFacts(hits, key);
    forall i, j | 0 <= i < j < |hits| ensures key(hits[i]) != key(hits[j]) {
      assert hits[i].offset != hits[j].offset;
    }
    SortKeepsDistinct(hits, key, key);
    forall c ensures c in out <==> c in hits {
      SortMember(hits, key, c);
    }
    forall i, j | 0 <= i < j < |out| ensures key(out[i]) < key(out[j]) {
      assert key(out[i]) <= key(out[j]) && key(out[i]) != key(out[j]);
    }
  }

  /** Exactness and order leave one answer. */
  lemma CarvingUnique(a: seq<CarvedFile>, b: seq<CarvedFile>, data: Bytes, base: int)
    requires IsCarving(a, data, base) && IsCarving(b, data, base)
    ensures a == b
  {
    assert forall i :: 0 <= i < |a| ==> a[i] in a;
    assert forall i :: 0 <= i < |b| ==> b[i] in b;
    StrictListUnique(a, b, OffsetKey());
  }

  // ----- Printable strings -----

  predicate Printable(b: U8) { 0x20 <= b <= 0x7E }

  /** `data[i..j]` is printable throughout and cannot be extended on either side. */
  predicate MaximalRun(data: Bytes, i: int, j: int) {
    && 0 <= i <= j <= |data|
    && (forall k :: i <= k < j ==> Printable(data[k]))
    && (i > 0 ==> !Printable(data[i - 1]))
    && (j < |data| ==> !Printable(data[j]))
  }

  /** `out` is, left to right, every maximal run of at least `minLen` bytes that starts below
      `limit`, and nothing else. A `minLen` of 0 admits the empty runs beside non-printable bytes. */
  ghost predicate AreRuns(out: seq<Bytes>, bounds: seq<(nat, nat)>, data: Bytes, minLen: nat, limit: nat) {
    && |out| == |bounds|
    && (forall k :: 0 <= k < |bounds| ==> IsRun(out[k], bounds[k], data, minLen) && bounds[k].1 < limit)
    && (forall k, l :: 0 <= k < l < |bounds| ==> bounds[k].1 < bounds[l].0)
    && (forall i: nat, j: nat :: MaximalRun(data, i, j) && j - i >= minLen && i < limit ==> (i, j) in bounds)
  }

  ghost predicate AreAllRuns(out: seq<Bytes>, bounds: seq<(nat, nat)>, data: Bytes, minLen: nat) {
    AreRuns(out, bounds, data, minLen, |data| + 1)
  }

  predicate IsRun(text: Bytes, b: (nat, nat), data: Bytes, minLen: nat) {
    MaximalRun(data, b.0, b.1) && b.1 - b.0 >= minLen && text == data[b.0..b.1]
  }

  /** `flush`: emit the run if long enough, then clear it. */
  method Flush(run: Bytes, minLen: nat, out: seq<Bytes>) returns (run': Bytes, out': seq<Bytes>)
    ensures run' == [] && out' == if |run| >= minLen then out + [run] else out
  {
    out' := out;
    if |run| >= minLen {
      out' := out' + [run];
    }
    run' := [];
  }

  /** `extract_ascii_strings`: all the maximal runs of the data that are long enough. */
  method ExtractAsciiStrings(data: Bytes, minLen: nat) returns (out: seq<Bytes>)
    ensures exists bounds :: AreAllRuns(out, bounds, data, minLen)
  {
    out := [];
    ghost var bounds: seq<(nat, nat)> := [];
    var run: Bytes := [];
    ghost var start: nat := 0;
    for i := 0 to |data|
      invariant start <= i && run == data[start..i] && OpenRun(data, start, i)
      invariant AreRuns(out, bounds, data, minLen, start)
    {
      if 0x20 <= data[i] <= 0x7E {
        run := run + [data[i]];
      } else {
        bounds := RunEnds(out, bounds, data, minLen, start, i);
        run, out := Flush(run, minLen, out);
        start := i + 1;
      }
    }
    bounds := RunEnds(out, bounds, data, minLen, start, |data|);
    run, out := Flush(run, minLen, out);
    assert AreAllRuns(out, bounds, data, minLen);
  }

  /** Printable from a left boundary up to `i`. */
  predicate OpenRun(data: Bytes, start: nat, i: nat) {
    && start <= i <= |data|
    && (start > 0 ==> !Printable(data[start - 1]))
    && (forall k :: start <= k < i ==> Printable(data[k]))
  }

  /** Closing an open run settles every start up to and including its right boundary. */
  lemma RunEnds(out: seq<Bytes>, bounds: seq<(nat, nat)>, data: Bytes, minLen: nat, start: nat, i: nat)
    returns (bounds': seq<(nat, nat)>)
    requires AreRuns(out, bounds, data, minLen, start) && OpenRun(data, start, i)
    requires i == |data| || !Printable(data[i])
    ensures AreRuns(if i - start >= minLen then out + [data[start..i]] else out, bounds', data, minLen, i + 1)
  {
    forall a: nat, b: nat | MaximalRun(data, a, b) && b - a >= minLen && a < i + 1
      ensures (a, b) in bounds || (a == start && b == i)
    {
      if a >= start { OneRunHere(data, start, i, a, b); }
    }
    if i - start >= minLen {
      bounds' := bounds + [(start, i)];
      assert IsRun(data[start..i], (start, i), data, minLen);
      AppendRun(out, bounds, data, minLen, start, i);
    } else {
      bounds' := bounds;
    }
  }

  lemma AppendRun(out: seq<Bytes>, bounds: seq<(nat, nat)>, data: Bytes, minLen: nat, start: nat, i: nat)
    requires AreRuns(out, bounds, data, minLen, start) && MaximalRun(data, start, i) && i - start >= minLen
    requires forall a: nat, b: nat :: MaximalRun(data, a, b) && b - a >= minLen && a < i + 1 ==>
               (a, b) in bounds || (a == start && b == i)
    ensures AreRuns(out + [data[start..i]], bounds + [(start, i)], data, minLen, i + 1)
  {
  }

  lemma OneRunHere(data: Bytes, start: nat, i: nat, a: nat, b: nat)
    requires OpenRun(data, start, i) && (i == |data| || !Printable(data[i]))
    requires MaximalRun(data, a, b) && start <= a <= i
    ensures a == start && b == i
  {
  }

  /** The description leaves one answer. */
  lemma RunsUnique(out: seq<Bytes>, bounds: seq<(nat, nat)>, out': seq<Bytes>, bounds': seq<(nat, nat)>,
                   data: Bytes, minLen: nat)
    requires AreAllRuns(out, bounds, data, minLen) && AreAllRuns(out', bounds', data, minLen)
    ensures out == out'
  {
    assert forall k :: 0 <= k < |bounds| ==> bounds[k] == (bounds[k].0, bounds[k].1);
    assert forall k :: 0 <= k < |bounds'| ==> bounds'[k] == (bounds'[k].0, bounds'[k].1);
    StrictListUnique(bounds, bounds', (b: (nat, nat)) => b.0);
  }
}
