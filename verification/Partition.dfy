/** core/src/partition.rs: the packed CHS field, the 16-byte entry and the CHS/LBA comparison. */
module Partition {
  import opened Machine

  const STD_HEADS_PER_CYL: U8 := 255
  const STD_SECTORS_PER_TRACK: U8 := 63
  const CHS_MAX_CYLINDER: U16 := 1023

  datatype Chs = Chs(cylinder: U16, head: U8, sector: U8) {

    /** The values a packed 3-byte field can hold: 10-bit cylinder, 6-bit sector. */
    predicate Packable() { cylinder <= CHS_MAX_CYLINDER && sector < 64 }

    /** An address that exists under the geometry: what CHS arithmetic is defined for. */
    predicate Addresses(hpc: U8, spt: U8) {
      cylinder <= CHS_MAX_CYLINDER && head < hpc && 1 <= sector <= spt
    }

    predicate IsUnused() { cylinder == 0 && head == 0 && sector == 0 }

    predicate IsOverflowMarker() {
      cylinder == CHS_MAX_CYLINDER && sector == STD_SECTORS_PER_TRACK && (head == 254 || head == 255)
    }

    /** `Chs::to_lba`. The `U32` result type makes the verifier show that no `Chs` overflows it. */
    function ToLba(hpc: U8, spt: U8): (r: Option<U32>)
      ensures r.Some? <==> sector != 0 && hpc != 0 && spt != 0
    {
      if sector == 0 || hpc == 0 || spt == 0 then None
      else
        LbaFitsU32(this, hpc, spt);
        Some(cylinder * hpc * spt + head * spt + (sector - 1))
    }
  }

  lemma LbaFitsU32(c: Chs, hpc: U8, spt: U8)
    requires c.sector >= 1
    ensures 0 <= c.cylinder * hpc * spt + c.head * spt + (c.sector - 1) <= U32_MAX
  {
    MulBound(c.cylinder, hpc, 65535, 255);
    MulBound(c.cylinder * hpc, spt, 65535 * 255, 255);
    MulBound(c.head, spt, 255, 255);
  }

  /** `Chs::from_bytes`: masks and shifts written as arithmetic on the byte values. */
  function ChsFromBytes(b: Bytes): Chs
    requires |b| == 3
  {
    var packed: int := b[1];
    Chs(packed / 64 * 256 + b[2], b[0], packed % 64)
  }

  /** The arithmetic form above is the masking and shifting of the source. */
  lemma ChsBitForm(b1: bv8, b2: bv8)
    ensures (b1 & 0x3F) as int == b1 as int % 64
    ensures (((b1 as bv16 & 0xC0) << 2) | b2 as bv16) as int == b1 as int / 64 * 256 + b2 as int
  {
  }

  /** The packing the repository's own tests use to build CHS fields. */
  function ChsToBytes(c: Chs): Bytes {
    [c.head, c.cylinder / 256 % 4 * 64 + c.sector % 64, c.cylinder % 256]
  }

  /** Encoding then decoding loses nothing a packed field can hold, and decoding then encoding
      gives back the very bytes: the two are inverse bijections. */
  lemma ChsRoundTrip(c: Chs, b: Bytes)
    requires |b| == 3
    ensures c.Packable() ==> ChsFromBytes(ChsToBytes(c)) == c
    ensures ChsFromBytes(b).Packable() && ChsToBytes(ChsFromBytes(b)) == b
  {
    var packed: int := b[1];
    var hi := packed / 64;
    assert (hi * 256 + b[2]) / 256 == hi && (hi * 256 + b[2]) % 256 == b[2];
    assert hi % 4 * 64 + packed % 64 % 64 == packed;
  }

  // ----- CHS translation is a mixed-radix bijection -----

  /** The number of sectors a geometry can address, 1024 * hpc * spt. */
  function Addressable(hpc: U8, spt: U8): nat {
    MulBound(hpc, spt, 255, 255);
    1024 * (hpc * spt)
  }

  /** The reference inverse of `to_lba`: the digits of `lba` in radix (.., hpc, spt). */
  function LbaToChs(lba: nat, hpc: U8, spt: U8): (c: Chs)
    requires hpc > 0 && spt > 0 && lba < Addressable(hpc, spt)
    ensures c.Addresses(hpc, spt)
  {
    var track := lba / spt;
    TrackBound(lba, hpc, spt);
    Chs(track / hpc, track % hpc, lba % spt + 1)
  }

  lemma TrackBound(lba: nat, hpc: U8, spt: U8)
    requires hpc > 0 && spt > 0 && lba < Addressable(hpc, spt)
    ensures 0 <= lba / spt / hpc < 1024
  {
    assert 1024 * (hpc * spt) == 1024 * hpc * spt;
    DivBound(lba, spt, 1024 * hpc);
    DivBound(lba / spt, hpc, 1024);
  }

  /** `to_lba` maps the addresses of a geometry one-to-one onto 0 .. 1024*hpc*spt-1. */
  lemma ChsBijection(c: Chs, lba: nat, hpc: U8, spt: U8)
    requires hpc > 0 && spt > 0
    ensures c.Addresses(hpc, spt) ==>
              && c.ToLba(hpc, spt).value < Addressable(hpc, spt)
              && LbaToChs(c.ToLba(hpc, spt).value, hpc, spt) == c
    ensures lba < Addressable(hpc, spt) ==> LbaToChs(lba, hpc, spt).ToLba(hpc, spt) == Some(lba)
  {
    if c.Addresses(hpc, spt) { AddressHasLba(c, hpc, spt); }
    if lba < Addressable(hpc, spt) { LbaHasAddress(lba, hpc, spt); }
  }

  lemma AddressHasLba(c: Chs, hpc: U8, spt: U8)
    requires hpc > 0 && spt > 0 && c.Addresses(hpc, spt)
    ensures c.ToLba(hpc, spt).value < Addressable(hpc, spt)
    ensures LbaToChs(c.ToLba(hpc, spt).value, hpc, spt) == c
  {
    LbaByTrack(c, hpc, spt);
    MixedDigits(c.cylinder, c.head, c.sector - 1, hpc, spt, c.ToLba(hpc, spt).value);
  }

  /** The digits of a mixed-radix number below 1024 * n * m are those it was made of. */
  lemma MixedDigits(x: nat, y: nat, z: nat, n: nat, m: nat, v: nat)
    requires x < 1024 && y < n && z < m && v == (x * n + y) * m + z
    ensures v < 1024 * (n * m) && v / m / n == x && v / m % n == y && v % m == z
  {
    Digits(x * n + y, z, m);
    Digits(x, y, n);
    MulMonotone(x + 1, 1024, n);
    MulMonotone(x * n + y + 1, 1024 * n, m);
    assert 1024 * n * m == 1024 * (n * m);
  }

  /** The address counts whole tracks of `spt` sectors. */
  lemma LbaByTrack(c: Chs, hpc: U8, spt: U8)
    requires hpc > 0 && spt > 0 && c.sector > 0
    ensures c.ToLba(hpc, spt).value == (c.cylinder * hpc + c.head) * spt + (c.sector - 1)
  {
  }

  lemma LbaHasAddress(lba: nat, hpc: U8, spt: U8)
    requires hpc > 0 && spt > 0 && lba < Addressable(hpc, spt)
    ensures LbaToChs(lba, hpc, spt).ToLba(hpc, spt) == Some(lba)
  {
    var track := lba / spt;
    TrackBound(lba, hpc, spt);
    assert track == track / hpc * hpc + track % hpc;
    assert lba == track * spt + lba % spt;
    assert track * spt == track / hpc * hpc * spt + track % hpc * spt;
  }

  // ----- CHS against LBA -----

  datatype ChsConsistency = Consistent | Unused | Inconsistent

  function MaxChsAddressableLba(hpc: U8, spt: U8): U64
    requires hpc > 0 && spt > 0
  {
    MulBound(hpc, spt, 255, 255);
    MulMonotone(1, hpc, spt);
    1024 * (hpc * spt) - 1
  }

  function CompareChs(chs: Chs, lba: U32, hpc: U8, spt: U8): ChsConsistency
    requires hpc > 0 && spt > 0
  {
    if chs.IsUnused() then Unused
    else if chs.IsOverflowMarker() then Consistent
    else if lba > MaxChsAddressableLba(hpc, spt) then Inconsistent
    else if chs.ToLba(hpc, spt) == Some(lba) then Consistent
    else Inconsistent
  }

  /** A real address is accepted for exactly one LBA, its own digits' value; the range check never
      decides. Off the geometry the range check is all that separates aliases, and it decides
      exactly when the translated LBA is past the last addressable one. */
  lemma ChsAcceptsExactlyOneLba(chs: Chs, lba: U32, hpc: U8, spt: U8)
    requires hpc > 0 && spt > 0 && !chs.IsOverflowMarker() && !chs.IsUnused()
    ensures chs.Addresses(hpc, spt) ==>
              (CompareChs(chs, lba, hpc, spt) == Consistent
               <==> lba < Addressable(hpc, spt) && chs == LbaToChs(lba, hpc, spt))
    ensures CompareChs(chs, lba, hpc, spt) == Consistent <==>
            chs.ToLba(hpc, spt) == Some(lba) && lba < Addressable(hpc, spt)
    ensures chs.Addresses(hpc, spt) ==>
              (CompareChs(chs, lba, hpc, spt) == Consistent <==> chs.ToLba(hpc, spt) == Some(lba))
  {
    ChsBijection(chs, lba, hpc, spt);
  }

  /** The LBA that three packed bytes translate to; none when the sector field is 0. */
  function PackedLba(b: Bytes, hpc: nat, spt: nat): Option<int>
    requires |b| == 3
  {
    var b0: int, b1: int, b2: int := b[0], b[1], b[2];
    if b1 % 64 == 0 then None else Some(((b1 / 64 * 256 + b2) * hpc + b0) * spt + (b1 % 64 - 1))
  }

  /** The comparison by the packed bytes, for every field, LBA and geometry: three zeros are unused, the
      two overflow markers always pass, and any other field passes exactly for the addressable LBA that
      it translates to. */
  lemma CompareByBytes(b: Bytes, lba: U32, hpc: U8, spt: U8)
    requires |b| == 3 && hpc > 0 && spt > 0
    ensures var r := CompareChs(ChsFromBytes(b), lba, hpc, spt);
            && (r == Unused <==> b == [0, 0, 0])
            && (b == [254, 255, 255] || b == [255, 255, 255] ==> r == Consistent)
            && (r == Inconsistent <==>
                  && b != [0, 0, 0] && b != [254, 255, 255] && b != [255, 255, 255]
                  && !(PackedLba(b, hpc, spt) == Some(lba) && lba < 1024 * (hpc * spt)))
  {
    hide Chs.ToLba;
    var c := ChsFromBytes(b);
    SpecialFields(b);
    ToLbaByBytes(b, hpc, spt);
    if !c.IsUnused() && !c.IsOverflowMarker() { ChsAcceptsExactlyOneLba(c, lba, hpc, spt); }
  }

  lemma SpecialFields(b: Bytes)
    requires |b| == 3
    ensures ChsFromBytes(b).IsUnused() <==> b == [0, 0, 0]
    ensures ChsFromBytes(b).IsOverflowMarker() <==> b == [254, 255, 255] || b == [255, 255, 255]
  {
    var packed: int := b[1];
    assert packed == packed / 64 * 64 + packed % 64;
  }

  lemma ToLbaByBytes(b: Bytes, hpc: U8, spt: U8)
    requires |b| == 3 && hpc > 0 && spt > 0
    ensures ChsFromBytes(b).ToLba(hpc, spt).Some? <==> PackedLba(b, hpc, spt).Some?
    ensures PackedLba(b, hpc, spt).Some? ==> ChsFromBytes(b).ToLba(hpc, spt).value == PackedLba(b, hpc, spt).value
  {
    var c := ChsFromBytes(b);
    if c.sector > 0 { LbaByTrack(c, hpc, spt); }
  }

  // ----- How many fields one LBA has -----

  /** A packed field that translates to `lba`. */
  predicate Denotes(c: Chs, lba: nat, hpc: U8, spt: U8) { c.Packable() && c.ToLba(hpc, spt) == Some(lba) }

  /** The head field has room for one more cylinder's worth of heads. */
  predicate HeadSpills(lba: nat, hpc: U8, spt: U8)
    requires hpc > 0 && spt > 0
  {
    lba % spt < 63 && hpc <= lba / spt && lba / spt % hpc + hpc <= 255
  }

  /** The sector field has room for one more track's worth of sectors. */
  predicate SectorSpills(lba: nat, spt: U8)
    requires spt > 0
  {
    spt <= lba && lba % spt + spt < 63
  }

  /** An addressable LBA has two packed fields exactly when one of its digits can spill. */
  lemma TwoFieldsIff(lba: nat, hpc: U8, spt: U8)
    requires hpc > 0 && spt > 0 && lba < Addressable(hpc, spt)
    ensures (exists a, b :: a != b && Denotes(a, lba, hpc, spt) && Denotes(b, lba, hpc, spt))
       <==> HeadSpills(lba, hpc, spt) || SectorSpills(lba, spt)
  {
    forall a, b | a != b && Denotes(a, lba, hpc, spt) && Denotes(b, lba, hpc, spt)
      ensures HeadSpills(lba, hpc, spt) || SectorSpills(lba, spt)
    {
      AliasSpills(a, b, lba, hpc, spt);
    }
    if HeadSpills(lba, hpc, spt) {
      HeadAlias(lba, hpc, spt);
    } else if SectorSpills(lba, spt) {
      SectorAlias(lba, hpc, spt);
    }
  }

  /** A field whose sector fits the track has the LBA's own track and sector; else the sector spills. */
  lemma FieldDigits(c: Chs, lba: nat, hpc: U8, spt: U8)
    requires hpc > 0 && spt > 0 && Denotes(c, lba, hpc, spt)
    ensures c.sector <= spt ==> lba / spt == c.cylinder * hpc + c.head && lba % spt == c.sector - 1
    ensures c.sector > spt ==> SectorSpills(lba, spt)
  {
    LbaByTrack(c, hpc, spt);
    MulBound(c.cylinder, hpc, 65535, 255);
    TrackDigits(c.cylinder * hpc + c.head, c.sector - 1, lba, spt);
  }

  lemma TrackDigits(track: nat, s: nat, lba: nat, spt: nat)
    requires spt > 0 && lba == track * spt + s
    ensures s < spt ==> lba / spt == track && lba % spt == s
    ensures s >= spt ==> spt <= lba && lba % spt + spt <= s
  {
    if s < spt {
      Digits(track, s, spt);
    } else {
      MulMonotone(0, track, spt);
      ModShift(track + 1, s - spt, spt);
      assert lba == (track + 1) * spt + (s - spt);
    }
  }

  lemma AliasSpills(a: Chs, b: Chs, lba: nat, hpc: U8, spt: U8)
    requires hpc > 0 && spt > 0 && a != b && Denotes(a, lba, hpc, spt) && Denotes(b, lba, hpc, spt)
    ensures HeadSpills(lba, hpc, spt) || SectorSpills(lba, spt)
  {
    hide Denotes, Chs.ToLba;
    FieldDigits(a, lba, hpc, spt);
    FieldDigits(b, lba, hpc, spt);
    FieldBounds(a, lba, hpc, spt);
    if a.sector <= spt && b.sector <= spt {
      HeadsDiffer(if a.cylinder < b.cylinder then a else b, if a.cylinder < b.cylinder then b else a, hpc);
    }
  }

  lemma FieldBounds(a: Chs, lba: nat, hpc: U8, spt: U8)
    requires Denotes(a, lba, hpc, spt)
    ensures 1 <= a.sector < 64
  {
  }

  /** Two places of one track number: the lower cylinder carries a head past the geometry. */
  lemma HeadsDiffer(a: Chs, b: Chs, hpc: U8)
    requires hpc > 0 && a.cylinder <= b.cylinder && (a.cylinder != b.cylinder || a.head != b.head)
    requires a.cylinder * hpc + a.head == b.cylinder * hpc + b.head
    ensures var track := b.cylinder * hpc + b.head; hpc <= track && track % hpc + hpc <= 255
  {
    assert a.cylinder < b.cylinder;
    MulMonotone(a.cylinder + 1, b.cylinder, hpc);
    assert (a.cylinder + 1) * hpc == a.cylinder * hpc + hpc;
    MulMonotone(0, a.cylinder, hpc);
    ModShift(b.cylinder, b.head, hpc);
  }

  lemma ModShift(q: nat, h: nat, n: nat)
    requires n > 0
    ensures (q * n + h) % n == h % n <= h
  {
    var k, r := h / n, h % n;
    assert h == k * n + r;
    assert q * n + h == (q + k) * n + r;
    Digits(q + k, r, n);
    MulMonotone(0, k, n);
  }

  lemma HeadAlias(lba: nat, hpc: U8, spt: U8)
    requires hpc > 0 && spt > 0 && lba < Addressable(hpc, spt) && HeadSpills(lba, hpc, spt)
    ensures var c := LbaToChs(lba, hpc, spt);
            && c.cylinder >= 1 && c.head + hpc <= 255 && Denotes(c, lba, hpc, spt)
            && Denotes(Chs(c.cylinder - 1, c.head + hpc, c.sector), lba, hpc, spt)
    ensures exists a, b :: a != b && Denotes(a, lba, hpc, spt) && Denotes(b, lba, hpc, spt)
  {
    var c := LbaToChs(lba, hpc, spt);
    LbaHasAddress(lba, hpc, spt);
    var track := lba / spt;
    assert track == track / hpc * hpc + track % hpc;
    assert track / hpc != 0;
    var b := Chs(c.cylinder - 1, c.head + hpc, c.sector);
    LbaByTrack(c, hpc, spt);
    LbaByTrack(b, hpc, spt);
    assert (c.cylinder - 1) * hpc + (c.head + hpc) == c.cylinder * hpc + c.head;
    assert Denotes(c, lba, hpc, spt) && Denotes(b, lba, hpc, spt) && b != c;
  }

  lemma SectorAlias(lba: nat, hpc: U8, spt: U8)
    requires hpc > 0 && spt > 0 && lba < Addressable(hpc, spt) && SectorSpills(lba, spt)
    ensures exists a, b :: a != b && Denotes(a, lba, hpc, spt) && Denotes(b, lba, hpc, spt)
  {
    hide Addressable, LbaToChs;
    var lower: nat := lba - spt;
    LessAddressable(lba, lower, hpc, spt);
    LbaHasAddress(lba, hpc, spt);
    LbaHasAddress(lower, hpc, spt);
    LowerSector(lba, spt);
    SectorOf(lba, hpc, spt);
    SectorOf(lower, hpc, spt);
    var c, e := LbaToChs(lba, hpc, spt), LbaToChs(lower, hpc, spt);
    var b := Chs(e.cylinder, e.head, e.sector + spt);
    SectorShift(e, b, lower, hpc, spt);
    assert Denotes(c, lba, hpc, spt) && Denotes(b, lba, hpc, spt) && b != c;
  }

  lemma LessAddressable(lba: nat, lower: nat, hpc: U8, spt: U8)
    requires lower <= lba < Addressable(hpc, spt)
    ensures lower < Addressable(hpc, spt)
  {
  }

  lemma LowerSector(lba: nat, spt: U8)
    requires 0 < spt <= lba
    ensures (lba - spt) % spt == lba % spt
  {
    assert lba == lba / spt * spt + lba % spt;
    Digits(lba / spt - 1, lba % spt, spt);
  }

  lemma SectorOf(lba: nat, hpc: U8, spt: U8)
    requires hpc > 0 && spt > 0 && lba < Addressable(hpc, spt)
    ensures LbaToChs(lba, hpc, spt).sector == lba % spt + 1 && LbaToChs(lba, hpc, spt).cylinder <= 1023
  {
  }

  lemma SectorShift(e: Chs, b: Chs, lower: nat, hpc: U8, spt: U8)
    requires hpc > 0 && spt > 0 && e.sector > 0 && e.ToLba(hpc, spt) == Some(lower)
    requires b.cylinder == e.cylinder && b.head == e.head && b.sector == e.sector + spt
    ensures b.ToLba(hpc, spt) == Some(lower + spt)
  {
    LbaByTrack(e, hpc, spt);
    LbaByTrack(b, hpc, spt);
  }

  /** A field that `chs_consistency` accepts for `lba` as a real address, under the geometry it is called with. */
  predicate Accepted(c: Chs, lba: U32) {
    && c.Packable() && !c.IsUnused() && !c.IsOverflowMarker()
    && CompareChs(c, lba, STD_HEADS_PER_CYL, STD_SECTORS_PER_TRACK) == Consistent
  }

  /** One LBA has two accepted fields exactly on the first track of a cylinder other than the first. */
  lemma TwoFieldsAcceptedIff(lba: U32)
    ensures (exists a, b :: a != b && Accepted(a, lba) && Accepted(b, lba))
       <==> 16065 <= lba < 1024 * 16065 && lba % 16065 < 63
  {
    hide CompareChs, Denotes;
    var hpc, spt := STD_HEADS_PER_CYL, STD_SECTORS_PER_TRACK;
    forall a | Accepted(a, lba) ensures lba < 1024 * 16065 && Denotes(a, lba, hpc, spt) {
      AcceptedDenotes(a, lba);
    }
    StandardSpills(lba);
    if lba < 1024 * 16065 {
      TwoFieldsIff(lba, hpc, spt);
      if HeadSpills(lba, hpc, spt) {
        HeadAlias(lba, hpc, spt);
        var c := LbaToChs(lba, hpc, spt);
        var b := Chs(c.cylinder - 1, c.head + hpc, c.sector);
        AcceptedDenotes(c, lba);
        AcceptedDenotes(b, lba);
        assert b != c && Accepted(b, lba) && Accepted(c, lba);
      }
    }
  }

  lemma AcceptedDenotes(c: Chs, lba: U32)
    requires !c.IsUnused() && !c.IsOverflowMarker()
    ensures Accepted(c, lba) <==> lba < 1024 * 16065 && Denotes(c, lba, STD_HEADS_PER_CYL, STD_SECTORS_PER_TRACK)
  {
    ChsAcceptsExactlyOneLba(c, lba, STD_HEADS_PER_CYL, STD_SECTORS_PER_TRACK);
  }

  lemma StandardSpills(lba: nat)
    ensures HeadSpills(lba, STD_HEADS_PER_CYL, STD_SECTORS_PER_TRACK) <==> 16065 <= lba && lba % 16065 < 63
    ensures !SectorSpills(lba, STD_SECTORS_PER_TRACK)
  {
    var track := lba / 63;
    assert lba == 16065 * (track / 255) + 63 * (track % 255) + lba % 63;
    assert lba % 16065 == 63 * (track % 255) + lba % 63;
  }

  /** Two different packed fields can be accepted for one LBA: head 255 under 255 heads aliases
      the next cylinder, so uniqueness needs `Addresses`. */
  lemma AliasedAddress()
    ensures var a, b := Chs(0, 255, 1), Chs(1, 0, 1);
            && !a.Addresses(STD_HEADS_PER_CYL, STD_SECTORS_PER_TRACK)
            && CompareChs(a, 16065, STD_HEADS_PER_CYL, STD_SECTORS_PER_TRACK) == Consistent
            && CompareChs(b, 16065, STD_HEADS_PER_CYL, STD_SECTORS_PER_TRACK) == Consistent
  {
  }

  // ----- The 16-byte entry -----

  predicate IsExtendedType(t: U8) { t == 0x05 || t == 0x0F || t == 0x85 }

  datatype PartitionEntry = PartitionEntry(
    status: U8, chsFirst: Chs, typeCode: U8, chsLast: Chs, lbaStart: U32, lbaCount: U32)
  {
    predicate Packable() { chsFirst.Packable() && chsLast.Packable() }

    predicate IsEmpty() { typeCode == 0 && lbaStart == 0 && lbaCount == 0 }

    predicate IsExtended() { IsExtendedType(typeCode) }

    /** `lba_end`: both saturations are 32-bit, so start + count >= 2^32 gives 2^32 - 2. */
    function LbaEnd(): (r: U32)
      ensures lbaStart <= r + 1
      ensures lbaStart + lbaCount <= U32_MAX ==> r == if lbaStart + lbaCount == 0 then 0 else lbaStart + lbaCount - 1
      ensures lbaStart + lbaCount > U32_MAX ==> r == U32_MAX - 1
    {
      var sum := if lbaStart + lbaCount <= U32_MAX then lbaStart + lbaCount else U32_MAX;
      if sum == 0 then 0 else sum - 1
    }
  }

  function EntryFromBytes(b: Bytes): PartitionEntry
    requires |b| == 16
  {
    PartitionEntry(b[0], ChsFromBytes(b[1..4]), b[4], ChsFromBytes(b[5..8]), Le32(b[8..12]), Le32(b[12..16]))
  }

  function EntryToBytes(e: PartitionEntry): Bytes {
    [e.status] + ChsToBytes(e.chsFirst) + [e.typeCode] + ChsToBytes(e.chsLast)
    + ToLe32(e.lbaStart) + ToLe32(e.lbaCount)
  }

  /** Each field of an entry by its place among the 16 bytes at `at`. */
  predicate TellsFields(s: Bytes, at: nat, e: PartitionEntry)
    requires at + 16 <= |s|
  {
    && e.status == s[at] && e.typeCode == s[at + 4] && e.lbaStart == Word(s, at + 8) && e.lbaCount == Word(s, at + 12)
    && e.chsFirst == ChsFromBytes(s[at + 1..at + 4]) && e.chsLast == ChsFromBytes(s[at + 5..at + 8])
  }

  lemma EntryByOffset(s: Bytes, at: nat)
    requires at + 16 <= |s|
    ensures TellsFields(s, at, EntryFromBytes(s[at..at + 16]))
  {
    hide ChsFromBytes;
    SliceOfSlice(s, at, 1, 4);
    SliceOfSlice(s, at, 5, 8);
    SliceOfSlice(s, at, 8, 12);
    SliceOfSlice(s, at, 12, 16);
  }

  lemma SliceOfSlice(s: Bytes, at: nat, i: nat, j: nat)
    requires i <= j <= 16 && at + 16 <= |s|
    ensures s[at..at + 16][i..j] == s[at + i..at + j]
  {
    var a, b := s[at..at + 16][i..j], s[at + i..at + j];
    forall k | 0 <= k < j - i ensures a[k] == b[k] {}
  }

  lemma EntryDecodeEncode(b: Bytes)
    requires |b| == 16
    ensures EntryFromBytes(b).Packable() && EntryToBytes(EntryFromBytes(b)) == b
  {
    ChsRoundTrip(Chs(0, 0, 0), b[1..4]);
    ChsRoundTrip(Chs(0, 0, 0), b[5..8]);
    ToLe32RoundTrip(b[8..12]);
    ToLe32RoundTrip(b[12..16]);
    assert b == [b[0]] + b[1..4] + [b[4]] + b[5..8] + b[8..12] + b[12..16];
  }

  lemma EntryEncodeDecode(e: PartitionEntry)
    requires e.Packable()
    ensures |EntryToBytes(e)| == 16 && EntryFromBytes(EntryToBytes(e)) == e
  {
    var b := EntryToBytes(e);
    assert b[1..4] == ChsToBytes(e.chsFirst) && b[5..8] == ChsToBytes(e.chsLast);
    assert b[8..12] == ToLe32(e.lbaStart) && b[12..16] == ToLe32(e.lbaCount);
    ChsRoundTrip(e.chsFirst, [0, 0, 0]);
    ChsRoundTrip(e.chsLast, [0, 0, 0]);
    Le32RoundTrip(e.lbaStart);
    Le32RoundTrip(e.lbaCount);
  }
}
