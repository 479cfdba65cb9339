/** core/src/mbr.rs: the 512-byte sector parse and the encoder that inverts it. */
module Mbr {
  import opened Machine
  import opened Partition

  const SECTOR_SIZE := 512
  const PT_OFFSET := 446

  datatype MbrSector = MbrSector(
    bootCode: Bytes, diskSerial: U32, reserved: Bytes, entries: seq<PartitionEntry>, signature: Bytes)

  datatype ParseError = TooShort(len: nat) | BadSignature(value: U16)

  function EntryAt(sector: Bytes, i: nat): PartitionEntry
    requires |sector| >= SECTOR_SIZE && i < 4
  {
    EntryFromBytes(sector[PT_OFFSET + 16 * i..PT_OFFSET + 16 * i + 16])
  }

  function Parse(sector: Bytes): Result<MbrSector, ParseError> {
    if |sector| < SECTOR_SIZE then Err(TooShort(|sector|))
    else
      var sig := sector[510..512];
      if sig != [0x55, 0xAA] then
        var high: int := sig[0];
        Err(BadSignature(high * 256 + sig[1]))
      else
        Ok(MbrSector(sector[..446], Le32(sector[440..444]), sector[444..446],
                     seq(4, i requires 0 <= i < 4 => EntryAt(sector, i)), sig))
  }

  /** The parse by the bytes: which sectors are refused, with which error, and where each field lies. */
  lemma ParseByBytes(s: Bytes)
    ensures Parse(s).Ok? <==> |s| >= 512 && s[510] == 0x55 && s[511] == 0xAA
    ensures |s| < 512 ==> Parse(s) == Err(TooShort(|s|))
    ensures |s| >= 512 && Parse(s).Err? ==>
              Parse(s).error.BadSignature? && var high: int := s[510]; Parse(s).error.value == 256 * high + s[511]
    ensures Parse(s).Ok? ==>
              var m := Parse(s).value;
              && m.bootCode == s[..446] && m.diskSerial == Word(s, 440) && m.reserved == s[444..446]
              && |m.entries| == 4 && forall i :: 0 <= i < 4 ==> TellsFields(s, 446 + 16 * i, m.entries[i])
  {
    hide TellsFields, EntryFromBytes;
    if |s| >= 512 {
      var sig := s[510..512];
      assert sig[0] == s[510] && sig[1] == s[511];
      assert sig == [0x55, 0xAA] <==> s[510] == 0x55 && s[511] == 0xAA;
    }
    if Parse(s).Ok? {
      forall i | 0 <= i < 4 ensures TellsFields(s, 446 + 16 * i, Parse(s).value.entries[i]) {
        EntryByOffset(s, 446 + 16 * i);
      }
    }
  }

  /** The values a sector can decode to: the serial and reserved fields repeat the boot-code tail. */
  predicate WellFormed(m: MbrSector) {
    && |m.bootCode| == 446 && m.signature == [0x55, 0xAA]
    && m.bootCode[440..444] == ToLe32(m.diskSerial) && m.bootCode[444..446] == m.reserved
    && |m.entries| == 4 && forall i :: 0 <= i < 4 ==> m.entries[i].Packable()
  }

  function Encode(m: MbrSector): Bytes
    requires WellFormed(m)
  {
    m.bootCode + EntryToBytes(m.entries[0]) + EntryToBytes(m.entries[1])
    + EntryToBytes(m.entries[2]) + EntryToBytes(m.entries[3]) + m.signature
  }

  /** Re-encoding a parsed sector gives back its first 512 bytes: the parse drops nothing. */
  lemma ParseEncode(s: Bytes)
    requires Parse(s).Ok?
    ensures WellFormed(Parse(s).value) && Encode(Parse(s).value) == s[..512]
  {
    var m := Parse(s).value;
    ToLe32RoundTrip(s[440..444]);
    assert s[..446][440..444] == s[440..444] && s[..446][444..446] == s[444..446];
    forall i | 0 <= i < 4
      ensures m.entries[i].Packable() && EntryToBytes(m.entries[i]) == s[446 + 16 * i..446 + 16 * i + 16]
    {
      EntryDecodeEncode(s[446 + 16 * i..446 + 16 * i + 16]);
    }
    assert s[..512] == s[..446] + s[446..462] + s[462..478] + s[478..494] + s[494..510] + s[510..512];
  }

  /** Every well-formed value is the parse of its encoding. */
  lemma EncodeParse(m: MbrSector)
    requires WellFormed(m)
    ensures |Encode(m)| == 512 && Parse(Encode(m)) == Ok(m)
  {
    forall i | 0 <= i < 4
      ensures |EntryToBytes(m.entries[i])| == 16 && EntryFromBytes(EntryToBytes(m.entries[i])) == m.entries[i]
    {
      EntryEncodeDecode(m.entries[i]);
    }
    var s := Encode(m);
    SectorLayout(m.bootCode, EntryToBytes(m.entries[0]), EntryToBytes(m.entries[1]),
                 EntryToBytes(m.entries[2]), EntryToBytes(m.entries[3]), m.signature);
    Le32RoundTrip(m.diskSerial);
    forall i | 0 <= i < 4 ensures Parse(s).value.entries[i] == m.entries[i] {
      assert i == 0 || i == 1 || i == 2 || i == 3;
    }
    assert Parse(s).value.entries == m.entries;
  }

  lemma SectorLayout(code: Bytes, e0: Bytes, e1: Bytes, e2: Bytes, e3: Bytes, sig: Bytes)
    requires |code| == 446 && |e0| == |e1| == |e2| == |e3| == 16 && |sig| == 2
    ensures var s := code + e0 + e1 + e2 + e3 + sig;
            && |s| == 512 && s[..446] == code && s[510..512] == sig
            && s[446..462] == e0 && s[462..478] == e1 && s[478..494] == e2 && s[494..510] == e3
            && s[440..444] == code[440..444] && s[444..446] == code[444..446]
  {
    var a, b := code + e0, code + e0 + e1;
    var c, d := b + e2, b + e2 + e3;
    assert a[446..462] == e0 && b[462..478] == e1 && c[478..494] == e2 && d[494..510] == e3;
  }

  /** Equal parses come from equal sectors, and bytes past 512 never matter. */
  lemma ParseLossless(s: Bytes, t: Bytes)
    ensures Parse(s).Ok? && Parse(s) == Parse(t) ==> s[..512] == t[..512]
    ensures |s| >= 512 && |t| >= 512 && s[..512] == t[..512] ==> Parse(s) == Parse(t)
  {
    if Parse(s).Ok? && Parse(s) == Parse(t) {
      ParseEncode(s);
      ParseEncode(t);
    }
    if |s| >= 512 && |t| >= 512 && s[..512] == t[..512] {
      SamePrefixSameParse(s, t);
    }
  }

  lemma SamePrefixSameParse(s: Bytes, t: Bytes)
    requires |s| >= 512 && |t| >= 512 && s[..512] == t[..512]
    ensures Parse(s) == Parse(t)
  {
    forall i, j | 0 <= i <= j <= 512
      ensures s[i..j] == t[i..j]
    {
      assert forall k :: 0 <= k < 512 ==> s[k] == s[..512][k] == t[..512][k] == t[k];
    }
    assert s[..446] == s[0..446] && t[..446] == t[0..446];
    if s[510..512] == [0x55, 0xAA] {
      assert forall i :: 0 <= i < 4 ==> EntryAt(s, i) == EntryAt(t, i);
      assert Parse(s).value.entries == Parse(t).value.entries;
    }
  }
}
