/** Properties of the two field registries and of retrieve and populate:
    where the 8-bit layout puts its fields, which fields share a byte and
    how each reads it, and that every field name has a decoder. */
module HeaderFacts {
  import opened Errors
  import opened PyOps
  import opened Hexadecimal
  import opened Decoder
  import opened DecoderFacts
  import opened Header

  function Offsets(reg: Registry): (o: seq<nat>)
    ensures |o| == |reg| && forall i :: 0 <= i < |reg| ==> o[i] == reg[i].block.offset
  {
    seq(|reg|, i requires 0 <= i < |reg| => reg[i].block.offset)
  }

  lemma SectionPrefixes()
    ensures IsHexString("7f") && HexValue("7f") == 0x7f
    ensures IsHexString("81") && HexValue("81") == 0x81
  {
    assert "7f"[..1] == "7" && "81"[..1] == "8" && "7"[..0] == "";
  }

  /** The signature at 0x7ff0 puts the 8-bit fields at 0x7ff0..0x7fff. */
  lemma SmsAt7f()
    ensures Sms("7f").Ok?
    ensures Offsets(Sms("7f").value) == [0x7ff0, 0x7ffa, 0x7ffc, 0x7ffe, 0x7fff, 0x7fff]
  {
    SectionPrefixes();
  }

  /** The signature at 0x81f0 puts the 8-bit fields at 0x81f0..0x81ff. */
  lemma SmsAt81()
    ensures Sms("81").Ok?
    ensures Offsets(Sms("81").value) == [0x81f0, 0x81fa, 0x81fc, 0x81fe, 0x81ff, 0x81ff]
  {
    SectionPrefixes();
  }

  /** Every field of the 8-bit layout for a scanned section ends by 0x8200. */
  lemma SmsExtent(q: string)
    requires q == "7f" || q == "81"
    ensures Sms(q).Ok? && forall i :: 0 <= i < |Sms(q).value| ==>
      Sms(q).value[i].block.offset + Sms(q).value[i].block.length <= 0x8200
  {
    SectionPrefixes();
    assert forall k :: 0 <= k < 6 ==> SMS_SUFFIXES[k] + SMS_LENGTHS[k] <= 0x100;
  }

  /** Either layout scan can report ends by 0x8200. */
  lemma LayoutExtent(m: ScanMatch)
    requires ValidMatch(m)
    ensures forall i :: 0 <= i < |Layout(m).value| ==>
      Layout(m).value[i].block.offset + Layout(m).value[i].block.length <= 0x8200
  {
    if m.mode == "sms" {
      SmsExtent(m.section.value);
    }
  }

  /** populate's precondition holds for every image of at least 0x8200 bytes. */
  lemma PopulateCovers(image: seq<byte>)
    requires |image| >= 0x8200
    ensures CoversLayout(image)
  {
    var s := Scan(image, "");
    if s.Ok? {
      LayoutExtent(s.value);
    }
  }

  /** Every field name of both registries selects a decoder, so retrieve never
      raises KeyError from the dispatch table itself. */
  lemma RegistryNamesDispatch(q: string)
    requires IsHexString(q)
    ensures forall i :: 0 <= i < |Smd()| ==> Canonical(Smd()[i].name) in FUNCTIONS
    ensures forall i :: 0 <= i < |Sms(q).value| ==> Canonical(Sms(q).value[i].name) in FUNCTIONS
  {
    var smd := Smd();
    assert forall i :: 0 <= i < 5 ==> smd[i].name in TEXT_FIELDS;
    assert smd[7].name in RANGE_FIELDS && smd[8].name in RANGE_FIELDS;
    assert Sms(q).value[0].name in TEXT_FIELDS;
  }

  /** In the 8-bit layout size and m3region read the same single byte, and
      the last byte of prod is the byte version reads. */
  lemma SmsSharedBytes(q: string)
    requires IsHexString(q)
    ensures var reg := Sms(q).value;
      && reg[4].block.offset == reg[5].block.offset
      && reg[4].block.length == 1 && reg[5].block.length == 1
      && reg[2].block.offset + reg[2].block.length - 1 == reg[3].block.offset
      && reg[3].block.length == 1
  {
  }

  /** size reads only the low nibble of its byte. */
  lemma SizeReadsLowNibble(b: byte, c: byte)
    requires b % 16 == c % 16
    ensures Decode("size", [b]) == Decode("size", [c])
  {
    DecodeDispatch("size", [b]);
    DecodeDispatch("size", [c]);
  }

  /** m3region reads only the high nibble of its byte. */
  lemma M3RegionReadsHighNibble(b: byte, c: byte)
    requires b / 16 == c / 16
    ensures Decode("m3region", [b]) == Decode("m3region", [c])
  {
    DecodeDispatch("m3region", [b]);
    DecodeDispatch("m3region", [c]);
  }

  /** version reads only the low nibble of its byte. */
  lemma VersionReadsLowNibble(b: byte, c: byte)
    requires b % 16 == c % 16
    ensures Decode("version", [b]) == Decode("version", [c])
  {
    DecodeDispatch("version", [b]);
    DecodeDispatch("version", [c]);
  }

  /** prod never reads the low nibble of its last byte, the one version reads. */
  lemma ProdIgnoresVersionNibble(seg: seq<byte>, other: seq<byte>)
    requires SameButLastLowNibble(seg, other)
    ensures Decode("prod", other) == Decode("prod", seg)
  {
    DecodeDispatch("prod", seg);
    DecodeDispatch("prod", other);
    RawBigEndianIgnoresLastLowNibble(seg, other);
  }

  /** retrieve keeps every field's name, offset, length and caption, and adds
      exactly one decoded value to its block. */
  lemma RetrieveKeepsBlocks(reg: Registry, data: seq<byte>)
    requires Fits(reg, data)
    requires Retrieve(reg, data).Ok?
    ensures var out := Retrieve(reg, data).value;
      forall i :: 0 <= i < |reg| ==>
        && out[i].name == reg[i].name
        && out[i].block.offset == reg[i].block.offset
        && out[i].block.length == reg[i].block.length
        && out[i].block.caption == reg[i].block.caption
        && |out[i].block.decoded| == |reg[i].block.decoded| + 1
        && out[i].block.decoded[..|reg[i].block.decoded|] == reg[i].block.decoded
  {
  }
}
