/** Properties of the segment decoders: what each one reads, what it
    returns, and which inputs make it fail. */
module DecoderFacts {
  import opened Errors
  import opened PyOps
  import opened Hexadecimal
  import opened Codec
  import opened Decoder

  const RA: seq<byte> := [0x52, 0x41]   // "RA"
  const MO: seq<byte> := [0x4d, 0x4f]   // "MO"

  /** A lowercase or decimal digit is printed only for its own value. */
  lemma DigitIs(n: nat, c: char)
    requires n < 16 && IsHexDigit(c) && !('A' <= c <= 'F')
    ensures Digit(n) == c <==> n == DigitValue(c)
  {
  }

  /** raw of one byte equals a two-digit string exactly for the byte that string spells. */
  lemma RawOfByteIs(b: byte, hi: nat, lo: nat)
    requires hi < 16 && lo < 16
    ensures Raw([b]) == [Digit(hi), Digit(lo)] <==> b == hi * 16 + lo
  {
    assert Raw([b])[0] == Digit(b / 16) && Raw([b])[1] == Digit(b % 16);
    DigitIs(b / 16, Digit(hi));
    DigitIs(b % 16, Digit(lo));
  }

  // ----- raw_be ----------------------------------------------------------------

  /** The big-endian rendering is one or two digits shorter than raw. */
  lemma RawBigEndianLength(seg: seq<byte>)
    requires |seg| > 0
    ensures var r := RawBigEndian(seg).value;
      |r| == 2 * |seg| - 1 || |r| == 2 * |seg| - 2
    ensures |seg| == 3 ==> |RawBigEndian(seg).value| in {4, 5}
  {
  }

  /** A 2.5-byte product code: [0x34, 0x12, 0x05] renders as "1234". */
  lemma RawBigEndianExample()
    ensures RawBigEndian([0x34, 0x12, 0x05]) == Ok("1234")
  {
    var seg: seq<byte> := [0x34, 0x12, 0x05];
    assert Reverse(seg) == [0x05, 0x12, 0x34];
    var full := Raw(Reverse(seg));
    assert full == "051234" by {
      assert full[0] == Digit(0) && full[1] == Digit(5);
      assert full[2] == Digit(1) && full[3] == Digit(2);
      assert full[4] == Digit(3) && full[5] == Digit(4);
    }
    assert [full[0]] + full[2..] == "01234";
  }

  /** raw_be is not a byte reversal of raw: [0x01, 0x23, 0x45] gives
      "42301", the low nibble 5 of the last byte being dropped. */
  lemma RawBigEndianKeepsHighNibbleOnly()
    ensures RawBigEndian([0x01, 0x23, 0x45]) == Ok("42301")
  {
    var seg: seq<byte> := [0x01, 0x23, 0x45];
    assert Reverse(seg) == [0x45, 0x23, 0x01];
    var full := Raw(Reverse(seg));
    assert full == "452301" by {
      assert full[0] == Digit(4) && full[1] == Digit(5);
      assert full[2] == Digit(2) && full[3] == Digit(3);
      assert full[4] == Digit(0) && full[5] == Digit(1);
    }
    assert [full[0]] + full[2..] == "42301";
  }

  /** raw_be on a non-empty segment, with the last byte reduced to its high nibble. */
  lemma RawBigEndianSplit(seg: seq<byte>)
    requires |seg| > 0
    ensures var n := |seg| - 1;
      var code := [Digit(seg[n] / 16)] + Raw(Reverse(seg[..n]));
      RawBigEndian(seg) == Ok(if code[0] == '0' then code[1..] else code)
  {
    var n := |seg| - 1;
    assert seg[n..][0] == seg[n];
  }

  /** Two segments that differ at most in the low nibble of their last byte. */
  predicate SameButLastLowNibble(seg: seq<byte>, other: seq<byte>) {
    && |seg| > 0 && |other| == |seg|
    && other[..|seg| - 1] == seg[..|seg| - 1]
    && other[|seg| - 1] / 16 == seg[|seg| - 1] / 16
  }

  /** raw_be reads only the high nibble of its last byte. */
  lemma RawBigEndianIgnoresLastLowNibble(seg: seq<byte>, other: seq<byte>)
    requires SameButLastLowNibble(seg, other)
    ensures RawBigEndian(other) == RawBigEndian(seg)
  {
    RawBigEndianSplit(seg);
    RawBigEndianSplit(other);
  }

  // ----- alloc -----------------------------------------------------------------

  /** The size entry of alloc is the exact quotient precisely when the
      distance between the addresses is a whole number of kilobytes. */
  lemma AllocSizeExact(seg: seq<byte>)
    requires |seg| >= 8
    ensures var d := BigEndian(seg[4..8]) - BigEndian(seg[..4]);
      var k := Alloc(seg).value[2].number;
      && (k - 1) * 1024 < d <= k * 1024
      && (k * 1024 == d <==> d % 1024 == 0)
      && (d % 1024 == 0 ==> k == d / 1024)
  {
    var d := BigEndian(seg[4..8]) - BigEndian(seg[..4]);
    assert Slice(seg, 0, 4) == seg[..4];
    var k := Kilobytes(d);
    if d % 1024 == 0 {
      assert k == d / 1024;
    } else {
      assert k == d / 1024 + 1;
    }
  }

  lemma RawOfWord(a: byte, b: byte, c: byte, d: byte)
    ensures Raw([a, b, c, d]) == ByteHex(a) + ByteHex(b) + ByteHex(c) + ByteHex(d)
  {
    var w: seq<byte> := [a, b, c, d];
    var x: seq<byte> := [b, c, d];
    var y: seq<byte> := [c, d];
    var z: seq<byte> := [d];
    assert w[1..] == x && x[1..] == y && y[1..] == z && z[1..] == [];
    assert Raw(z) == ByteHex(d);
    assert Raw(y) == ByteHex(c) + ByteHex(d);
    assert Raw(x) == ByteHex(b) + ByteHex(c) + ByteHex(d);
  }

  lemma BigEndianOfWord(a: byte, b: byte, c: byte, d: byte)
    ensures BigEndian([a, b, c, d]) == ((a * 256 + b) * 256 + c) * 256 + d
  {
    var w: seq<byte> := [a, b, c, d];
    var x: seq<byte> := [a, b, c];
    var y: seq<byte> := [a, b];
    var z: seq<byte> := [a];
    assert w[..3] == x && x[..2] == y && y[..1] == z && z[..0] == [];
    assert BigEndian(z) == a;
    assert BigEndian(y) == a * 256 + b;
    assert BigEndian(x) == (a * 256 + b) * 256 + c;
  }

  /** Start 0x00000000 and end 0x00040000 span 256 kilobytes. */
  lemma AllocExample(seg: seq<byte>)
    requires seg == [0, 0, 0, 0, 0, 4, 0, 0]
    ensures Alloc(seg) == Ok([Hex("00000000"), Hex("00040000"), Int(256)])
  {
    assert Slice(seg, 0, 4) == [0, 0, 0, 0] && Slice(seg, 4, 8) == [0, 4, 0, 0];
    ExampleWords();
    var r := Alloc(seg);
    assert r.value == [r.value[0], r.value[1], r.value[2]];
  }

  /** The two addresses of AllocExample, as text and as numbers. */
  lemma ExampleWords()
    ensures Raw([0, 0, 0, 0]) == "00000000" && Raw([0, 4, 0, 0]) == "00040000"
    ensures BigEndian([0, 0, 0, 0]) == 0 && BigEndian([0, 4, 0, 0]) == 262144
    ensures Kilobytes(262144 - 0) == 256
  {
    BigEndianOfWord(0, 0, 0, 0);
    BigEndianOfWord(0, 4, 0, 0);
    RawOfWord(0, 0, 0, 0);
    RawOfWord(0, 4, 0, 0);
    assert ByteHex(0) == "00" && ByteHex(4) == "04";
  }

  // ----- lookup ----------------------------------------------------------------

  /** lookup distributes over concatenation: matches stay in input order. */
  lemma {:induction false} LookupConcat(table: map<char, string>, a: string, b: string)
    ensures Lookup(table, a + b) == Lookup(table, a) + Lookup(table, b)
  {
    if |a| == 0 {
      assert a + b == b;
    } else {
      assert (a + b)[0] == a[0];
      assert (a + b)[1..] == a[1..] + b;
      LookupConcat(table, a[1..], b);
    }
  }

  /** One character contributes its label if it is a key, and nothing otherwise. */
  lemma LookupOne(table: map<char, string>, c: char)
    ensures Lookup(table, [c]) == if c in table then [table[c]] else []
  {
    assert [c][1..] == [];
  }

  /** lookup finds something exactly when some character is a key. */
  lemma {:induction false} LookupEmptyIff(table: map<char, string>, code: string)
    ensures |Lookup(table, code)| == 0 <==> forall i :: 0 <= i < |code| ==> code[i] !in table
  {
    if |code| > 0 {
      LookupEmptyIff(table, code[1..]);
      assert forall i :: 1 <= i < |code| ==> code[i] == code[1..][i - 1];
    }
  }

  // ----- locale ----------------------------------------------------------------

  const JAPAN := "Japan, South Korea, Taiwan"
  const AMERICA := "N. America, Brazil"
  const EUROPE := "Europe, Hong Kong, Australia"

  /** "J6" names the 3-button and the 6-button controller, in that order. */
  lemma PeripheralExample()
    ensures Peripheral([0x4a, 0x36]) == List([Text("3-button Controller"), Text("6-button Controller")])
  {
    var seg: seq<byte> := [0x4a, 0x36];
    assert SingleByteText(seg) == "J6";
    assert "J6"[1..] == "6" && "6"[1..] == "";
  }

  /** An unknown character is skipped, not an error: "J?" names one device. */
  lemma PeripheralSkipsUnknown()
    ensures Peripheral([0x4a, 0x3f]) == List([Text("3-button Controller")])
  {
    var seg: seq<byte> := [0x4a, 0x3f];
    assert SingleByteText(seg) == "J?";
    assert "J?"[1..] == "?" && "?"[1..] == "";
  }

  /** 0xFF padding decodes to U+F8F3, which is no device: "J" then padding
      still names the 3-button controller. */
  lemma PeripheralIgnoresPadding()
    ensures Peripheral([0x4a, 0xff]) == List([Text("3-button Controller")])
  {
    var seg: seq<byte> := [0x4a, 0xff];
    var t := SingleByteText(seg);
    assert t == ['J', 0xf8f3 as char];
    assert t[1..] == [0xf8f3 as char] && t[1..][1..] == [];
  }

  /** One 8-bit header byte 0x4c read twice: size nibble c is 32KB, region
      nibble 4 is SMS Export. */
  lemma SharedByteExample()
    ensures Sizes([0x4c]) == Ok(Text("32KB"))
    ensures M3Locale([0x4c]) == Ok(Text("SMS Export"))
  {
    assert Digit(0xc) == 'c' && Digit(4) == '4';
  }

  /** Nibbles outside the tables raise KeyError: size 5, region 2. */
  lemma NibbleTablesReject()
    ensures Sizes([0x25]) == Err(KeyError)
    ensures M3Locale([0x25]) == Err(KeyError)
  {
    assert Digit(5) == '5' && Digit(2) == '2';
  }

  /** The regions a bit mask names, read straight from the bits. */
  function RegionsOfMask(key: nat): seq<string> {
    (if key % 2 == 1 then [JAPAN] else [])
    + (if (key / 4) % 2 == 1 then [AMERICA] else [])
    + (if (key / 8) % 2 == 1 then [EUROPE] else [])
  }

  /** The bit mask of a string of region letters. */
  function Mask(s: string): nat {
    (if 'J' in s then 1 else 0) + (if 'U' in s then 4 else 0) + (if 'E' in s then 8 else 0)
  }

  /** bintostr keeps bits 0, 2 and 3 of a digit and drops bit 1 ... */
  lemma BinToStrMask(key: nat)
    requires key < 16
    ensures Mask(BinToStr(key)) == key - 2 * ((key / 2) % 2)
  {
  }

  /** The region letters chosen by three flags, in the order J, U, E. */
  function Letters(j: bool, u: bool, e: bool): string {
    (if j then "J" else "") + (if u then "U" else "") + (if e then "E" else "")
  }

  /** ... and every ordered choice of letters is the bintostr of its mask. */
  lemma MaskBinToStr(j: bool, u: bool, e: bool)
    ensures BinToStr(Mask(Letters(j, u, e))) == Letters(j, u, e)
  {
    var s := Letters(j, u, e);
    var key := (if j then 1 else 0) + (if u then 4 else 0) + (if e then 8 else 0);
    assert Mask(s) == key by {
      assert 'J' in s <==> j;
      assert 'U' in s <==> u;
      assert 'E' in s <==> e;
    }
    assert key % 2 == 1 <==> j;
    assert (key / 4) % 2 == 1 <==> u;
    assert (key / 8) % 2 == 1 <==> e;
  }

  /** Looking up the letters of bintostr gives the regions of the bits. */
  lemma LookupBinToStr(key: nat)
    ensures Lookup(REGIONS, BinToStr(key)) == RegionsOfMask(key)
  {
    var j := if key % 2 == 1 then "J" else "";
    var u := if (key / 4) % 2 == 1 then "U" else "";
    var e := if (key / 8) % 2 == 1 then "E" else "";
    LookupConcat(REGIONS, j + u, e);
    LookupConcat(REGIONS, j, u);
    LookupOne(REGIONS, 'J');
    LookupOne(REGIONS, 'U');
    LookupOne(REGIONS, 'E');
    assert Lookup(REGIONS, "") == [];
  }

  /** When a J, U or E letter is present the bit-mask reading is never tried. */
  lemma LocaleLettersFirst(seg: seq<byte>)
    requires IsSingleByte(seg)
    requires exists i :: 0 <= i < |seg| && SingleByteText(seg)[i] in REGIONS
    ensures Locale(seg) == Ok(List(Texts(Lookup(REGIONS, SingleByteText(seg)))))
  {
    LookupEmptyIff(REGIONS, SingleByteText(seg));
  }

  /** Without region letters the first character is read as a hex bit mask;
      a character that is not a hex digit raises ValidationError. */
  lemma LocaleFallback(seg: seq<byte>)
    requires IsSingleByte(seg) && |seg| > 0
    requires forall i :: 0 <= i < |seg| ==> SingleByteText(seg)[i] !in REGIONS
    ensures var c := SingleByteText(seg)[0];
      Locale(seg) == if IsHexDigit(c) then Ok(List(Texts(RegionsOfMask(DigitValue(c))))) else Err(ValidationError)
  {
    var t := SingleByteText(seg);
    LookupEmptyIff(REGIONS, t);
    if IsHexDigit(t[0]) {
      assert [t[0]][..0] == [];
      assert HexValue([t[0]]) == DigitValue(t[0]);
      LookupBinToStr(DigitValue(t[0]));
    }
  }

  /** A single "J" names Japan. */
  lemma LocaleLetterJ()
    ensures Locale([0x4a]) == Ok(List([Text(JAPAN)]))
  {
    assert SingleByteText([0x4a]) == "J";
    LookupOne(REGIONS, 'J');
    assert Texts([JAPAN]) == [Text(JAPAN)];
  }

  /** The mask 5 has bits 0 and 2 set. */
  lemma MaskFiveRegions()
    ensures Texts(RegionsOfMask(5)) == [Text(JAPAN), Text(AMERICA)]
  {
    assert 5 % 2 == 1 && (5 / 4) % 2 == 1 && (5 / 8) % 2 == 0;
    assert RegionsOfMask(5) == [JAPAN, AMERICA];
  }

  /** The mask "5" (bits 0 and 2) names Japan and North America. */
  lemma LocaleMaskFive()
    ensures Locale([0x35]) == Ok(List([Text(JAPAN), Text(AMERICA)]))
  {
    var seg: seq<byte> := [0x35];
    assert SingleByteText(seg) == "5";
    LocaleFallback(seg);
    assert DigitValue('5') == 5;
    MaskFiveRegions();
  }

  /** The mask "0" names no region, and that is not an error. */
  lemma LocaleMaskZero()
    ensures Locale([0x30]) == Ok(List([]))
  {
    assert SingleByteText([0x30]) == "0";
    LocaleFallback([0x30]);
    assert RegionsOfMask(0) == [];
  }

  /** "Z" is neither a region letter nor a hex digit. */
  lemma LocaleNotHex()
    ensures Locale([0x5a]) == Err(ValidationError)
  {
    assert SingleByteText([0x5a]) == "Z";
    LocaleFallback([0x5a]);
  }

  /** A region field holding a lead byte stays bytes; iterating them gives
      ints, so no letter matches and int() of an int raises TypeError. */
  lemma LocaleUndecodable(seg: seq<byte>)
    requires !IsSingleByte(seg)
    ensures Locale(seg) == Err(TypeError)
  {
  }

  /** An empty region field matches no letter, and its first character does
      not exist. */
  lemma LocaleEmpty()
    ensures Locale([]) == Err(IndexError)
  {
  }

  // ----- sram ------------------------------------------------------------------

  /** The text of the first two bytes is a substring of "RA" exactly when they are "RA". */
  lemma TagIs(seg: seq<byte>, a: char, b: char, tag: seq<byte>)
    requires |seg| >= 2 && IsSingleByte(seg[..2])
    requires a as int < 0x80 && b as int < 0x80
    requires |tag| == 2 && tag[0] == a as int && tag[1] == b as int
    ensures DecodeText(Slice(seg, 0, 2)) == Chars(SingleByteText(seg[..2]))
    ensures Contains(SingleByteText(seg[..2]), [a, b]) <==> seg[..2] == tag
  {
    var t := SingleByteText(seg[..2]);
    SubstringsOfPair(t, a, b);
    if seg[..2] == tag {
      assert t == [a, b];
    }
  }

  /** sram's tag test is Python's substring test, whatever the segment's
      length: sram is "No SRAM" exactly when the decoded tag is not a
      substring of "RA", and a tag that does not decode raises TypeError. */
  lemma SramAbsent(seg: seq<byte>)
    ensures IsSingleByte(Slice(seg, 0, 2)) ==>
      (Sram(seg) == Ok(Sentinel("No SRAM")) <==> !Contains(SingleByteText(Slice(seg, 0, 2)), "RA"))
    ensures !IsSingleByte(Slice(seg, 0, 2)) ==> Sram(seg) == Err(TypeError)
  {
  }

  /** With two bytes or more the substring test is an equality test: sram is
      "No SRAM" exactly when the first two bytes are not "RA". */
  lemma SramTagIsRA(seg: seq<byte>)
    requires |seg| >= 2 && IsSingleByte(seg[..2])
    ensures Sram(seg) == Ok(Sentinel("No SRAM")) <==> seg[..2] != RA
  {
    TagIs(seg, 'R', 'A', RA);
  }

  /** A shorter tag is a substring of "RA", so sram goes on and fails on the
      missing type byte. */
  lemma SramShortTags()
    ensures Sram([]) == Err(IndexError)
    ensures Sram([0x52]) == Err(IndexError)
    ensures Sram([0x41]) == Err(IndexError)
  {
    var none: seq<byte> := [];
    assert Slice(none, 0, 2) == [] && Slice(none, 2, 3) == [];
    assert SingleByteText([0x52]) == "R" && SingleByteText([0x41]) == "A";
    assert "RA"[1..] == "A";
  }

  /** Half-width katakana decode: a tag of two katakana "ｱ" is not "RA". */
  lemma SramKatakanaTag(seg: seq<byte>)
    requires |seg| >= 2 && seg[..2] == [0xb1, 0xb1]
    ensures Sram(seg) == Ok(Sentinel("No SRAM"))
  {
    assert IsSingleByte(seg[..2]);
    SramTagIsRA(seg);
  }

  /** The bus width sram reports, read from the nibbles of byte 2. */
  function WidthOf(b: byte): seq<Value> {
    var hi := b / 16;
    var lo := b % 16;
    if hi == 0xa || hi == 0xe then [Text("16-bit")]
    else if hi == 0xb || hi == 0xf then
      if lo == 0 then [Text("8-bit even addresses")]
      else if lo == 8 then [Text("8-bit odd addresses")]
      else []
    else []
  }

  lemma SramWidthOf(b: byte)
    ensures SramWidth(Raw([b])) == WidthOf(b)
    ensures (Raw([b])[0] in "ef") <==> b / 16 >= 0xe
  {
    var t := Raw([b]);
    assert t[0] == Digit(b / 16) && t[1] == Digit(b % 16);
    DigitIs(b / 16, 'a');
    DigitIs(b / 16, 'b');
    DigitIs(b / 16, 'e');
    DigitIs(b / 16, 'f');
    DigitIs(b % 16, '0');
    DigitIs(b % 16, '8');
  }

  /** A "RA" record without the EEPROM marker: width entry (if recognised),
      the backup flag (high nibble of byte 2 is e or f) and the address
      range of bytes 4..11, so four or five entries. */
  lemma SramRecord(seg: seq<byte>)
    requires |seg| >= 12 && seg[..2] == RA && seg[3] != 0x40
    ensures Sram(seg) == Ok(List(WidthOf(seg[2]) + [Bool(seg[2] / 16 >= 0xe)] + Alloc(seg[4..12]).value))
    ensures |Sram(seg).value.items| in {4, 5}
  {
    TagIs(seg, 'R', 'A', RA);
    assert Slice(seg, 3, 4) == [seg[3]];
    RawOfByteIs(seg[3], 4, 0);
    assert Slice(seg, 2, 3) == [seg[2]];
    SramWidthOf(seg[2]);
    assert Slice(seg, 4, 12) == seg[4..12];
  }

  /** A "RA" record with byte 3 = 0x40 is an EEPROM whose range is decoded
      from the seven bytes 4..10: the end address has only six digits and
      byte 11 is never read. */
  lemma SramEeprom(seg: seq<byte>, other: byte)
    requires |seg| >= 12 && seg[..2] == RA && seg[3] == 0x40
    ensures Sram(seg) == Ok(List([Text("EEPROM"), Text("Unknown"), List(Alloc(seg[4..11]).value)]))
    ensures |Alloc(seg[4..11]).value[1].digits| == 6
    ensures Sram(seg[11 := other]) == Sram(seg)
  {
    TagIs(seg, 'R', 'A', RA);
    assert Slice(seg, 3, 4) == [seg[3]];
    RawOfByteIs(seg[3], 4, 0);
    assert Slice(seg, 4, 11) == seg[4..11];
    assert Slice(seg[4..11], 4, 8) == seg[8..11];
    var s2 := seg[11 := other];
    assert s2[..2] == seg[..2] && s2[3] == seg[3] && s2[4..11] == seg[4..11];
    TagIs(s2, 'R', 'A', RA);
    assert Slice(s2, 3, 4) == [s2[3]];
    assert Slice(s2, 4, 11) == s2[4..11];
  }

  // ----- modem -----------------------------------------------------------------

  /** modem's tag test is Python's substring test, whatever the segment's
      length: modem is "No Support" exactly when the decoded tag is not a
      substring of "MO", and a tag that does not decode raises TypeError. */
  lemma ModemAbsent(seg: seq<byte>)
    ensures IsSingleByte(Slice(seg, 0, 2)) ==>
      (Modem(seg) == Ok(Sentinel("No Support")) <==> !Contains(SingleByteText(Slice(seg, 0, 2)), "MO"))
    ensures !IsSingleByte(Slice(seg, 0, 2)) ==> Modem(seg) == Err(TypeError)
  {
  }

  /** With two bytes or more: modem is "No Support" exactly when the first two
      bytes are not "MO". */
  lemma ModemTagIsMO(seg: seq<byte>)
    requires |seg| >= 2 && IsSingleByte(seg[..2])
    ensures Modem(seg) == Ok(Sentinel("No Support")) <==> seg[..2] != MO
  {
    TagIs(seg, 'M', 'O', MO);
  }

  /** A shorter tag is a substring of "MO"; the empty code that follows is
      not in the table. */
  lemma ModemShortTags()
    ensures Modem([]) == Err(KeyError)
    ensures Modem([0x4d]) == Err(KeyError)
  {
    assert SingleByteText([0x4d]) == "M";
    var none: seq<byte> := [];
    var m: seq<byte> := [0x4d];
    assert Slice(m, 10, 12) == [] && Slice(none, 10, 12) == [];
  }

  /** A modem field padded with 0xFF decodes to U+F8F3 characters, not "MO". */
  lemma ModemPaddedTag(seg: seq<byte>)
    requires |seg| >= 2 && seg[..2] == [0xff, 0xff]
    ensures Modem(seg) == Ok(Sentinel("No Support"))
  {
    assert IsSingleByte(seg[..2]);
    ModemTagIsMO(seg);
  }

  /** A "MO" record: publisher, game number and version text from bytes
      2..5, 6..7 and 9, then Japan and Export support from the code in bytes
      10..11; a code outside the table raises KeyError. */
  lemma ModemRecord(seg: seq<byte>)
    requires |seg| >= 12 && seg[..2] == MO
    ensures var code := DecodeText(seg[10..12]);
      if code.Chars? && code.text in MODEM_CODES then
        var levels := MODEM_CODES[code.text];
        Modem(seg) == Ok(List([StringOf(seg[2..6]), StringOf(seg[6..8]), StringOf(seg[9..10]),
                               Text(SUPPORT[levels.0]), Text(SUPPORT[levels.1])]))
      else Modem(seg) == Err(KeyError)
  {
    TagIs(seg, 'M', 'O', MO);
    assert SingleByteText(seg[..2]) == "MO";
    assert Contains("MO", "MO");
    assert Slice(seg, 2, 6) == seg[2..6];
    assert Slice(seg, 6, 8) == seg[6..8];
    assert Slice(seg, 9, 10) == seg[9..10];
    assert Slice(seg, 10, 12) == seg[10..12];
    var code := DecodeText(seg[10..12]);
    if code.Chars? && code.text in MODEM_CODES {
      var levels := MODEM_CODES[code.text];
      var details := [StringOf(seg[2..6]), StringOf(seg[6..8]), StringOf(seg[9..10])];
      var support := [Text(SUPPORT[levels.0]), Text(SUPPORT[levels.1])];
      assert Modem(seg) == Ok(List(details + support));
      assert details + support == [details[0], details[1], details[2], support[0], support[1]];
    }
  }

  /** Byte 8 of the modem record is never read. */
  lemma ModemIgnoresByte8(seg: seq<byte>, other: byte)
    requires |seg| >= 12
    ensures Modem(seg[8 := other]) == Modem(seg)
  {
    var s2 := seg[8 := other];
    assert Slice(s2, 0, 2) == Slice(seg, 0, 2);
    assert Slice(s2, 2, 6) == Slice(seg, 2, 6);
    assert Slice(s2, 6, 8) == Slice(seg, 6, 8);
    assert Slice(s2, 9, 10) == Slice(seg, 9, 10);
    assert Slice(s2, 10, 12) == Slice(seg, 10, 12);
  }

  /** Every combination of support levels except "none in either market" has
      exactly one code in the modem table. */
  lemma ModemCodesCover(jp: Level, ex: Level)
    ensures (jp, ex) == (0, 0) <==> forall code :: code in MODEM_CODES ==> MODEM_CODES[code] != (jp, ex)
    ensures forall c1, c2 :: c1 in MODEM_CODES && c2 in MODEM_CODES && MODEM_CODES[c1] == (jp, ex) == MODEM_CODES[c2] ==> c1 == c2
  {
    if (jp, ex) != (0, 0) {
      var code :=
        if (jp, ex) == (1, 0) then "00" else if (jp, ex) == (2, 0) then "10"
        else if (jp, ex) == (0, 1) then "20" else if (jp, ex) == (0, 2) then "30"
        else if (jp, ex) == (1, 1) then "40" else if (jp, ex) == (2, 2) then "50"
        else if (jp, ex) == (1, 2) then "60" else "70";
      assert MODEM_CODES[code] == (jp, ex);
    }
  }

  // ----- decode ----------------------------------------------------------------

  /** A string no window of `s` equals is not a substring of `s`. */
  lemma NoWindow<T>(sub: seq<T>, s: seq<T>)
    requires forall i :: !OccursAt(sub, s, i)
    ensures !Contains(sub, s)
  {
    ContainsIffOccurs(sub, s);
  }

  /** Among the table's names only "ascii" itself is a substring of "ascii",
      so the str check of decode concerns the text fields alone. */
  lemma AsciiCheckIsEquality(key: string)
    requires key in FUNCTIONS
    ensures Contains(key, "ascii") <==> key == "ascii"
  {
    if key != "ascii" {
      assert "ascii"[0..4] == "asci" && "ascii"[1..5] == "scii";
      NoWindow(key, "ascii");
    }
  }

  /** The table's names are left alone by the renaming step. */
  lemma CanonicalKeepsKeys(key: string)
    requires key in FUNCTIONS
    ensures Canonical(key) == key
  {
    assert key !in TEXT_FIELDS by {
      forall i | 0 <= i < |TEXT_FIELDS| ensures TEXT_FIELDS[i] !in FUNCTIONS {
      }
    }
    assert key !in RANGE_FIELDS by {
      forall i | 0 <= i < |RANGE_FIELDS| ensures RANGE_FIELDS[i] !in FUNCTIONS {
      }
    }
  }

  /** Every name other than the text and range names is decoded by exactly
      its own table entry, with no str check. */
  lemma DecodeDispatch(option: string, seg: seq<byte>)
    requires option in FUNCTIONS && option != "ascii"
    ensures Decode(option, seg) == Apply(FUNCTIONS[option], seg)
  {
    CanonicalKeepsKeys(option);
    AsciiCheckIsEquality(option);
  }

  /** romrange and ramrange both decode as alloc. */
  lemma DecodeRanges(option: string, seg: seq<byte>)
    requires option in RANGE_FIELDS
    ensures Decode(option, seg) == (var range :- Alloc(seg); Ok(List(range)))
  {
    assert option !in TEXT_FIELDS;
    assert Canonical(option) == "range";
    AsciiCheckIsEquality("range");
    assert FUNCTIONS["range"] == AsAlloc;
  }

  /** A title in half-width katakana is text: 0xB1 is "ｱ", U+FF71. */
  lemma DecodeKatakanaTitle()
    ensures Decode("domestic", [0xb1]) == Ok(Text([0xff71 as char]))
  {
    var seg: seq<byte> := [0xb1];
    assert SingleByteText(seg) == [0xff71 as char];
    AsciiDispatch("domestic");
  }

  /** A text field whose bytes do not decode fails the str check. */
  lemma DecodeUndecodableText(option: string, seg: seq<byte>)
    requires option in TEXT_FIELDS && !IsSingleByte(seg)
    ensures Decode(option, seg) == Err(ValidationError)
  {
    AsciiDispatch(option);
    assert StringOf(seg) == Bytes(seg);
  }

  // ----- scan ------------------------------------------------------------------

  /** A window holding the signature lies inside the image. */
  lemma SignedNeedsLength(data: seq<byte>, lo: nat, hi: nat)
    requires Signed(data, lo, hi)
    ensures lo + 4 <= hi && lo + 4 <= |data|
  {
  }

  /** For every run mode the probes run in the fixed order 16-bit, "7f",
      "81": each layout is reported exactly when the mode allows it, its
      window is signed and no earlier probe matched. */
  lemma ScanProbeOrder(data: seq<byte>, option: string)
    ensures var md := Contains(option, "md") && Signed(data, 0x100, 0x110);
      var sms := Contains(option, "sms");
      && (Scan(data, option) == Ok(ScanMatch("md", None)) <==> md)
      && (Scan(data, option) == Ok(ScanMatch("sms", Some("7f"))) <==>
            !md && sms && Signed(data, 0x7ff0, 0x7ff8))
      && (Scan(data, option) == Ok(ScanMatch("sms", Some("81"))) <==>
            !md && sms && !Signed(data, 0x7ff0, 0x7ff8) && Signed(data, 0x81f0, 0x81f8))
      && (Scan(data, option).Err? <==>
            !md && !(sms && (Signed(data, 0x7ff0, 0x7ff8) || Signed(data, 0x81f0, 0x81f8))))
  {
  }

  /** The loader's default run mode "md" probes the 16-bit window only. */
  lemma ScanDefaultMode(data: seq<byte>)
    ensures Scan(data, "md") == if Signed(data, 0x100, 0x110) then Ok(ScanMatch("md", None)) else Err(ValidationError)
  {
    assert "sms"[0..2] == "sm" && "sms"[1..3] == "ms";
    assert forall i :: !OccursAt("md", "sms", i);
    NoWindow("md", "sms");
  }

  /** The run mode "m" is a substring of both "md" and "sms", so it probes
      every window, as the empty mode does. */
  lemma ScanSingleLetterMode(data: seq<byte>)
    ensures Scan(data, "m") == Scan(data, "")
  {
    assert "sms"[1..] == "ms" && "m" <= "ms";
  }

  /** An option that is not a substring of "md" never yields the 16-bit
      layout, and one that is not a substring of "sms" never the 8-bit one. */
  lemma ScanOptionRestricts(data: seq<byte>, option: string)
    ensures !Contains(option, "md") ==> Scan(data, option) != Ok(ScanMatch("md", None))
    ensures !Contains(option, "sms") ==> Scan(data, option).Ok? ==> Scan(data, option).value.mode == "md"
  {
  }

  /** The run modes that name neither layout make scan fail on every image. */
  lemma ScanOtherModes(data: seq<byte>, option: string)
    requires option in ["cd", "m10", "os", "ssf"]
    ensures Scan(data, option) == Err(ValidationError)
  {
    assert "md"[0..2] == "md";
    assert "sms"[0..2] == "sm" && "sms"[1..3] == "ms" && "sms"[0..3] == "sms";
    forall i ensures !OccursAt(option, "md", i) && !OccursAt(option, "sms", i) {
      if |option| == 2 && 0 <= i <= 1 {
        assert option[0] == 'c' || option[0] == 'o';
      }
    }
    NoWindow(option, "md");
    NoWindow(option, "sms");
  }

  /** An image that starts its 16-bit header with "SEGA" scans as 16-bit. */
  lemma ScanSegaAt100(data: seq<byte>)
    requires |data| >= 0x110 && data[0x100..0x104] == SIGNATURE
    ensures Scan(data, "") == Ok(ScanMatch("md", None))
  {
    assert Slice(data, 0x100, 0x110)[..4] == SIGNATURE;
  }
}
