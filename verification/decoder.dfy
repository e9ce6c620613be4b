/** The segment decoders of decoder.py: one function per decode algorithm,
    the name-to-algorithm dispatch `decode`, and the layout scanner `scan`.
    Every decoder takes the byte segment of one header field and returns the
    decoded value, or the exception the Python code raises on it. */
module Decoder {
  import opened Errors
  import opened PyOps
  import opened Hexadecimal
  import opened Codec

  /** The shapes a decoded field can take. Text, Hex and Sentinel are all
      Python str values; they are kept apart only to say where they came from. */
  datatype Value =
    | Text(text: string)          // a str from text decoding or a fixed label
    | Hex(digits: string)         // a str of hex digits
    | Int(number: int)
    | Bool(flag: bool)
    | List(items: seq<Value>)
    | Sentinel(note: string)      // "No SRAM", "No Support"
    | Bytes(raw: seq<byte>)       // text decoding failed: the bytes come back as they were

  /** Python's `isinstance(v, str)`. */
  predicate IsStr(v: Value) {
    v.Text? || v.Hex? || v.Sentinel?
  }

  /** decoder.string as a value. */
  function StringOf(seg: seq<byte>): (v: Value)
    ensures v.Text? <==> IsSingleByte(seg)
  {
    match DecodeText(seg)
    case Chars(t) => Text(t)
    case Undecoded(b) => Bytes(b)
  }

  function Texts(labels: seq<string>): (vs: seq<Value>)
    ensures |vs| == |labels|
    ensures forall i :: 0 <= i < |labels| ==> vs[i] == Text(labels[i])
  {
    seq(|labels|, i requires 0 <= i < |labels| => Text(labels[i]))
  }

  // ----- hex rendering -------------------------------------------------------

  /** decoder.nibble_lsb: character 1 of raw(seg), the low nibble of the first byte. */
  function NibbleLsb(seg: seq<byte>): (r: Result<char>)
    ensures r.Ok? <==> |seg| > 0
    ensures r.Ok? ==> r.value == Digit(seg[0] % 16)
    ensures r.Err? ==> r.error == IndexError
  {
    var h := Raw(seg);
    if |h| < 2 then Err(IndexError) else Ok(h[1])
  }

  /** decoder.nibble_msb: character 0 of raw(seg), the high nibble of the first byte. */
  function NibbleMsb(seg: seq<byte>): (r: Result<char>)
    ensures r.Ok? <==> |seg| > 0
    ensures r.Ok? ==> r.value == Digit(seg[0] / 16)
    ensures r.Err? ==> r.error == IndexError
  {
    var h := Raw(seg);
    if |h| < 1 then Err(IndexError) else Ok(h[0])
  }

  /** `s[::-1]`. */
  function Reverse<T>(s: seq<T>): (r: seq<T>)
    ensures |r| == |s|
    ensures forall i :: 0 <= i < |s| ==> r[i] == s[|s| - 1 - i]
  {
    if |s| == 0 then [] else [s[|s| - 1]] + Reverse(s[..|s| - 1])
  }

  /** decoder.raw_be: the high nibble of the last byte, then the other bytes
      last-to-first as two digits each, with one leading "0" removed. The
      low nibble of the last byte is not part of the result. */
  function RawBigEndian(seg: seq<byte>): (r: Result<string>)
    ensures r.Ok? <==> |seg| > 0
    ensures r.Ok? ==>
      var full := Raw(Reverse(seg));
      var code := [full[0]] + full[2..];
      r.value == if code[0] == '0' then code[1..] else code
    ensures r.Err? ==> r.error == IndexError
  {
    var top :- NibbleMsb(if |seg| == 0 then [] else seg[|seg| - 1..]);
    var code := [top] + Raw(Reverse(seg[..|seg| - 1]));
    assert Reverse(seg) == [seg[|seg| - 1]] + Reverse(seg[..|seg| - 1]);
    assert Raw(Reverse(seg))[2..] == Raw(Reverse(seg[..|seg| - 1]));
    Ok(if code[0] == '0' then code[1..] else code)
  }

  /** decoder.integer: `int(raw(word), 16)`. */
  function Integer(word: seq<byte>): (r: Result<nat>)
    ensures r.Ok? <==> |word| > 0
    ensures r.Ok? ==> r.value == BigEndian(word)
    ensures r.Err? ==> r.error == ValueError
  {
    RawValue(word);
    ParseHex(Raw(word))
  }

  // ----- address ranges --------------------------------------------------------

  /** `d // 1024 + (d % 1024 > 0)`: kilobytes rounded up. Python floors and
      Dafny divides Euclidean; for the positive divisor 1024 they agree, also
      when d is negative. */
  function Kilobytes(d: int): (k: int)
    ensures (k - 1) * 1024 < d <= k * 1024
  {
    d / 1024 + (if d % 1024 > 0 then 1 else 0)
  }

  /** decoder.alloc: start and end address as hex (bytes 0..3 and 4..7) and
      the size in kilobytes, rounded up. A segment of at most four bytes
      leaves the end address empty and int("", 16) raises ValueError. */
  function Alloc(seg: seq<byte>): (r: Result<seq<Value>>)
    ensures r.Ok? <==> |seg| > 4
    ensures r.Ok? ==>
      && |r.value| == 3
      && r.value[0] == Hex(Raw(Slice(seg, 0, 4)))
      && r.value[1] == Hex(Raw(Slice(seg, 4, 8)))
      && r.value[2] == Int(Kilobytes(BigEndian(Slice(seg, 4, 8)) - BigEndian(Slice(seg, 0, 4))))
    ensures r.Err? ==> r.error == ValueError
  {
    var first := Raw(Slice(seg, 0, 4));
    var last := Raw(Slice(seg, 4, 8));
    var end :- Integer(Slice(seg, 4, 8));
    var start :- Integer(Slice(seg, 0, 4));
    Ok([Hex(first), Hex(last), Int(Kilobytes(end - start))])
  }

  // ----- table lookups ---------------------------------------------------------

  /** decoder.lookup: the labels of the characters found in the table, in
      input order, duplicates kept, characters not in the table skipped. */
  function Lookup(table: map<char, string>, code: string): (matches: seq<string>)
    ensures |matches| <= |code|
    ensures forall j :: 0 <= j < |matches| ==> matches[j] in table.Values
    ensures |matches| == |code| <==> forall i :: 0 <= i < |code| ==> code[i] in table
  {
    if |code| == 0 then []
    else
      var rest := Lookup(table, code[1..]);
      assert forall i :: 1 <= i < |code| ==> code[i] == code[1..][i - 1];
      (if code[0] in table then [table[code[0]]] else []) + rest
  }

  /** decoder.lookup applied to what decoder.string returned. Under Python 3,
      iterating bytes yields ints, which are never keys of a str-keyed table. */
  function LookupDecoded(table: map<char, string>, d: Decoded): (matches: seq<string>)
    ensures d.Undecoded? ==> matches == []
  {
    match d
    case Chars(t) => Lookup(table, t)
    case Undecoded(_) => []
  }

  const DEVICES: map<char, string> := map[
    'O' := "SMS Controller", '4' := "Multitap", '6' := "6-button Controller",
    'A' := "Analog", 'B' := "Trackball", 'C' := "CD-ROM", 'F' := "Floppy",
    'G' := "Lightgun", 'J' := "3-button Controller", 'K' := "Keyboard",
    'L' := "Activator", 'M' := "Mouse", 'P' := "Printer", 'R' := "Serial RS-232",
    'T' := "Tablet"]

  /** decoder.peripheral: the devices named by the characters of the segment.
      It never fails: unknown characters are skipped. */
  function Peripheral(seg: seq<byte>): (v: Value)
    ensures v.List? && |v.items| <= |seg|
    ensures forall j :: 0 <= j < |v.items| ==> v.items[j].Text? && v.items[j].text in DEVICES.Values
    ensures IsSingleByte(seg) ==> v.items == Texts(Lookup(DEVICES, SingleByteText(seg)))
    ensures !IsSingleByte(seg) ==> v.items == []
  {
    List(Texts(LookupDecoded(DEVICES, DecodeText(seg))))
  }

  const ROM_SIZES: map<char, string> := map[
    'a' := "8KB", 'b' := "16KB", 'c' := "32KB", 'd' := "48KB", 'e' := "64KB",
    'f' := "128KB", '0' := "256KB", '1' := "512KB", '2' := "1024KB"]

  const M3_REGIONS: map<char, string> := map[
    '3' := "SMS Japan", '4' := "SMS Export", '5' := "Game Gear Japan",
    '6' := "Game Gear Export", '7' := "Game Gear International"]

  /** decoder.sizes: the ROM size named by the low nibble of the first byte;
      a nibble 3..9 is not in the table and raises KeyError. */
  function Sizes(seg: seq<byte>): (r: Result<Value>)
    ensures r.Ok? <==> |seg| > 0 && (seg[0] % 16 <= 2 || seg[0] % 16 >= 10)
    ensures r.Ok? ==> r.value == Text(ROM_SIZES[Digit(seg[0] % 16)])
    ensures r.Err? ==> r.error == (if |seg| > 0 then KeyError else IndexError)
  {
    var n :- NibbleLsb(seg);
    DigitsInTable(seg[0] % 16);
    if n in ROM_SIZES then Ok(Text(ROM_SIZES[n])) else Err(KeyError)
  }

  /** decoder.m3locale: the system and region named by the high nibble of the
      first byte; only 3..7 are in the table, anything else raises KeyError. */
  function M3Locale(seg: seq<byte>): (r: Result<Value>)
    ensures r.Ok? <==> |seg| > 0 && 3 <= seg[0] / 16 <= 7
    ensures r.Ok? ==> r.value == Text(M3_REGIONS[Digit(seg[0] / 16)])
    ensures r.Err? ==> r.error == (if |seg| > 0 then KeyError else IndexError)
  {
    var n :- NibbleMsb(seg);
    DigitsInTable(seg[0] / 16);
    if n in M3_REGIONS then Ok(Text(M3_REGIONS[n])) else Err(KeyError)
  }

  /** Which nibble values have their digit in the two nibble-keyed tables. */
  lemma DigitsInTable(n: nat)
    requires n < 16
    ensures Digit(n) in ROM_SIZES <==> n <= 2 || n >= 10
    ensures Digit(n) in M3_REGIONS <==> 3 <= n <= 7
  {
    if n < 10 {
      assert Digit(n) as int == '0' as int + n;
    } else {
      assert Digit(n) as int == 'a' as int + n - 10;
    }
  }

  // ----- structured records ----------------------------------------------------

  type Level = n: nat | n < 3

  const SUPPORT: seq<string> := ["No", "Yes", "Yes with mic"]

  /** The modem support code: (Japan, Export) support levels. */
  const MODEM_CODES: map<string, (Level, Level)> := map[
    "00" := (1, 0), "10" := (2, 0), "20" := (0, 1), "30" := (0, 2),
    "40" := (1, 1), "50" := (2, 2), "60" := (1, 2), "70" := (2, 1)]

  /** decoder.modem: "No Support" unless bytes 0..1 decode to a substring of
      "MO"; otherwise publisher (2..5), game number (6..7), version (byte 9;
      byte 8 is skipped) and the Japan and Export support the code in bytes
      10..11 selects. A code outside the table raises KeyError; bytes that do
      not decode raise TypeError in the `not in` test. */
  function Modem(seg: seq<byte>): (r: Result<Value>)
    ensures r.Err? ==> r.error == TypeError || r.error == KeyError
    ensures r.Ok? ==> r.value == Sentinel("No Support") || (r.value.List? && |r.value.items| == 5)
  {
    match DecodeText(Slice(seg, 0, 2))
    case Undecoded(_) => Err(TypeError)
    case Chars(tag) =>
      if !Contains(tag, "MO") then Ok(Sentinel("No Support"))
      else
        var details := [StringOf(Slice(seg, 2, 6)), StringOf(Slice(seg, 6, 8)), StringOf(Slice(seg, 9, 10))];
        match DecodeText(Slice(seg, 10, 12))
        case Undecoded(_) => Err(KeyError)
        case Chars(code) =>
          if code !in MODEM_CODES then Err(KeyError)
          else
            var levels := MODEM_CODES[code];
            Ok(List(details + [Text(SUPPORT[levels.0]), Text(SUPPORT[levels.1])]))
  }

  /** The bus-width entry decoder.sram derives from the two hex digits of
      byte 2 (empty when the pattern is not recognised). */
  function SramWidth(types: string): (w: seq<Value>)
    requires |types| == 2
    ensures |w| <= 1
    ensures w == [Text("16-bit")] <==> types[0] in "ae"
    ensures w == [Text("8-bit even addresses")] <==> types[0] in "bf" && types[1] == '0'
    ensures w == [Text("8-bit odd addresses")] <==> types[0] in "bf" && types[1] == '8'
    ensures w == [] <==> types[0] !in "abef" || (types[0] in "bf" && types[1] !in "08")
  {
    if types[0] in "ae" then [Text("16-bit")]
    else if types[0] in "bf" then
      if types[1] == '0' then [Text("8-bit even addresses")]
      else if types[1] == '8' then [Text("8-bit odd addresses")]
      else []
    else []
  }

  /** decoder.sram: "No SRAM" unless bytes 0..1 decode to a substring of
      "RA"; an EEPROM record when byte 3 is 0x40 (its range read from the
      seven bytes 4..10); otherwise the bus width, the backup flag and the
      address range of bytes 4..11. */
  function Sram(seg: seq<byte>): (r: Result<Value>)
    ensures r.Err? ==> r.error in {TypeError, IndexError, ValueError}
    ensures r.Ok? ==> r.value == Sentinel("No SRAM") || (r.value.List? && 3 <= |r.value.items| <= 5)
  {
    match DecodeText(Slice(seg, 0, 2))
    case Undecoded(_) => Err(TypeError)
    case Chars(tag) =>
      if !Contains(tag, "RA") then Ok(Sentinel("No SRAM"))
      else if Raw(Slice(seg, 3, 4)) == "40" then
        var range :- Alloc(Slice(seg, 4, 11));
        Ok(List([Text("EEPROM"), Text("Unknown"), List(range)]))
      else
        var types := Raw(Slice(seg, 2, 3));
        if |types| == 0 then Err(IndexError)
        else
          var range :- Alloc(Slice(seg, 4, 12));
          Ok(List(SramWidth(types) + [Bool(types[0] in "ef")] + range))
  }

  const REGIONS: map<char, string> := map[
    'J' := "Japan, South Korea, Taiwan", 'U' := "N. America, Brazil",
    'E' := "Europe, Hong Kong, Australia"]

  /** decoder.bintostr: the region letters of a bit mask, bit 0 for J, bit 2
      for U, bit 3 for E, in that order; bit 1 means nothing. */
  function BinToStr(key: nat): (s: string)
    ensures |s| <= 3
    ensures 'J' in s <==> key % 2 == 1
    ensures 'U' in s <==> (key / 4) % 2 == 1
    ensures 'E' in s <==> (key / 8) % 2 == 1
  {
    (if key % 2 == 1 then "J" else "")
    + (if (key / 4) % 2 == 1 then "U" else "")
    + (if (key / 8) % 2 == 1 then "E" else "")
  }

  /** decoder.locale: the regions named by J/U/E letters; when none match, the
      first character read as a hex digit is a bit mask of regions. A first
      character that is not a hex digit raises ValidationError; an empty
      segment raises IndexError and undecodable bytes raise TypeError. */
  function Locale(seg: seq<byte>): (r: Result<Value>)
    ensures r.Err? ==> r.error in {ValidationError, IndexError, TypeError}
    ensures r.Ok? ==> r.value.List?
    ensures r.Ok? ==> forall j :: 0 <= j < |r.value.items| ==> r.value.items[j].Text? && r.value.items[j].text in REGIONS.Values
  {
    var code := DecodeText(seg);
    var markets := LookupDecoded(REGIONS, code);
    if |markets| > 0 then Ok(List(Texts(markets)))
    else
      match code
      case Undecoded(_) => Err(TypeError)
      case Chars(t) =>
        if |t| == 0 then Err(IndexError)
        else
          match ParseHex([t[0]])
          case Err(_) => Err(ValidationError)
          case Ok(key) => Ok(List(Texts(Lookup(REGIONS, BinToStr(key)))))
  }

  // ----- dispatch ----------------------------------------------------------------

  /** The functions of the dispatch table in decoder.decode. */
  datatype Algorithm =
    | AsText | AsRaw | AsPeripheral | AsModem | AsAlloc | AsSram | AsLocale
    | AsRawBigEndian | AsNibbleLsb | AsM3Locale | AsSizes

  const FUNCTIONS: map<string, Algorithm> := map[
    "ascii" := AsText, "checksum" := AsRaw, "device" := AsPeripheral,
    "modem" := AsModem, "range" := AsAlloc, "extra" := AsSram,
    "region" := AsLocale, "prod" := AsRawBigEndian, "version" := AsNibbleLsb,
    "m3region" := AsM3Locale, "size" := AsSizes]

  const TEXT_FIELDS: seq<string> := ["system", "copyright", "domestic", "export", "serial"]
  const RANGE_FIELDS: seq<string> := ["romrange", "ramrange"]

  /** The two renamings decoder.decode applies before the table lookup. */
  function Canonical(option: string): (key: string)
    ensures option in TEXT_FIELDS ==> key == "ascii"
    ensures option in RANGE_FIELDS ==> key == "range"
    ensures option !in TEXT_FIELDS && option !in RANGE_FIELDS ==> key == option
    ensures key in FUNCTIONS <==> option in TEXT_FIELDS || option in RANGE_FIELDS || option in FUNCTIONS
  {
    if option in TEXT_FIELDS then "ascii"
    else if option in RANGE_FIELDS then "range"
    else option
  }

  function Apply(algorithm: Algorithm, seg: seq<byte>): (r: Result<Value>)
    ensures algorithm in {AsText, AsRaw, AsPeripheral} ==> r.Ok?
    ensures algorithm == AsText ==> (r.Ok? && r.value.Text? <==> IsSingleByte(seg))
    ensures r.Err? ==> r.error in {KeyError, IndexError, ValueError, TypeError, ValidationError}
  {
    match algorithm
    case AsText => Ok(StringOf(seg))
    case AsRaw => Ok(Hex(Raw(seg)))
    case AsPeripheral => Ok(Peripheral(seg))
    case AsModem => Modem(seg)
    case AsAlloc => var range :- Alloc(seg); Ok(List(range))
    case AsSram => Sram(seg)
    case AsLocale => Locale(seg)
    case AsRawBigEndian => var code :- RawBigEndian(seg); Ok(Hex(code))
    case AsNibbleLsb => var c :- NibbleLsb(seg); Ok(Hex([c]))
    case AsM3Locale => M3Locale(seg)
    case AsSizes => Sizes(seg)
  }

  /** decoder.decode: run the algorithm the field name selects. A name that
      is not in the table raises KeyError; when the renamed option is a
      substring of "ascii" the result must be a str, else ValidationError. */
  function Decode(option: string, seg: seq<byte>): (r: Result<Value>)
    ensures Canonical(option) !in FUNCTIONS ==> r == Err(KeyError)
    ensures option in TEXT_FIELDS ==> (r.Ok? <==> IsSingleByte(seg))
    ensures option in TEXT_FIELDS && r.Ok? ==> r.value == Text(SingleByteText(seg))
    ensures r.Err? ==> r.error in {ValidationError, KeyError, IndexError, ValueError, TypeError}
  {
    AsciiDispatch(option);
    var key := Canonical(option);
    if key !in FUNCTIONS then Err(KeyError)
    else
      var result :- Apply(FUNCTIONS[key], seg);
      if Contains(key, "ascii") && !IsStr(result) then Err(ValidationError) else Ok(result)
  }

  /** A text field is renamed to "ascii", which selects `string` and passes
      the substring test of decoder.decode. */
  lemma AsciiDispatch(option: string)
    ensures option in TEXT_FIELDS ==>
      Canonical(option) == "ascii" && "ascii" in FUNCTIONS && FUNCTIONS["ascii"] == AsText && Contains("ascii", "ascii")
  {
    assert "ascii" <= "ascii";
  }

  // ----- offsets -----------------------------------------------------------------

  /** decoder.join: `int("0x" + mid + end, 16)`, the offset spelled by a
      hex prefix and a two-digit suffix. */
  function Join(mid: string, end: string): (r: Result<nat>)
    ensures r.Ok? <==> |mid + end| > 0 && IsHexString(mid + end)
    ensures r.Ok? && |end| == 2 ==>
      IsHexString(mid) && IsHexString(end) && r.value == HexValue(mid) * 256 + HexValue(end)
  {
    JoinValue(mid, end);
    ParseHex(mid + end)
  }

  lemma JoinValue(mid: string, end: string)
    ensures |end| == 2 && IsHexString(mid + end) ==>
      IsHexString(mid) && IsHexString(end) && HexValue(mid + end) == HexValue(mid) * 256 + HexValue(end)
  {
    if |end| == 2 && IsHexString(mid + end) {
      var t := mid + end;
      assert t == mid + [end[0], end[1]];
      assert forall i :: 0 <= i < |mid| ==> mid[i] == t[i];
      assert t[|mid|] == end[0] && t[|mid| + 1] == end[1];
      assert end[..|end| - 1] == [end[0]] && [end[0]][..0] == [];
      assert HexValue([end[0]]) == DigitValue(end[0]);
      assert HexValue(end) == DigitValue(end[0]) * 16 + DigitValue(end[1]);
      HexValueAppendPair(mid, end[0], end[1]);
    }
  }

  // ----- scanning ----------------------------------------------------------------

  /** The ASCII bytes of "SEGA". */
  const SIGNATURE: seq<byte> := [0x53, 0x45, 0x47, 0x41]

  /** The image carries the signature in the window [lo, hi), clamped to its length. */
  predicate Signed(data: seq<byte>, lo: nat, hi: nat) {
    Contains(SIGNATURE, Slice(data, lo, hi))
  }

  /** The layout scan found: "md" with no section, or "sms" with the
      two-digit prefix of the signature address. */
  datatype ScanMatch = ScanMatch(mode: string, section: Option<string>)

  predicate ValidMatch(m: ScanMatch) {
    m == ScanMatch("md", None) || m == ScanMatch("sms", Some("7f")) || m == ScanMatch("sms", Some("81"))
  }

  /** decoder.scan: probe [0x100, 0x110) for the 16-bit layout, then
      [0x7ff0, 0x7ff8) and [0x81f0, 0x81f8) for the 8-bit one. The option
      enables a probe when it is a substring of "md" (resp. "sms"), or empty. */
  function Scan(data: seq<byte>, option: string): (r: Result<ScanMatch>)
    ensures r.Err? ==> r.error == ValidationError
    ensures r.Ok? ==> ValidMatch(r.value)
    ensures r.Ok? && r.value.mode == "md" ==> Signed(data, 0x100, 0x110) && Contains(option, "md")
    ensures r.Ok? && r.value.section == Some("7f") ==> Signed(data, 0x7ff0, 0x7ff8) && Contains(option, "sms")
    ensures r.Ok? && r.value.section == Some("81") ==> Signed(data, 0x81f0, 0x81f8) && Contains(option, "sms")
  {
    if (Contains(option, "md") || option == "") && Signed(data, 0x100, 0x110) then
      Ok(ScanMatch("md", None))
    else if Contains(option, "sms") || option == "" then
      if Signed(data, 0x7ff0, 0x7ff8) then Ok(ScanMatch("sms", Some("7f")))
      else if Signed(data, 0x81f0, 0x81f8) then Ok(ScanMatch("sms", Some("81")))
      else Err(ValidationError)
    else
      Err(ValidationError)
  }
}
