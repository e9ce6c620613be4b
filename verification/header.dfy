/** The field registries of header.py and the two operations that use them:
    `retrieve`, which decodes every field of a registry from an image, and
    `populate`, which scans an image, picks its registry and retrieves it. */
module Header {
  import opened Errors
  import opened PyOps
  import opened Hexadecimal
  import opened Decoder

  /** The display label of a field: one title, or a list whose first entry
      heads the titles of the entries of a composite value. */
  datatype Label = Title(title: string) | Titles(titles: seq<string>)

  /** The list header.py keeps per field, `[offset, length, label?]`,
      followed by the values retrieve appends to it. */
  datatype Block = Block(offset: nat, length: nat, caption: Option<Label>, decoded: seq<Value>)

  datatype Field = Field(name: string, block: Block)

  /** An ordered dict from field name to block. */
  type Registry = seq<Field>

  predicate UniqueNames(reg: Registry) {
    forall i, j :: 0 <= i < j < |reg| ==> reg[i].name != reg[j].name
  }

  function Labelled(name: string, offset: nat, length: nat, caption: Label): Field {
    Field(name, Block(offset, length, Some(caption), []))
  }

  /** Header.smd: the 16-bit (Mega Drive, 32X) layout. */
  function Smd(): (reg: Registry)
    ensures |reg| == 12 && UniqueNames(reg)
    ensures reg[0].name == "system" && reg[0].block.offset == 0x100
    ensures forall i :: 0 <= i < 10 ==> reg[i].block.offset + reg[i].block.length == reg[i + 1].block.offset
    ensures reg[10].name == "modem" && reg[10].block.offset + reg[10].block.length == 0x1c8
    ensures reg[11].name == "region" && reg[11].block.offset == 0x1f0 && reg[11].block.length == 3
    ensures forall i :: 0 <= i < |reg| ==>
      0x100 <= reg[i].block.offset && reg[i].block.offset + reg[i].block.length <= 0x1f3
    ensures forall i :: 0 <= i < |reg| ==> reg[i].block.caption.Some? && reg[i].block.decoded == []
  {
    SmdNames();
    SmdBlocks();
    SMD
  }

  const SMD: Registry := [
    Labelled("system", 0x100, 0x10, Title("System Type")),
    Labelled("copyright", 0x110, 0x10, Title("Copyright")),
    Labelled("domestic", 0x120, 0x30, Title("Japan Title")),
    Labelled("export", 0x150, 0x30, Title("Export Title")),
    Labelled("serial", 0x180, 0xe, Title("Serial")),
    Labelled("checksum", 0x18e, 0x2, Title("Checksum")),
    Labelled("device", 0x190, 0x10, Title("Devices Supported")),
    Labelled("romrange", 0x1a0, 0x8, Titles(["ROM", "Min Offset", "Max offset", "kB"])),
    Labelled("ramrange", 0x1a8, 0x8, Titles(["RAM", "Min Offset", "Max offset", "kB"])),
    Labelled("extra", 0x1b0, 0xc, Titles(["SRAM", "Type", "Width", "Min", "Max", "kB"])),
    Labelled("modem", 0x1bc, 0xc, Titles(["Modem", "Publisher", "Game Number", "Version",
                                          "Japan Support", "Export Support"])),
    Labelled("region", 0x1f0, 0x3, Title("Regions")) ]

  /** The twelve names of the 16-bit layout are distinct. */
  lemma SmdNames()
    ensures |SMD| == 12 && UniqueNames(SMD)
    ensures SMD[0].name == "system" && SMD[10].name == "modem" && SMD[11].name == "region"
  {
    SmdNamesDistinct();
    assert forall i :: 0 <= i < 12 ==> SMD[i].name == SMD_NAMES[i];
  }

  /** The field names of Header.smd, in order. */
  const SMD_NAMES: seq<string> := [
    "system", "copyright", "domestic", "export", "serial", "checksum",
    "device", "romrange", "ramrange", "extra", "modem", "region"]

  lemma SmdNamesDistinct()
    ensures forall i, j :: 0 <= i < j < |SMD_NAMES| ==> SMD_NAMES[i] != SMD_NAMES[j]
  {
  }

  /** The blocks of the 16-bit layout tile 0x100-0x1c8 and end with the
      region block at 0x1f0. */
  lemma SmdBlocks()
    ensures |SMD| == 12 && SMD[0].block.offset == 0x100
    ensures forall i :: 0 <= i < 10 ==> SMD[i].block.offset + SMD[i].block.length == SMD[i + 1].block.offset
    ensures SMD[10].block.offset + SMD[10].block.length == 0x1c8
    ensures SMD[11].block.offset == 0x1f0 && SMD[11].block.length == 3
    ensures forall i :: 0 <= i < 12 ==>
      0x100 <= SMD[i].block.offset && SMD[i].block.offset + SMD[i].block.length <= 0x1f3
    ensures forall i :: 0 <= i < 12 ==> SMD[i].block.caption.Some? && SMD[i].block.decoded == []
  {
  }

  const SMS_NAMES: seq<string> := ["system", "checksum", "prod", "version", "size", "m3region"]
  const SMS_SUFFIXES: seq<nat> := [0xf0, 0xfa, 0xfc, 0xfe, 0xff, 0xff]
  const SMS_LENGTHS: seq<nat> := [0x8, 0x2, 0x3, 0x1, 0x1, 0x1]

  /** Header.sms: the 8-bit (Master System, Game Gear) layout, its offsets
      joined from the hex prefix of the signature address and a fixed suffix.
      A prefix that is not hexadecimal makes int() raise ValueError. */
  function Sms(qword: string): (r: Result<Registry>)
    ensures r.Ok? <==> IsHexString(qword)
    ensures r.Ok? ==> r.value == SmsFields(qword)
  {
    SmsJoins(qword);
    // Once the first join succeeds the prefix is hexadecimal and the others cannot fail.
    match Join(qword, "f0")
    case Err(e) => Err(e)
    case Ok(_) => Ok(SmsFields(qword))
  }

  /** The six fields of Header.sms, each offset joined from the prefix. */
  function SmsFields(qword: string): (reg: Registry)
    requires IsHexString(qword)
    ensures |reg| == 6 && UniqueNames(reg)
    ensures forall k :: 0 <= k < 6 ==>
      && reg[k].name == SMS_NAMES[k]
      && reg[k].block.offset == HexValue(qword) * 256 + SMS_SUFFIXES[k]
      && reg[k].block.length == SMS_LENGTHS[k]
      && reg[k].block.decoded == []
      && (reg[k].block.caption.None? <==> k == 0)
  {
    SmsJoins(qword);
    [ Field("system", Block(Join(qword, "f0").value, 0x8, None, [])),
      Labelled("checksum", Join(qword, "fa").value, 0x2, Title("Checksum")),
      Labelled("prod", Join(qword, "fc").value, 0x3, Title("Product Number")),
      Labelled("version", Join(qword, "fe").value, 0x1, Title("Version")),
      Labelled("size", Join(qword, "ff").value, 0x1, Title("Size")),
      Labelled("m3region", Join(qword, "ff").value, 0x1, Title("Region")) ]
  }

  /** On a hexadecimal prefix every join of Header.sms succeeds with the
      prefix shifted by one byte plus the suffix. */
  lemma SmsJoins(qword: string)
    ensures IsHexString(qword) ==>
      && Join(qword, "f0") == Ok(HexValue(qword) * 256 + 0xf0)
      && Join(qword, "fa") == Ok(HexValue(qword) * 256 + 0xfa)
      && Join(qword, "fc") == Ok(HexValue(qword) * 256 + 0xfc)
      && Join(qword, "fe") == Ok(HexValue(qword) * 256 + 0xfe)
      && Join(qword, "ff") == Ok(HexValue(qword) * 256 + 0xff)
  {
    JoinHex(qword, "f0");
    JoinHex(qword, "fa");
    JoinHex(qword, "fc");
    JoinHex(qword, "fe");
    JoinHex(qword, "ff");
    SuffixValues();
  }

  /** Joining a hexadecimal prefix and a two-digit hexadecimal suffix succeeds. */
  lemma JoinHex(mid: string, end: string)
    ensures IsHexString(mid) && |end| == 2 && IsHexString(end) ==>
      Join(mid, end) == Ok(HexValue(mid) * 256 + HexValue(end))
  {
    if IsHexString(mid) && |end| == 2 && IsHexString(end) {
      var t := mid + end;
      assert forall i :: 0 <= i < |t| ==> t[i] == if i < |mid| then mid[i] else end[i - |mid|];
      assert IsHexString(t);
    }
  }

  lemma SuffixValues()
    ensures HexValue("f0") == 0xf0 && HexValue("fa") == 0xfa && HexValue("fc") == 0xfc
    ensures HexValue("fe") == 0xfe && HexValue("ff") == 0xff
  {
    assert "f0"[..1] == "f" && "fa"[..1] == "f" && "fc"[..1] == "f" && "fe"[..1] == "f" && "ff"[..1] == "f";
    assert "f"[..0] == "";
  }

  // ----- retrieve ----------------------------------------------------------------

  /** Every field of the registry lies inside the image. */
  predicate Fits(reg: Registry, data: seq<byte>) {
    forall i :: 0 <= i < |reg| ==> reg[i].block.offset + reg[i].block.length <= |data|
  }

  /** `data[offset:offset + length]`, decoded under the field's name. */
  function DecodeField(f: Field, data: seq<byte>): Result<Value>
    requires f.block.offset + f.block.length <= |data|
  {
    Decode(f.name, data[f.block.offset..f.block.offset + f.block.length])
  }

  /** The field with one more decoded value appended to its block. */
  function Append(f: Field, v: Value): Field {
    f.(block := f.block.(decoded := f.block.decoded + [v]))
  }

  /** The loop of Header.retrieve over the outcomes of decoding each field:
      the first exception ends the loop, otherwise every value is appended
      to its block. */
  function Collect(reg: Registry, outs: seq<Result<Value>>): (r: Result<Registry>)
    requires |outs| == |reg|
    ensures r.Ok? <==> forall i :: 0 <= i < |reg| ==> outs[i].Ok?
    ensures r.Ok? ==> |r.value| == |reg|
    ensures r.Ok? ==> forall i :: 0 <= i < |reg| ==> r.value[i] == Append(reg[i], outs[i].value)
    ensures r.Err? ==>
      exists i :: (0 <= i < |reg| && outs[i] == Err(r.error) && forall j :: 0 <= j < i ==> outs[j].Ok?)
  {
    if |reg| == 0 then Ok([])
    else
      match outs[0]
      case Err(e) => Err(e)
      case Ok(v) =>
        match Collect(reg[1..], outs[1..])
        case Err(e) => FirstFailureShifts(outs, e); Err(e)
        case Ok(rest) => Ok([Append(reg[0], v)] + rest)
  }

  /** A first failure in the tail, after a head that succeeds, is a first
      failure of the whole sequence. */
  lemma FirstFailureShifts(outs: seq<Result<Value>>, e: Error)
    requires |outs| > 0 && outs[0].Ok?
    requires exists i :: (0 <= i < |outs| - 1 && outs[1..][i] == Err(e)
                          && forall j :: 0 <= j < i ==> outs[1..][j].Ok?)
    ensures exists i :: (0 <= i < |outs| && outs[i] == Err(e) && forall j :: 0 <= j < i ==> outs[j].Ok?)
  {
    var i :| 0 <= i < |outs| - 1 && outs[1..][i] == Err(e) && forall j :: 0 <= j < i ==> outs[1..][j].Ok?;
    assert outs[i + 1] == Err(e);
    assert forall j :: 1 <= j < i + 1 ==> outs[j] == outs[1..][j - 1];
  }

  /** What decoding each field of the registry gives, in registry order. */
  function Outcomes(reg: Registry, data: seq<byte>): (outs: seq<Result<Value>>)
    requires Fits(reg, data)
    ensures |outs| == |reg|
    ensures forall i :: 0 <= i < |reg| ==> outs[i] == DecodeField(reg[i], data)
  {
    seq(|reg|, i requires 0 <= i < |reg| => DecodeField(reg[i], data))
  }

  /** Header.retrieve: decode every field in registry order and append its
      value to its block. Nothing is caught: the first field whose decoder
      raises ends the whole retrieval with that exception. Decoding has no
      side effects, so the fields after it are irrelevant to the outcome. */
  function Retrieve(reg: Registry, data: seq<byte>): (r: Result<Registry>)
    requires Fits(reg, data)
    ensures r.Ok? <==> forall i :: 0 <= i < |reg| ==> DecodeField(reg[i], data).Ok?
    ensures r.Ok? ==> |r.value| == |reg|
    ensures r.Ok? ==> forall i :: 0 <= i < |reg| ==> r.value[i] == Append(reg[i], DecodeField(reg[i], data).value)
    ensures r.Err? ==>
      exists i :: (0 <= i < |reg| && DecodeField(reg[i], data) == Err(r.error)
                   && forall j :: 0 <= j < i ==> DecodeField(reg[j], data).Ok?)
    ensures r.Err? ==> r.error in {ValidationError, KeyError, IndexError, ValueError, TypeError}
  {
    Collect(reg, Outcomes(reg, data))
  }

  // ----- populate ----------------------------------------------------------------

  /** For the two modes scan reports, the substring tests on the mode are equality tests. */
  lemma ModeTests(m: ScanMatch)
    requires ValidMatch(m)
    ensures Contains(m.mode, "md") <==> m.mode == "md"
    ensures Contains(m.mode, "sms") <==> m.mode == "sms"
  {
    if m.mode == "md" {
      ContainsIffOccurs("md", "sms");
      assert "sms"[0..2] == "sm" && "sms"[1..3] == "ms";
      assert forall i :: !OccursAt("md", "sms", i);
    }
  }

  /** The registry populate builds for a scan result: Header.smd for "md",
      Header.sms(section) for "sms". */
  function Layout(m: ScanMatch): (r: Result<Registry>)
    requires ValidMatch(m)
    ensures r.Ok?
    ensures m.mode == "md" ==> r.value == Smd()
    ensures m.mode == "sms" ==> r == Sms(m.section.value)
    ensures |r.value| == if m.mode == "md" then 12 else 6
    ensures forall i :: 0 <= i < |r.value| ==> r.value[i].block.decoded == []
  {
    if m.mode == "sms" then Sms(m.section.value) else Ok(Smd())
  }

  /** The image covers every field of the layout scan finds in it. */
  predicate CoversLayout(image: seq<byte>) {
    var s := Scan(image, "");
    s.Ok? ==> Fits(Layout(s.value).value, image)
  }

  /** header.populate: scan with no option, choose the registry, retrieve. */
  function Populate(image: seq<byte>): (r: Result<Registry>)
    requires CoversLayout(image)
    ensures Scan(image, "").Err? ==> r == Err(ValidationError)
    ensures Scan(image, "").Ok? ==> r == Retrieve(Layout(Scan(image, "").value).value, image)
    ensures r.Ok? ==> forall i :: 0 <= i < |r.value| ==> |r.value[i].block.decoded| == 1
  {
    match Scan(image, "")
    case Err(e) => Err(e)
    case Ok(m) => Retrieve(Layout(m).value, image)
  }
}
