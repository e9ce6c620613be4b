/** The parts of edsend.py that prepare an image for the Everdrive:
    `Parser.format` pads it to whole transfer blocks and checks the size cap,
    `Parser.ident` reads its header, and `Link.transfer` announces its size
    as a one-byte block count. */
module EdSend {
  import opened Errors
  import opened PyOps
  import opened Decoder
  import opened DecoderFacts
  import opened Header
  import opened HeaderFacts

  /** The transfer unit: 128 sectors of 512 bytes, 64 KiB. */
  const BLOCK: nat := 512 * 128
  /** The largest image the cart accepts, 15 MiB. */
  const MAXROM: nat := 0xf00000

  // ----- format ------------------------------------------------------------------

  /** The padded image, and whether the size check called `abort`. Outside
      script use `abort` only prints, so the padded image is kept either way. */
  datatype Formatted = Formatted(raw: seq<byte>, tooLarge: bool)

  function Zeros(n: nat): (z: seq<byte>)
    ensures |z| == n && forall i :: 0 <= i < n ==> z[i] == 0
  {
    seq(n, _ => 0)
  }

  /** Parser.format: pad with zeros up to the next multiple of BLOCK (nothing
      when already aligned), then compare the padded length with MAXROM. */
  function Format(data: seq<byte>): (f: Formatted)
    ensures |f.raw| % BLOCK == 0
    ensures |data| <= |f.raw| < |data| + BLOCK
    ensures f.raw[..|data|] == data
    ensures forall i :: |data| <= i < |f.raw| ==> f.raw[i] == 0
    ensures |data| % BLOCK == 0 ==> f.raw == data
    ensures f.tooLarge <==> |f.raw| > MAXROM
  {
    var raw := if |data| % BLOCK != 0 then data + Zeros(BLOCK - |data| % BLOCK) else data;
    Formatted(raw, |raw| > MAXROM)
  }

  /** Formatting is idempotent: a formatted image is returned unchanged. */
  lemma FormatIdempotent(data: seq<byte>)
    ensures Format(Format(data).raw).raw == Format(data).raw
  {
  }

  /** The padded length is the least multiple of BLOCK that holds the image. */
  lemma FormatMinimal(data: seq<byte>, m: nat)
    requires m % BLOCK == 0 && |data| <= m
    ensures |Format(data).raw| <= m
  {
  }

  /** Because MAXROM is a whole number of blocks, checking the padded length
      is the same as checking the original one. */
  lemma FormatTooLarge(data: seq<byte>)
    ensures Format(data).tooLarge <==> |data| > MAXROM
  {
    assert MAXROM == 240 * BLOCK;
    if |data| <= MAXROM {
      FormatMinimal(data, MAXROM);
    }
  }

  // ----- transfer ----------------------------------------------------------------

  /** The size byte Link.transfer posts: `pack("B", int(len(raw)/BLOCK))`,
      which raises struct.error when the count does not fit in one byte. */
  function BlockCount(raw: seq<byte>): (r: Result<byte>)
    ensures r.Ok? <==> |raw| < 256 * BLOCK
    ensures r.Ok? ==> r.value * BLOCK <= |raw| < (r.value + 1) * BLOCK
    ensures r.Err? ==> r.error == StructError
  {
    var n := |raw| / BLOCK;
    if n > 255 then Err(StructError) else Ok(n)
  }

  /** An image format accepted fits the size byte exactly: at most 240 blocks,
      and no block is cut off. */
  lemma FormattedBlockCount(data: seq<byte>)
    requires !Format(data).tooLarge
    ensures BlockCount(Format(data).raw).Ok?
    ensures BlockCount(Format(data).raw).value <= 240
    ensures BlockCount(Format(data).raw).value * BLOCK == |Format(data).raw|
  {
  }

  // ----- ident -------------------------------------------------------------------

  /** The two assignments of Parser.ident, starting from `header = None`:
      Header.smd() when both the run mode and the match are substrings of
      "md", then Header.sms(section) when both are substrings of "sms". A
      missing section makes `None + "f0"` raise TypeError. */
  function Choose(option: string, m: ScanMatch): (r: Result<Option<Registry>>)
    ensures r.Ok? && r.value.None? <==>
      !(Contains(option, "md") && Contains(m.mode, "md")) && !(Contains(option, "sms") && Contains(m.mode, "sms"))
    ensures Contains(option, "sms") && Contains(m.mode, "sms") && m.section.Some? ==>
      r == (if Sms(m.section.value).Ok? then Ok(Some(Sms(m.section.value).value)) else Err(ValueError))
    ensures Contains(option, "md") && Contains(m.mode, "md") && !(Contains(option, "sms") && Contains(m.mode, "sms")) ==>
      r == Ok(Some(Smd()))
  {
    var header := if Contains(option, "md") && Contains(m.mode, "md") then Some(Smd()) else None;
    if Contains(option, "sms") && Contains(m.mode, "sms") then
      match m.section
      case None => Err(TypeError)
      case Some(q) =>
        var reg :- Sms(q);
        Ok(Some(reg))
    else
      Ok(header)
  }

  /** Whatever the run mode, ident picks the registry populate would pick
      for the match scan reports. */
  lemma ChooseLayout(data: seq<byte>, option: string, m: ScanMatch)
    requires Scan(data, option) == Ok(m)
    ensures Choose(option, m) == Ok(Some(Layout(m).value))
  {
    ModeTests(m);
    if m.mode == "sms" {
      assert Contains(m.mode, "sms") && Contains(option, "sms");
    } else {
      assert !Contains(m.mode, "sms");
    }
  }

  /** scan only succeeds on an image that holds a signature, which needs at
      least 0x104 bytes. */
  lemma ScanNeedsLength(data: seq<byte>, option: string)
    requires Scan(data, option).Ok?
    ensures |data| >= 0x104
  {
    var m := Scan(data, option).value;
    if m.mode == "md" {
      SignedNeedsLength(data, 0x100, 0x110);
    } else if m.section == Some("7f") {
      SignedNeedsLength(data, 0x7ff0, 0x7ff8);
    } else {
      SignedNeedsLength(data, 0x81f0, 0x81f8);
    }
  }

  /** A signed image, once formatted, is at least one block long, which
      holds every field of either layout. */
  lemma LayoutFits(data: seq<byte>, option: string, m: ScanMatch)
    requires |data| % BLOCK == 0
    requires Scan(data, option) == Ok(m)
    ensures Fits(Layout(m).value, data)
  {
    ScanNeedsLength(data, option);
    assert |data| >= BLOCK;
    LayoutExtent(m);
  }

  /** Parser.ident on a formatted image. `Ok(None)` is the "Unofficial image"
      warning: scan raised ValidationError and `header` stays None. Only
      ValidationError is caught; anything retrieve raises propagates, and an
      unset header would make `None.retrieve` raise AttributeError.
      `Ok(Some(reg))` is the registry with every field decoded. */
  function Ident(raw: seq<byte>, option: string): (r: Result<Option<Registry>>)
    requires |raw| % BLOCK == 0
    ensures Scan(raw, option).Err? ==> r == Ok(None)
    ensures Scan(raw, option).Ok? ==>
      var reg := Layout(Scan(raw, option).value).value;
      && Fits(reg, raw)
      && (r.Ok? <==> Retrieve(reg, raw).Ok?)
      && (r.Ok? ==> r.value == Some(Retrieve(reg, raw).value))
      && (r.Err? ==> r.error == Retrieve(reg, raw).error)
  {
    match Scan(raw, option)
    case Err(e) => if e == ValidationError then Ok(None) else Err(e)
    case Ok(m) =>
      ChooseLayout(raw, option, m);
      LayoutFits(raw, option, m);
      match Choose(option, m)
      case Err(e) => if e == ValidationError then Ok(None) else Err(e)
      case Ok(None) => Err(AttributeError)
      case Ok(Some(reg)) =>
        var full :- Retrieve(reg, raw);
        Ok(Some(full))
  }

  /** ident never reaches `None.retrieve`: scan only reports a layout the run
      mode allows, so one of the two assignments always runs. */
  lemma IdentAlwaysChooses(raw: seq<byte>, option: string)
    requires |raw| % BLOCK == 0
    ensures Ident(raw, option) != Err(AttributeError)
  {
    var s := Scan(raw, option);
    if s.Ok? {
      ChooseLayout(raw, option, s.value);
    }
  }

  /** With no run mode, ident and populate agree on a formatted image:
      the unofficial-image warning is populate's ValidationError from scan,
      and otherwise both yield the same registry or the same exception. */
  lemma IdentMatchesPopulate(raw: seq<byte>)
    requires |raw| % BLOCK == 0
    ensures CoversLayout(raw)
    ensures Scan(raw, "").Err? ==> Ident(raw, "") == Ok(None) && Populate(raw) == Err(ValidationError)
    ensures Scan(raw, "").Ok? && Populate(raw).Ok? ==> Ident(raw, "") == Ok(Some(Populate(raw).value))
    ensures Scan(raw, "").Ok? && Populate(raw).Err? ==> Ident(raw, "") == Err(Populate(raw).error)
  {
    if Scan(raw, "").Ok? {
      LayoutFits(raw, "", Scan(raw, "").value);
    }
  }
}
