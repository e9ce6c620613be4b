# sg_tools header decoding, modelled in Dafny

sg_tools reads the header of a Sega ROM image. Mega Drive, 32X, Master System and Game Gear images are covered. Three parts are modelled here:

- **decoder.py.** The segment decoders: hex rendering, the big-endian product code, the address ranges, table lookups, the SRAM and modem records, the region code, and the 8-bit size and region nibbles. Also `decode`, which dispatches on a field name, `join`, which builds offsets, and `scan`, which finds the SEGA signature and so picks the layout.
- **header.py.** The two field registries, `Header.smd` (16-bit) and `Header.sms(qword)` (8-bit). Also `retrieve`, which decodes every field of a registry from an image, and `populate`, which scans, chooses a registry and retrieves it.
- **edsend.py.** The steps that prepare an image for the Everdrive cart: `Parser.format` pads the image to 64 KiB blocks and checks the 15 MiB cap, `Parser.ident` reads the header under a run mode, and `Link.transfer` computes the one-byte block count it sends.

Images are `seq<byte>`. Python exceptions are values: a decoder that can raise returns a `Result` (`Decode` and `Apply` give `Result<Value>`, `NibbleLsb` a `Result<char>`, `RawBigEndian` a `Result<string>`, `Alloc` a `Result<seq<Value>>`), and `Err(e)` names the exception class (`Errors.Error`). Decoders that never raise, such as `Peripheral`, return their value directly. Python 3 semantics are modelled throughout. In particular:

- `x in s` with a `bytes` x and a `str` s raises TypeError;
- iterating `bytes` yields integers, which never match a table's letter keys.

Python's clamping slice is `PyOps.Slice`, and Python's `x in s` on strings is `PyOps.Contains`.

Text decoding is CP932 in the source. The model decodes its single-byte characters:

- bytes up to 0x80 decode to the character with the same code;
- 0xA0 decodes to U+F8F0, 0xA1-0xDF to the half-width katakana U+FF61-U+FF9F, and 0xFD-0xFF to U+F8F1-U+F8F3;
- a segment holding a lead byte of a two-byte character (0x81-0x9F or 0xE0-0xFC) comes back undecoded, as raw bytes.

The source's `string` has exactly these two outcomes: a `str`, or the raw `bytes` when decoding fails.

Modules:

- `Errors`, `PyOps`, `Hexadecimal`, `Codec`: building blocks.
- `Decoder`: decoder.py.
- `Header`: header.py.
- `EdSend`: edsend.py.
- `DecoderFacts`, `HeaderFacts`: the lemmas about them.

## Model

| member | source | states |
|---|---|---|
| PyOps.ContainsIffOccurs | src/sg_tools/decoder.py:45 | Python's substring test holds exactly when the pattern occurs at some position of the string |
| PyOps.SubstringsOfPair | src/sg_tools/decoder.py:194 | the strings `x in "MO"` accepts are exactly "", "M", "O" and "MO" |
| Hexadecimal.Raw | src/sg_tools/decoder.py:74-83 | raw gives two digits per byte, in input order: character 2i is the high nibble of byte i and character 2i+1 its low nibble |
| Hexadecimal.Digit | src/sg_tools/decoder.py:83 | each nibble prints as one lowercase hex digit whose value is the nibble |
| Hexadecimal.ParseHex | src/sg_tools/decoder.py:61 | on the strings the decoders pass to int(s, 16), a non-empty string of hex digits gives its value, and an empty or non-hex one raises ValueError |
| Hexadecimal.RawRoundTrip | src/sg_tools/decoder.py:74-83 | reading raw's digits back two at a time gives the original bytes |
| Hexadecimal.RawValue | src/sg_tools/decoder.py:132-134 | raw's digits read as a hex number are the big-endian value of the bytes |
| Hexadecimal.RawAppend | src/sg_tools/decoder.py:83 | raw of a concatenation is the concatenation of the raws |
| Codec.CharOf | src/sg_tools/decoder.py:112 | a byte below 0x80 decodes to the character with its own code, and every other single byte to a character outside ASCII |
| Codec.ByteOfCharOf | src/sg_tools/decoder.py:112 | every single-byte character maps back to the byte it came from |
| Codec.SingleByteText | src/sg_tools/decoder.py:112 | decoding single-byte characters keeps the length, and character i is the decoding of byte i |
| Codec.SingleByteTextInjective | src/sg_tools/decoder.py:111-114 | two single-byte segments decode to the same text exactly when they are the same bytes |
| Decoder.StringOf | src/sg_tools/decoder.py:101-117 | string gives text exactly when the segment decodes |
| Decoder.NibbleLsb | src/sg_tools/decoder.py:64-66 | nibble_lsb is the low nibble of the first byte; an empty segment raises IndexError |
| Decoder.NibbleMsb | src/sg_tools/decoder.py:69-71 | nibble_msb is the high nibble of the first byte; an empty segment raises IndexError |
| Decoder.RawBigEndian | src/sg_tools/decoder.py:86-98 | raw_be is the high nibble of the last byte, then the remaining bytes last to first, with one leading "0" dropped; an empty segment raises IndexError |
| Decoder.Integer | src/sg_tools/decoder.py:132-134 | integer is the big-endian value of the word; an empty word raises ValueError |
| Decoder.Kilobytes | src/sg_tools/decoder.py:179 | the size is the distance in kilobytes rounded up: the least k with d <= 1024k |
| Decoder.Alloc | src/sg_tools/decoder.py:173-180 | alloc gives the hex start (bytes 0-3), the hex end (bytes 4-7) and the rounded-up size; it fails with ValueError exactly when there are at most four bytes |
| PyOps.Slice | src/sg_tools/decoder.py:213 | Python's slice is the exact subsequence when its bounds are in range, and is clamped to the length otherwise |
| PyOps.Contains | src/sg_tools/decoder.py:145 | Python's `in` on strings: the empty string is in every string, and nothing longer than s is in s |
| Codec.DecodeText | src/sg_tools/decoder.py:111-114 | in this model a segment decodes to text exactly when it holds no two-byte lead byte (the source also decodes valid two-byte pairs), and otherwise the bytes are passed back unchanged |
| Decoder.LookupDecoded | src/sg_tools/decoder.py:166-168 | looking up what string returned: undecoded bytes iterate as integers and match nothing |
| Decoder.SramWidth | src/sg_tools/decoder.py:215-223 | the width entry is 16-bit for a/e; for b/f it is even addresses with 0 and odd addresses with 8; otherwise there is none |
| Decoder.Lookup | src/sg_tools/decoder.py:163-169 | lookup returns only table values, at most one per input character, and one for every character exactly when every character is a key |
| Decoder.Peripheral | src/sg_tools/decoder.py:183-189 | peripheral never fails; on decodable bytes it is the lookup of their characters in the device table, in order, and on undecodable bytes it is empty |
| Decoder.Sizes | src/sg_tools/decoder.py:245-249 | sizes is the ROM size table's entry for the low nibble of byte 0; it succeeds exactly when that nibble is 0-2 or a-f, and otherwise raises KeyError, or IndexError on an empty segment |
| Decoder.M3Locale | src/sg_tools/decoder.py:252-256 | m3locale is the region table's entry for the high nibble of byte 0; it succeeds exactly when that nibble is 3-7, and otherwise raises KeyError, or IndexError on an empty segment |
| Decoder.Modem | src/sg_tools/decoder.py:192-205 | modem gives "No Support" or exactly five items, and fails only with TypeError or KeyError |
| Decoder.Sram | src/sg_tools/decoder.py:208-225 | sram gives "No SRAM" or a record of three to five items, and fails only with TypeError, IndexError or ValueError |
| Decoder.BinToStr | src/sg_tools/decoder.py:120-129 | bintostr contains J, U and E exactly when bit 0, bit 2 and bit 3 are set |
| Decoder.Locale | src/sg_tools/decoder.py:228-241 | locale names only known regions, and fails only with ValidationError, IndexError or TypeError |
| Decoder.Canonical | src/sg_tools/decoder.py:39-42 | text names become "ascii", range names "range", other names are kept; the result is a table key exactly when the name is a text name, a range name or a key |
| Decoder.Apply | src/sg_tools/decoder.py:35-43 | string, raw and peripheral never raise; string gives text exactly on decodable bytes; no decoder raises anything outside KeyError, IndexError, ValueError, TypeError and ValidationError |
| Decoder.Decode | src/sg_tools/decoder.py:27-48 | decode raises KeyError on an unknown name; a text field succeeds exactly on decodable bytes and yields their text; decode never raises anything outside ValidationError, KeyError, IndexError, ValueError and TypeError |
| Decoder.Join | src/sg_tools/decoder.py:52-61 | join succeeds exactly on hex digits; with a two-digit end it is 256 times the prefix's value plus the end's value |
| Decoder.Scan | src/sg_tools/decoder.py:138-160 | scan fails only with ValidationError and reports only "md", or "sms" with "7f" or "81"; each answer needs the signature in its window and an option that allows that layout |
| DecoderFacts.RawBigEndianLength | src/sg_tools/decoder.py:86-98 | raw_be is one or two digits shorter than raw, so three bytes give four or five digits |
| DecoderFacts.RawBigEndianExample | src/sg_tools/decoder.py:86-98 | [0x34, 0x12, 0x05] renders as "1234" |
| DecoderFacts.RawBigEndianSplit | src/sg_tools/decoder.py:93-97 | on a non-empty segment raw_be is the last byte's high nibble followed by the other bytes in reverse, minus one leading "0" |
| DecoderFacts.RawBigEndianKeepsHighNibbleOnly | src/sg_tools/decoder.py:93-97 | [0x01, 0x23, 0x45] renders as "42301": the last byte contributes only its high nibble |
| DecoderFacts.RawBigEndianIgnoresLastLowNibble | src/sg_tools/decoder.py:93 | two segments that differ only in the low nibble of the last byte give the same raw_be |
| DecoderFacts.AllocSizeExact | src/sg_tools/decoder.py:178-179 | the size is the exact quotient by 1024 precisely when the distance is a multiple of 1024 |
| DecoderFacts.AllocExample | src/sg_tools/decoder.py:173-180 | start 00000000 and end 00040000 span 256 kilobytes |
| DecoderFacts.LookupConcat | src/sg_tools/decoder.py:163-169 | lookup keeps matches in input order, duplicates included: the lookup of a concatenation is the concatenation of the lookups |
| DecoderFacts.LookupOne | src/sg_tools/decoder.py:166-168 | one character gives its value if it is a key and nothing otherwise |
| DecoderFacts.LookupEmptyIff | src/sg_tools/decoder.py:163-169 | lookup is empty exactly when no character is a key |
| DecoderFacts.BinToStrMask | src/sg_tools/decoder.py:120-129 | bintostr keeps bits 0, 2 and 3 of the key and drops bit 1 |
| DecoderFacts.MaskBinToStr | src/sg_tools/decoder.py:120-129 | every ordered choice of J, U, E is the bintostr of its own mask |
| DecoderFacts.LookupBinToStr | src/sg_tools/decoder.py:238-240 | looking up bintostr's letters names the regions of the bits set |
| DecoderFacts.LocaleLettersFirst | src/sg_tools/decoder.py:232-234 | when a J, U or E letter is present, locale is the letter lookup and the mask fallback is not used |
| DecoderFacts.LocaleFallback | src/sg_tools/decoder.py:235-241 | without letters, a hex first character is read as a mask, and any other character raises ValidationError |
| DecoderFacts.PeripheralExample | src/sg_tools/decoder.py:183-189 | "J6" names the 3-button and the 6-button controller, in that order |
| DecoderFacts.PeripheralIgnoresPadding | src/sg_tools/decoder.py:183-189 | "J" followed by the byte 0xFF decodes, and names only the 3-button controller |
| DecoderFacts.PeripheralSkipsUnknown | src/sg_tools/decoder.py:163-169 | "J?" names only the 3-button controller; the unknown character is skipped |
| DecoderFacts.SharedByteExample | src/sg_tools/decoder.py:245-256 | the byte 0x4c is size 32KB and region SMS Export |
| DecoderFacts.NibbleTablesReject | src/sg_tools/decoder.py:245-256 | size nibble 5 and region nibble 2 raise KeyError |
| DecoderFacts.LocaleLetterJ | src/sg_tools/decoder.py:228-241 | "J" names Japan |
| DecoderFacts.LocaleMaskFive | src/sg_tools/decoder.py:228-241 | the mask "5" names Japan and North America, in that order |
| DecoderFacts.LocaleMaskZero | src/sg_tools/decoder.py:228-241 | the mask "0" gives an empty list and no error |
| DecoderFacts.LocaleNotHex | src/sg_tools/decoder.py:236-239 | "Z" raises ValidationError |
| DecoderFacts.LocaleUndecodable | src/sg_tools/decoder.py:232-236 | a region field holding a lead byte matches no letter, and reading its first item as a hex digit raises TypeError |
| DecoderFacts.LocaleEmpty | src/sg_tools/decoder.py:232-236 | an empty region field matches no letter, and reading its first character raises IndexError |
| DecoderFacts.SramAbsent | src/sg_tools/decoder.py:210-211 | for a tag of any length: when bytes 0-1 decode, sram is "No SRAM" exactly when their text is not a substring of "RA"; when they do not, sram raises TypeError |
| DecoderFacts.SramTagIsRA | src/sg_tools/decoder.py:210-211 | for a full decodable tag, sram is "No SRAM" exactly when bytes 0-1 are not "RA" |
| DecoderFacts.SramShortTags | src/sg_tools/decoder.py:210-216 | an empty tag, "R" or "A" passes the substring test, and the record read then raises IndexError |
| DecoderFacts.SramKatakanaTag | src/sg_tools/decoder.py:210-211 | a tag of two half-width katakana decodes, so sram is "No SRAM" |
| DecoderFacts.SramWidthOf | src/sg_tools/decoder.py:215-223 | the width entry comes from byte 2: a/e is 16-bit; b/f with 0 is even addresses, with 8 odd addresses; else none. The flag is true exactly for e/f |
| DecoderFacts.SramRecord | src/sg_tools/decoder.py:214-225 | without the EEPROM marker, sram is the width, the flag and alloc of bytes 4-11: four or five items |
| DecoderFacts.SramEeprom | src/sg_tools/decoder.py:212-213 | with byte 3 = 0x40, sram is EEPROM, Unknown and alloc of bytes 4-10 only; the end address has six digits and byte 11 is never read |
| DecoderFacts.ModemAbsent | src/sg_tools/decoder.py:194-195 | for a tag of any length: when bytes 0-1 decode, modem is "No Support" exactly when their text is not a substring of "MO"; when they do not, modem raises TypeError |
| DecoderFacts.ModemTagIsMO | src/sg_tools/decoder.py:194-195 | for a full decodable tag, modem is "No Support" exactly when bytes 0-1 are not "MO" |
| DecoderFacts.ModemShortTags | src/sg_tools/decoder.py:194-203 | an empty tag or "M" passes the substring test, and the empty support code then raises KeyError |
| DecoderFacts.ModemPaddedTag | src/sg_tools/decoder.py:194-195 | a tag of 0xFF padding decodes, so modem is "No Support" |
| DecoderFacts.ModemRecord | src/sg_tools/decoder.py:196-205 | a "MO" record is publisher, game number and version, then the two support levels from the code table; an unknown code raises KeyError |
| DecoderFacts.ModemIgnoresByte8 | src/sg_tools/decoder.py:199-201 | byte 8 of the modem record is never read |
| DecoderFacts.ModemCodesCover | src/sg_tools/decoder.py:197-198 | every pair of support levels except (No, No) has exactly one code |
| DecoderFacts.AsciiCheckIsEquality | src/sg_tools/decoder.py:45 | among the table's names only "ascii" passes the substring test, so only text fields get the str check |
| DecoderFacts.DecodeDispatch | src/sg_tools/decoder.py:35-43 | every table name is decoded by exactly its own entry |
| DecoderFacts.DecodeRanges | src/sg_tools/decoder.py:41-43 | romrange and ramrange decode as alloc |
| DecoderFacts.DecodeKatakanaTitle | src/sg_tools/decoder.py:45-47 | a title byte 0xB1 decodes to the katakana U+FF71 and passes the str check |
| DecoderFacts.DecodeUndecodableText | src/sg_tools/decoder.py:45-47 | a text field whose bytes do not decode raises ValidationError |
| DecoderFacts.SignedNeedsLength | src/sg_tools/decoder.py:145 | a window holding the signature lies inside the image |
| DecoderFacts.ScanProbeOrder | src/sg_tools/decoder.py:145-160 | for every option, a layout is reported exactly when the option is a substring of its mode, its window is signed and no earlier probe (16-bit, then "7f", then "81") matched; scan fails exactly when none does |
| DecoderFacts.ScanDefaultMode | src/sg_tools/decoder.py:145-160 | the run mode "md" probes only the 16-bit window |
| DecoderFacts.ScanSingleLetterMode | src/sg_tools/decoder.py:145-160 | the run mode "m", a substring of both "md" and "sms", scans like the empty mode |
| DecoderFacts.ScanOptionRestricts | src/sg_tools/decoder.py:144-148 | an option outside "md" never gives the 16-bit layout, and one outside "sms" never the 8-bit one |
| DecoderFacts.ScanOtherModes | src/sg_tools/decoder.py:138-160 | the run modes cd, m10, os and ssf make scan fail on every image |
| DecoderFacts.ScanSegaAt100 | src/sg_tools/decoder.py:144-147 | "SEGA" at 0x100 scans as 16-bit |
| Header.Smd | src/sg_tools/header.py:36-50 | twelve uniquely named fields; system..modem are contiguous from 0x100 to 0x1c8; region is at 0x1f0 with length 3; all lie in [0x100, 0x1f3) and carry a label |
| Header.SmsJoins | src/sg_tools/header.py:56-61 | on a hex prefix, each of the five joins sms makes succeeds with 256 times the prefix plus its suffix |
| Header.SmsFields | src/sg_tools/header.py:56-61 | six uniquely named fields, system to m3region, at prefix*256 plus f0, fa, fc, fe, ff, ff, with lengths 8, 2, 3, 1, 1, 1; only system has no label |
| Header.Sms | src/sg_tools/header.py:54-61 | succeeds exactly on a hex prefix, and then gives the SmsFields registry of that prefix |
| Header.Collect | src/sg_tools/header.py:124-127 | the retrieve loop over the decoding outcomes: it succeeds exactly when every outcome does, then appends each value to its own field in order, and otherwise fails with the first failing outcome |
| Header.Retrieve | src/sg_tools/header.py:116-127 | appends each field's decoded slice, in order; succeeds exactly when every field decodes, and otherwise fails with the error of the first field that does not |
| Header.ModeTests | src/sg_tools/header.py:155-160 | for the modes scan reports, `mode in "md"` and `mode in "sms"` are equality tests |
| Header.Layout | src/sg_tools/header.py:155-160 | "md" chooses smd, with twelve fields, and "sms" chooses sms(section), with six; no field has a decoded value yet |
| Header.Populate | src/sg_tools/header.py:152-162 | populate fails with ValidationError when scan does, and otherwise is retrieve over smd or sms(section); on success every field carries exactly one decoded value |
| HeaderFacts.SmsAt7f | src/sg_tools/header.py:54-61 | prefix "7f" puts the fields at 0x7ff0, 0x7ffa, 0x7ffc, 0x7ffe, 0x7fff, 0x7fff |
| HeaderFacts.SmsAt81 | src/sg_tools/header.py:54-61 | prefix "81" puts the fields at 0x81f0, 0x81fa, 0x81fc, 0x81fe, 0x81ff, 0x81ff |
| HeaderFacts.LayoutExtent | src/sg_tools/header.py:152-162 | every layout scan can choose ends by 0x8200 |
| HeaderFacts.PopulateCovers | src/sg_tools/header.py:152-162 | any image of at least 0x8200 bytes holds every field populate will read |
| HeaderFacts.RegistryNamesDispatch | src/sg_tools/header.py:36-61 | every field name of both registries selects a decoder |
| HeaderFacts.SmsSharedBytes | src/sg_tools/header.py:58-61 | size and m3region read the same byte, and prod's last byte is version's byte |
| HeaderFacts.SizeReadsLowNibble | src/sg_tools/decoder.py:245-249 | size depends only on the low nibble of its byte |
| HeaderFacts.M3RegionReadsHighNibble | src/sg_tools/decoder.py:252-256 | m3region depends only on the high nibble of its byte |
| HeaderFacts.VersionReadsLowNibble | src/sg_tools/decoder.py:64-66 | version depends only on the low nibble of its byte |
| HeaderFacts.ProdIgnoresVersionNibble | src/sg_tools/header.py:58-59 | two prod segments that differ only in the low nibble of the last byte, the nibble version reads, decode the same |
| HeaderFacts.RetrieveKeepsBlocks | src/sg_tools/header.py:124-127 | retrieve keeps each field's name, offset, length and label, and adds exactly one value after the existing ones |
| EdSend.Format | src/sg_tools/edsend.py:159-170 | the padded length is a block multiple; the image is an unchanged prefix; padding is zeros and shorter than a block, and absent when already aligned; the cap is checked on the padded length |
| EdSend.FormatIdempotent | src/sg_tools/edsend.py:165-167 | formatting a formatted image changes nothing |
| EdSend.FormatMinimal | src/sg_tools/edsend.py:165-167 | the padded length is the least block multiple that holds the image |
| EdSend.FormatTooLarge | src/sg_tools/edsend.py:40-41 | since MAXROM is 240 blocks, the padded length exceeds it exactly when the image does |
| EdSend.BlockCount | src/sg_tools/edsend.py:292 | the size byte is the number of whole blocks, and packing fails with struct.error from 256 blocks on |
| EdSend.FormattedBlockCount | src/sg_tools/edsend.py:40-41 | an image within the cap packs into a count of at most 240 that covers it exactly |
| EdSend.Choose | src/sg_tools/edsend.py:179-183 | smd is chosen exactly when option and match are both substrings of "md", sms(section) when both are substrings of "sms", and otherwise no header |
| EdSend.ChooseLayout | src/sg_tools/edsend.py:179-183 | for any scan result, ident chooses the same registry populate would |
| EdSend.LayoutFits | src/sg_tools/edsend.py:147 | every field of the chosen layout lies inside a formatted signed image |
| EdSend.Ident | src/sg_tools/edsend.py:172-188 | when scan fails, ident warns and leaves header None; otherwise it is retrieve over the layout for the match, and its exceptions propagate |
| EdSend.IdentAlwaysChooses | src/sg_tools/edsend.py:179-187 | ident never raises AttributeError from a header left None |
| EdSend.IdentMatchesPopulate | src/sg_tools/edsend.py:172-188 | with no run mode, ident and populate agree: same registry, same exception, and populate's ValidationError is ident's warning |

## Left out

- Codec.DecodeText: CP932 decoding covers single-byte characters only. A segment holding a two-byte lead byte (0x81-0x9F or 0xE0-0xFC) comes back undecoded here, while the source decodes it whenever the trail byte completes a valid character. Python's codec tables cannot run in Dafny.
- Decoder.StringOf: states that text is produced exactly for segments without a lead byte, because of the two-byte limit above.
- Decoder.Scan: the signature test is "the bytes SEGA occur contiguously in the window", not "SEGA occurs in `str()` of the decoded window". The two differ only when a Shift JIS lead byte swallows the S.
- Hexadecimal.ParseHex: rejects a sign, surrounding whitespace, underscores and a single leading "0x" prefix, all of which Python's int(s, 16) accepts. None of them occurs in raw output, in a decoded hex character, or in the two-digit sections scan reports.
- Decoder.Join: accepts only bare hex digits after the "0x" prefix, for the same reason.
- The `UnicodeEncodeError` branches of scan, a Python 2 artefact, are left out.
- The `struct.error` branch of string is left out. `pack` raises struct.error for a value outside 0..255, but every segment here is a slice of bytes unpacked with "B", so the branch cannot be reached.
- Python 2 behaviour in general is left out: unicode aliasing, OrderedDict, and `bytes` being `str`. Python 3 is modelled.
- `ValidationError(fatal=True)` raising SystemExit (decoder.py:20-24) is process control.
- EdSend.Format: `abort` only prints unless edsend runs as a script, so the model keeps the padded image and reports `tooLarge`.
- EdSend.BlockCount: `int(len/BLOCK)` is float division in Python. It is exact below 2^53 bytes, so it is modelled as integer division.
- `header.metadata()`, `fields`, `display` and the printed warnings are the rendering layer.
- `Link` and its Everdrive serial handshake are serial I/O. The block count is the exception: it is modelled.
- `Loader` with its FTDI port scanning, `parse_options`, `USAGE` and `abort` are left out; they are CLI and device I/O.
- `Parser.load` and `header.load` are file I/O.
- setup.py is packaging.
- EdSend.Ident: requires a formatted image (a length that is a whole number of blocks). `Parser.__init__` formats before `ident` runs (edsend.py:147), and this is what makes every field slice complete.
- Header.Retrieve: requires every field to lie inside the image. Python's slicing would silently shorten a field that runs past the end.
- Header.Populate: requires the image to cover the layout scan picks. HeaderFacts.PopulateCovers shows that 0x8200 bytes always suffice.
- decoder.py:88 describes raw_be as the hex value "in big-endian order". The code is not a plain byte reversal: it keeps only the high nibble of the last byte, so [0x01, 0x23, 0x45] gives "42301" (DecoderFacts.RawBigEndianKeepsHighNibbleOnly). The model follows the code.
- The EEPROM branch of sram passes seven bytes to alloc, so the end address has three bytes. This is kept as written; see DecoderFacts.SramEeprom.
