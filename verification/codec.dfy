/** decoder.string: the CP932 text decoding every text field goes through,
    restricted to its single-byte characters. Bytes below 0x81 decode to the
    character with the same code, 0xA0 to U+F8F0, 0xA1-0xDF to the half-width
    katakana U+FF61-U+FF9F and 0xFD-0xFF to U+F8F1-U+F8F3. The other bytes
    lead two-byte characters; a segment holding one is treated as
    undecodable and handed back as bytes. */
module Codec {
  import opened PyOps

  /** What decoder.string returns: a str, or the bytes it could not decode. */
  datatype Decoded = Chars(text: string) | Undecoded(bytes: seq<byte>)

  /** The first byte of a two-byte CP932 character. */
  predicate IsLeadByte(b: byte) {
    0x81 <= b <= 0x9f || 0xe0 <= b <= 0xfc
  }

  /** The character a byte that is not a lead byte decodes to on its own. */
  function CharOf(b: byte): (c: char)
    requires !IsLeadByte(b)
    ensures b < 0x80 ==> c as int == b
    ensures c as int < 0x80 <==> b < 0x80
  {
    if b <= 0x80 then b as char
    else if b == 0xa0 then 0xf8f0 as char
    else if b <= 0xdf then (0xfec0 + b) as char
    else (0xf8f1 - 0xfd + b) as char
  }

  /** The byte a character came from, or -1 for a character no single byte
      decodes to. */
  function ByteOf(c: char): (b: int)
    ensures -1 <= b < 0x100
  {
    if c as int <= 0x80 then c as int
    else if c as int == 0xf8f0 then 0xa0
    else if 0xff61 <= c as int <= 0xff9f then c as int - 0xfec0
    else if 0xf8f1 <= c as int <= 0xf8f3 then c as int - 0xf8f1 + 0xfd
    else -1
  }

  /** Every single-byte character decodes back to its byte. */
  lemma ByteOfCharOf(b: byte)
    requires !IsLeadByte(b)
    ensures ByteOf(CharOf(b)) == b
  {
  }

  /** The segment holds no lead byte, so each byte is a character of its own. */
  predicate IsSingleByte(seg: seq<byte>) {
    forall i :: 0 <= i < |seg| ==> !IsLeadByte(seg[i])
  }

  /** The str a segment of single-byte characters decodes to. */
  function SingleByteText(seg: seq<byte>): (s: string)
    requires IsSingleByte(seg)
    ensures |s| == |seg| && forall i :: 0 <= i < |seg| ==> s[i] == CharOf(seg[i])
  {
    seq(|seg|, i requires 0 <= i < |seg| => CharOf(seg[i]))
  }

  /** Decoding loses nothing: the bytes come back from the text. */
  lemma SingleByteTextInjective(a: seq<byte>, b: seq<byte>)
    requires IsSingleByte(a) && IsSingleByte(b)
    ensures SingleByteText(a) == SingleByteText(b) <==> a == b
  {
    if SingleByteText(a) == SingleByteText(b) {
      forall i | 0 <= i < |a|
        ensures a[i] == b[i]
      {
        ByteOfCharOf(a[i]);
        ByteOfCharOf(b[i]);
      }
    }
  }

  /** decoder.string: the str when every byte decodes on its own, and the
      bytes themselves otherwise. */
  function DecodeText(seg: seq<byte>): (d: Decoded)
    ensures d.Chars? <==> IsSingleByte(seg)
    ensures d.Chars? ==> d.text == SingleByteText(seg)
    ensures d.Undecoded? ==> d.bytes == seg
  {
    if IsSingleByte(seg) then Chars(SingleByteText(seg)) else Undecoded(seg)
  }
}
