/** Hexadecimal rendering and parsing as the decoders use it: `hex(x)[2:].zfill(2)`
    per byte (decoder.raw) and `int(s, 16)` (decoder.integer, decoder.join). */
module Hexadecimal {
  import opened Errors
  import opened PyOps

  predicate IsHexDigit(c: char) {
    '0' <= c <= '9' || 'a' <= c <= 'f' || 'A' <= c <= 'F'
  }

  predicate IsHexString(s: string) {
    forall i :: 0 <= i < |s| ==> IsHexDigit(s[i])
  }

  /** The value `int(c, 16)` gives one digit; both letter cases are accepted. */
  function DigitValue(c: char): (v: nat)
    requires IsHexDigit(c)
    ensures v < 16
  {
    if '0' <= c <= '9' then c as int - '0' as int
    else if 'a' <= c <= 'f' then c as int - 'a' as int + 10
    else c as int - 'A' as int + 10
  }

  /** The digit `hex()` prints for a value below 16: always lowercase. */
  function Digit(n: nat): (c: char)
    requires n < 16
    ensures IsHexDigit(c) && DigitValue(c) == n
    ensures !('A' <= c <= 'F')
  {
    if n < 10 then ('0' as int + n) as char else ('a' as int + n - 10) as char
  }

  /** `hex(b)[2:].zfill(2)`: exactly two digits, high nibble first. */
  function ByteHex(b: byte): (r: string)
    ensures |r| == 2 && IsHexString(r)
    ensures DigitValue(r[0]) == b / 16 && DigitValue(r[1]) == b % 16
  {
    [Digit(b / 16), Digit(b % 16)]
  }

  /** decoder.raw: every byte as two lowercase hex digits, in input order. */
  function Raw(seg: seq<byte>): (r: string)
    ensures |r| == 2 * |seg|
    ensures forall i :: 0 <= i < |seg| ==> r[2 * i] == Digit(seg[i] / 16) && r[2 * i + 1] == Digit(seg[i] % 16)
  {
    if |seg| == 0 then "" else ByteHex(seg[0]) + Raw(seg[1..])
  }

  /** The unsigned big-endian integer a byte sequence spells. */
  function BigEndian(seg: seq<byte>): nat {
    if |seg| == 0 then 0 else BigEndian(seg[..|seg| - 1]) * 256 + seg[|seg| - 1]
  }

  /** The value of a string of hex digits, most significant digit first. */
  function HexValue(s: string): nat
    requires IsHexString(s)
  {
    if |s| == 0 then 0 else HexValue(s[..|s| - 1]) * 16 + DigitValue(s[|s| - 1])
  }

  /** Python's `int(s, 16)` on the strings the decoders build: raw output,
      one decoded character, and a "0x"-prefixed offset. On those a string of
      hex digits gives its value, and an empty or non-hex one raises
      ValueError. The sign, whitespace and underscores int() also accepts
      never occur in them and are not modelled. */
  function ParseHex(s: string): (r: Result<nat>)
    ensures r.Ok? <==> |s| > 0 && IsHexString(s)
    ensures r.Err? ==> r.error == ValueError
  {
    if |s| > 0 && IsHexString(s) then Ok(HexValue(s)) else Err(ValueError)
  }

  /** Reads a string of hex digits back two at a time, the inverse of Raw. */
  function Unraw(s: string): seq<byte>
    requires |s| % 2 == 0 && IsHexString(s)
  {
    if |s| == 0 then [] else [DigitValue(s[0]) * 16 + DigitValue(s[1])] + Unraw(s[2..])
  }

  lemma RawIsHex(seg: seq<byte>)
    ensures IsHexString(Raw(seg))
  {
    forall k | 0 <= k < |Raw(seg)| ensures IsHexDigit(Raw(seg)[k]) {
      if k % 2 == 0 {
        assert Raw(seg)[2 * (k / 2)] == Digit(seg[k / 2] / 16);
      } else {
        assert Raw(seg)[2 * (k / 2) + 1] == Digit(seg[k / 2] % 16);
      }
    }
  }

  /** Rendering distributes over concatenation. */
  lemma {:induction false} RawAppend(a: seq<byte>, b: seq<byte>)
    ensures Raw(a + b) == Raw(a) + Raw(b)
  {
    if |a| == 0 {
      assert a + b == b;
    } else {
      assert (a + b)[1..] == a[1..] + b;
      RawAppend(a[1..], b);
    }
  }

  /** Unraw undoes Raw: the rendering loses nothing. */
  lemma {:induction false} RawRoundTrip(seg: seq<byte>)
    ensures IsHexString(Raw(seg)) && Unraw(Raw(seg)) == seg
  {
    RawIsHex(seg);
    if |seg| > 0 {
      RawRoundTrip(seg[1..]);
      assert Raw(seg)[2..] == Raw(seg[1..]);
    }
  }

  /** Two more digits at the end multiply the value by 256. */
  lemma HexValueAppendPair(s: string, x: char, y: char)
    requires IsHexString(s) && IsHexDigit(x) && IsHexDigit(y)
    ensures IsHexString(s + [x, y])
    ensures HexValue(s + [x, y]) == HexValue(s) * 256 + DigitValue(x) * 16 + DigitValue(y)
  {
    var t := s + [x, y];
    assert t[..|t| - 1] == s + [x];
    assert (s + [x])[..|s|] == s;
  }

  /** `int(raw(seg), 16)` is the big-endian value of the bytes. */
  lemma {:induction false} RawValue(seg: seq<byte>)
    ensures IsHexString(Raw(seg)) && HexValue(Raw(seg)) == BigEndian(seg)
  {
    RawIsHex(seg);
    if |seg| > 0 {
      var init := seg[..|seg| - 1];
      var last := seg[|seg| - 1];
      assert seg == init + [last];
      RawAppend(init, [last]);
      assert Raw([last]) == ByteHex(last);
      RawValue(init);
      var h := ByteHex(last);
      assert h == [h[0], h[1]];
      HexValueAppendPair(Raw(init), h[0], h[1]);
    }
  }
}
