/** The pieces of Python semantics the header core leans on: bytes,
    clamping slices and the substring test `a in b`. */
module PyOps {

  /** One element of a tuple of bytes as produced by `unpack("B"*n, ...)`. */
  type byte = x: int | 0 <= x < 256

  function Min(a: nat, b: nat): nat {
    if a <= b then a else b
  }

  /** Python's `s[i:j]` for non-negative bounds: both ends are clamped to the
      length, and an empty result stands for an inverted range. */
  function Slice<T>(s: seq<T>, i: nat, j: nat): (r: seq<T>)
    ensures i <= j <= |s| ==> r == s[i..j]
    ensures |r| == if Min(i, |s|) <= Min(j, |s|) then Min(j, |s|) - Min(i, |s|) else 0
  {
    if Min(i, |s|) <= Min(j, |s|) then s[Min(i, |s|)..Min(j, |s|)] else []
  }

  /** Python's substring test `sub in s` (for str, and for bytes). The empty
      string is in every string, and nothing longer than `s` is in `s`. */
  predicate Contains<T(==)>(sub: seq<T>, s: seq<T>)
    ensures |sub| == 0 ==> Contains(sub, s)
    ensures Contains(sub, s) ==> |sub| <= |s|
    decreases |s|
  {
    sub <= s || (|s| > 0 && Contains(sub, s[1..]))
  }

  /** An occurrence of `sub` at position `i` of `s`. */
  predicate OccursAt<T(==)>(sub: seq<T>, s: seq<T>, i: int) {
    0 <= i && i + |sub| <= |s| && s[i..i + |sub|] == sub
  }

  /** The recursive substring test agrees with "some window of `s` equals `sub`". */
  lemma {:induction false} ContainsIffOccurs<T>(sub: seq<T>, s: seq<T>)
    ensures Contains(sub, s) <==> exists i :: OccursAt(sub, s, i)
    decreases |s|
  {
    if sub <= s {
      assert OccursAt(sub, s, 0);
    } else if |s| == 0 {
      assert |sub| > 0;
    } else {
      ContainsIffOccurs(sub, s[1..]);
      if Contains(sub, s[1..]) {
        var i :| OccursAt(sub, s[1..], i);
        assert s[1..][i..i + |sub|] == s[i + 1..i + 1 + |sub|];
        assert OccursAt(sub, s, i + 1);
      }
      if exists i :: OccursAt(sub, s, i) {
        var i :| OccursAt(sub, s, i);
        assert i != 0;
        assert s[1..][i - 1..i - 1 + |sub|] == s[i..i + |sub|];
        assert OccursAt(sub, s[1..], i - 1);
      }
    }
  }

  /** The substrings of a two-letter string: the tests `not in "RA"` and
      `not in "MO"` accept exactly these four strings. */
  lemma SubstringsOfPair<T>(sub: seq<T>, a: T, b: T)
    ensures Contains(sub, [a, b]) <==> sub == [] || sub == [a] || sub == [b] || sub == [a, b]
  {
    var s := [a, b];
    ContainsIffOccurs(sub, s);
    if Contains(sub, s) {
      var i :| OccursAt(sub, s, i);
      assert sub == s[i..i + |sub|];
    } else {
      assert !OccursAt(sub, s, 0) && !OccursAt(sub, s, 1);
      assert s[0..0] == [] && s[0..1] == [a] && s[1..2] == [b] && s[0..2] == s;
    }
  }
}
