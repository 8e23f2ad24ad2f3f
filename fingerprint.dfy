/** The document fingerprint `simpleHash` (ModificationReview.tsx and its identical
    copy in ChatInterface.tsx): a 31-multiplier rolling hash over the UTF-16 code
    units of a string, kept in signed 32 bits by ECMAScript's ToInt32
    (section 7.1.6 of ECMA-262), returned as its decimal string. */
module Fingerprint {
  import opened Strings

  const TwoTo31: int := 0x8000_0000
  const TwoTo32: int := 0x1_0000_0000

  /** ECMAScript ToInt32 on an integral Number. */
  function ToInt32(x: int): (r: int)
    ensures -TwoTo31 <= r < TwoTo31
    ensures (x - r) % TwoTo32 == 0
    ensures -TwoTo31 <= x < TwoTo31 ==> r == x
  {
    var m := x % TwoTo32;
    if m >= TwoTo31 then m - TwoTo32 else m
  }

  /** ToInt32 depends only on its argument modulo 2^32. */
  lemma ToInt32Congruent(a: int, b: int)
    requires (a - b) % TwoTo32 == 0
    ensures ToInt32(a) == ToInt32(b)
  {
    var k := (a - b) / TwoTo32;
    assert a == b + k * TwoTo32;
    assert a % TwoTo32 == b % TwoTo32;
  }

  /** The UTF-16 code units of one code point, as `charCodeAt` sees them. */
  function CodeUnits(c: char): (u: seq<int>)
    ensures 1 <= |u| <= 2
    ensures forall i :: 0 <= i < |u| ==> 0 <= u[i] < 0x1_0000
  {
    var v := c as int;
    if v < 0x1_0000 then [v]
    else [0xD800 + (v - 0x1_0000) / 0x400, 0xDC00 + (v - 0x1_0000) % 0x400]
  }

  /** The UTF-16 code units of a string: what its `length` counts and `charCodeAt` returns. */
  function Utf16(s: string): (u: seq<int>)
    ensures |u| >= |s|
  {
    if s == [] then [] else Utf16(s[..|s| - 1]) + CodeUnits(s[|s| - 1])
  }

  /** The reference definition: h := ToInt32(31 * h + unit), a left fold from 0. */
  function HashOf(units: seq<int>): (h: int)
    ensures -TwoTo31 <= h < TwoTo31
  {
    if units == [] then 0 else ToInt32(31 * HashOf(units[..|units| - 1]) + units[|units| - 1])
  }

  /** The fingerprint as a string: `simpleHash(s)`. */
  function Hash(s: string): string {
    IntToDecimal(HashOf(Utf16(s)))
  }

  /** One step of the source's loop, `hash = ((hash << 5) - hash) + char; hash = hash & hash`,
      is one step of the reference fold. */
  lemma {:induction false} ShiftStepIsFoldStep(h: int, c: int)
    requires -TwoTo31 <= h < TwoTo31
    ensures ToInt32(ToInt32(ToInt32(h) * 32) - h + c) == ToInt32(31 * h + c)
  {
    var shifted := ToInt32(ToInt32(h) * 32);
    assert ToInt32(h) == h;
    var k := (h * 32 - shifted) / TwoTo32;
    assert h * 32 - shifted == k * TwoTo32;
    assert (shifted - h + c) - (31 * h + c) == -(k * TwoTo32);
    assert (-(k * TwoTo32)) % TwoTo32 == 0 by {
      assert -(k * TwoTo32) == (-k) * TwoTo32;
    }
    ToInt32Congruent(shifted - h + c, 31 * h + c);
  }

  /** The source's loop, with `<<` and `&` written out as ECMAScript evaluates them. */
  method SimpleHash(str: string) returns (result: string)
    ensures result == Hash(str)
  {
    var units := Utf16(str);
    var hash := 0;
    var i := 0;
    while i < |units|
      invariant 0 <= i <= |units|
      invariant hash == HashOf(units[..i])
    {
      var ch := units[i];
      ShiftStepIsFoldStep(hash, ch);
      hash := ToInt32(ToInt32(hash) * 32) - hash + ch;
      hash := ToInt32(hash);
      assert units[..i + 1][..i] == units[..i];
      i := i + 1;
    }
    assert units[..i] == units;
    result := IntToDecimal(hash);
  }

  /** The empty document hashes to "0". */
  lemma HashOfEmpty()
    ensures Hash("") == "0"
  {
  }

  /** Fingerprints compare as the 32-bit hash values they print. */
  lemma HashEqualIff(a: string, b: string)
    ensures Hash(a) == Hash(b) <==> HashOf(Utf16(a)) == HashOf(Utf16(b))
  {
    if Hash(a) == Hash(b) {
      IntToDecimalInjective(HashOf(Utf16(a)), HashOf(Utf16(b)));
    }
  }
}
