/**
 * The `unicode_hex` field of a sign record: every character of the glyph written
 * as `U+` and upper-case hexadecimal digits, zero-padded to four (Python's
 * `f"U+{ord(ch):04X}"`), the notation of Appendix A of the Unicode Standard,
 * joined by single spaces.
 */
module CodePoints {
  import opened Text

  const HexAlphabet: string := "0123456789ABCDEF"

  predicate IsHexDigit(c: char)
  {
    '0' <= c <= '9' || 'A' <= c <= 'F'
  }

  function HexChar(d: nat): (c: char)
    requires d < 16
    ensures IsHexDigit(c)
  {
    HexAlphabet[d]
  }

  /** Value of one upper-case hexadecimal digit. */
  function HexDigitValue(c: char): (d: nat)
    requires IsHexDigit(c)
    ensures d < 16 && HexChar(d) == c
  {
    if '0' <= c <= '9' then (c as int) - ('0' as int) else (c as int) - ('A' as int) + 10
  }

  /** Value of a string of upper-case hexadecimal digits (the reading direction of `04X`). */
  function HexValue(s: string): nat
    requires forall k :: 0 <= k < |s| ==> IsHexDigit(s[k])
  {
    if s == [] then 0 else HexValue(s[..|s| - 1]) * 16 + HexDigitValue(s[|s| - 1])
  }

  /** Shortest upper-case hexadecimal spelling of `n` (`format(n, "X")`): no leading zero, except for `0` itself. */
  function HexDigits(n: nat): (s: string)
    ensures s != []
    ensures forall k :: 0 <= k < |s| ==> IsHexDigit(s[k])
    ensures |s| == 1 <==> n < 16
    ensures s[0] == '0' <==> n == 0
    ensures |s| > 1 ==> s[0] != '0'
  {
    (if n < 16 then [] else HexDigits(n / 16)) + [HexChar(n % 16)]
  }

  function Zeros(n: nat): (s: string)
    ensures |s| == n && forall k :: 0 <= k < n ==> s[k] == '0'
  {
    if n == 0 then [] else Zeros(n - 1) + "0"
  }

  /**
   * `format(n, "04X")`: left-padded with zeros to four digits; a longer spelling
   * is kept as it is, so it has no leading zero.
   */
  function Hex4(n: nat): (s: string)
    ensures forall k :: 0 <= k < |s| ==> IsHexDigit(s[k])
    ensures |s| >= 4 && (|s| == 4 || s[0] != '0')
  {
    var h := HexDigits(n);
    if |h| < 4 then Zeros(4 - |h|) + h else h
  }

  /**
   * One code point, `U+` followed by exactly four upper-case hexadecimal digits,
   * or by more without a leading zero when four are too few.
   */
  function FormatCodePoint(c: char): (t: string)
    ensures |t| >= 6 && t[..2] == "U+"
    ensures |t| == 6 || t[2] != '0'
    ensures forall k :: 2 <= k < |t| ==> IsHexDigit(t[k])
  {
    "U+" + Hex4(c as int)
  }

  /** The per-character tokens of a glyph, in order. */
  function FormatAll(glyph: string): (ts: seq<string>)
    ensures |ts| == |glyph|
    ensures forall k :: 0 <= k < |ts| ==> ts[k] == FormatCodePoint(glyph[k])
  {
    seq(|glyph|, k requires 0 <= k < |glyph| => FormatCodePoint(glyph[k]))
  }

  /** `" ".join(f"U+{ord(ch):04X}" for ch in glyph)`. */
  function HexPoints(glyph: string): string
  {
    Join(FormatAll(glyph), " ")
  }

  /** Reads a `U+` token back to its code point value (the inverse reading of the notation). */
  function ParseCodePoint(t: string): nat
    requires |t| >= 2 && t[..2] == "U+"
    requires forall k :: 2 <= k < |t| ==> IsHexDigit(t[k])
  {
    HexValue(t[2..])
  }

  lemma {:induction false} HexDigitsValue(n: nat)
    ensures HexValue(HexDigits(n)) == n
  {
    var s := HexDigits(n);
    assert s[..|s| - 1] == if n < 16 then [] else HexDigits(n / 16);
    assert HexDigitValue(s[|s| - 1]) == n % 16;
    if n >= 16 {
      HexDigitsValue(n / 16);
    }
  }

  lemma {:induction false} LeadingZerosValue(z: nat, s: string)
    requires forall k :: 0 <= k < |s| ==> IsHexDigit(s[k])
    ensures HexValue(Zeros(z) + s) == HexValue(s)
    decreases |s|
  {
    var t := Zeros(z) + s;
    if s == [] {
      assert t == Zeros(z);
      ZerosValue(z);
    } else {
      assert t[..|t| - 1] == Zeros(z) + s[..|s| - 1];
      LeadingZerosValue(z, s[..|s| - 1]);
    }
  }

  lemma {:induction false} ZerosValue(z: nat)
    ensures HexValue(Zeros(z)) == 0
  {
    if z > 0 {
      assert Zeros(z)[..z - 1] == Zeros(z - 1);
      ZerosValue(z - 1);
    }
  }

  /** Reading a formatted token gives back the character's code point. */
  lemma CodePointRoundTrip(c: char)
    ensures ParseCodePoint(FormatCodePoint(c)) == c as int
  {
    var n := c as int;
    var h := HexDigits(n);
    var t := FormatCodePoint(c);
    assert t[2..] == Hex4(n);
    HexDigitsValue(n);
    if |h| < 4 {
      LeadingZerosValue(4 - |h|, h);
    }
  }

  lemma TokenHasNoSpace(c: char)
    ensures ' ' !in FormatCodePoint(c)
  {
    var t := FormatCodePoint(c);
    forall j | 0 <= j < |t| ensures t[j] != ' ' {
      if j < 2 {
        assert t[j] == t[..2][j];
      } else {
        assert IsHexDigit(t[j]);
      }
    }
  }

  /** The `unicode_hex` field lists one token per character and splits back into exactly those tokens. */
  lemma HexPointsSplit(glyph: string)
    requires glyph != []
    ensures SplitOn(HexPoints(glyph), ' ') == FormatAll(glyph)
  {
    var ts := FormatAll(glyph);
    assert forall k | 0 <= k < |ts| :: ' ' !in ts[k] by {
      forall k | 0 <= k < |ts| ensures ' ' !in ts[k] {
        TokenHasNoSpace(glyph[k]);
      }
    }
    assert HexPoints(glyph) == Join(ts, [' ']);
    SplitJoin(ts, ' ');
  }

  /** Neighbouring tokens are separated by exactly one space. */
  lemma HexPointsSeparators(glyph: string)
    requires glyph != []
    ensures Count(HexPoints(glyph), ' ') == |glyph| - 1
  {
    HexPointsSplit(glyph);
    assert |SplitOn(HexPoints(glyph), ' ')| == |glyph|;
  }

  /** Decoding every token of a non-empty glyph's `unicode_hex` field recovers the glyph's code points, in order. */
  lemma HexPointsDecode(glyph: string)
    requires glyph != []
    ensures var ts := SplitOn(HexPoints(glyph), ' ');
            && |ts| == |glyph|
            && forall k :: 0 <= k < |ts| ==> ts[k] == FormatCodePoint(glyph[k]) && ParseCodePoint(ts[k]) == glyph[k] as int
  {
    HexPointsSplit(glyph);
    forall k | 0 <= k < |glyph| ensures ParseCodePoint(FormatCodePoint(glyph[k])) == glyph[k] as int {
      CodePointRoundTrip(glyph[k]);
    }
  }
}
