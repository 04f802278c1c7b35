/**
 * `gardiner_sort_key`: a Gardiner code such as `A1`, `Aa27` or `N35` split into its
 * leading capital letters and the number after them, so that `A2` could sort
 * before `A10`. The scripts define the key but never sort by it.
 */
module SortKey {
  import opened Text

  /** Index of the first character at or after `i` that is not in `[A-Z]`, or `|s|`. */
  function UpperEnd(s: string, i: nat): (j: nat)
    requires i <= |s|
    ensures i <= j <= |s|
    ensures forall k :: i <= k < j ==> IsUpper(s[k])
    ensures j < |s| ==> !IsUpper(s[j])
    decreases |s| - i
  {
    if i < |s| && IsUpper(s[i]) then UpperEnd(s, i + 1) else i
  }

  /** Index of the first character at or after `i` that is not a digit, or `|s|`. */
  function DigitEnd(s: string, i: nat): (j: nat)
    requires i <= |s|
    ensures i <= j <= |s|
    ensures forall k :: i <= k < j ==> IsDigit(s[k])
    ensures j < |s| ==> !IsDigit(s[j])
    decreases |s| - i
  {
    if i < |s| && IsDigit(s[i]) then DigitEnd(s, i + 1) else i
  }

  predicate AllDigits(ds: string)
  {
    forall k :: 0 <= k < |ds| ==> IsDigit(ds[k])
  }

  predicate AllUpper(s: string)
  {
    forall k :: 0 <= k < |s| ==> IsUpper(s[k])
  }

  /** `int(ds)` for a string of decimal digits (0 for the empty string). */
  function DecimalValue(ds: string): nat
    requires AllDigits(ds)
  {
    if ds == [] then 0
    else DecimalValue(ds[..|ds| - 1]) * 10 + (ds[|ds| - 1] as int - '0' as int)
  }

  /** `str(n)`: the decimal digits of `n` without leading zeros. */
  function DecimalDigits(n: nat): (ds: string)
    ensures ds != [] && AllDigits(ds)
    ensures |ds| > 1 ==> ds[0] != '0'
  {
    var d := (n % 10 + '0' as int) as char;
    if n < 10 then [d] else DecimalDigits(n / 10) + [d]
  }

  /**
   * `re.match(r"([A-Z]+)(\d+)?", code)`: on a match, the letters and the number
   * after them (0 when there is none); on no match, the code itself and 0.
   * So a code that starts with a capital gets the longest run of capitals it
   * starts with and the value of the longest digit run right after it; any other
   * code is its own key with number 0.
   */
  function GardinerKey(code: string): (key: (string, nat))
    ensures code != [] && IsUpper(code[0]) ==>
              var letters := key.0;
              && 0 < |letters| <= |code| && AllUpper(letters) && code[..|letters|] == letters
              && (|letters| < |code| ==> !IsUpper(code[|letters|]))
              && key.1 == DecimalValue(code[|letters|..DigitEnd(code, |letters|)])
    ensures !(code != [] && IsUpper(code[0])) ==> key == (code, 0)
  {
    var a := UpperEnd(code, 0);
    if a == 0 then (code, 0)
    else
      var b := DigitEnd(code, a);
      (code[..a], if b == a then 0 else DecimalValue(code[a..b]))
  }

  /** A run of capitals ending where the text does, or before a non-capital, is where `UpperEnd` stops. */
  lemma {:induction false} UpperEndAt(s: string, i: nat, j: nat)
    requires i <= j <= |s|
    requires forall k :: i <= k < j ==> IsUpper(s[k])
    requires j < |s| ==> !IsUpper(s[j])
    ensures UpperEnd(s, i) == j
    decreases j - i
  {
    if i < j {
      UpperEndAt(s, i + 1, j);
    }
  }

  lemma {:induction false} DigitEndAt(s: string, i: nat, j: nat)
    requires i <= j <= |s|
    requires forall k :: i <= k < j ==> IsDigit(s[k])
    requires j < |s| ==> !IsDigit(s[j])
    ensures DigitEnd(s, i) == j
    decreases j - i
  {
    if i < j {
      DigitEndAt(s, i + 1, j);
    }
  }

  /** `int(str(n)) == n`. */
  lemma {:induction false} DecimalRoundTrip(n: nat)
    ensures DecimalValue(DecimalDigits(n)) == n
  {
    var ds := DecimalDigits(n);
    if n >= 10 {
      DecimalRoundTrip(n / 10);
      assert ds[..|ds| - 1] == DecimalDigits(n / 10);
    }
  }

  /** A leading zero does not change the value of a digit string. */
  lemma {:induction false} LeadingZero(ds: string)
    requires AllDigits(ds)
    ensures AllDigits("0" + ds) && DecimalValue("0" + ds) == DecimalValue(ds)
  {
    var zs := "0" + ds;
    if ds != [] {
      LeadingZero(ds[..|ds| - 1]);
      assert zs[..|zs| - 1] == "0" + ds[..|ds| - 1];
    } else {
      assert zs[..0] == [];
    }
  }

  /**
   * The key of a code written as capitals, a number and a tail that does not
   * continue the number is the capitals and that number.
   */
  lemma GardinerKeyOf(letters: string, n: nat, tail: string)
    requires letters != [] && AllUpper(letters)
    requires tail == [] || !IsDigit(tail[0])
    ensures GardinerKey(letters + DecimalDigits(n) + tail) == (letters, n)
  {
    GardinerKeyDigits(letters, DecimalDigits(n), tail);
    DecimalRoundTrip(n);
  }

  /** The key of capitals, a non-empty digit string and a tail that does not continue it. */
  lemma GardinerKeyDigits(letters: string, ds: string, tail: string)
    requires letters != [] && AllUpper(letters)
    requires ds != [] && AllDigits(ds)
    requires tail == [] || !IsDigit(tail[0])
    ensures GardinerKey(letters + ds + tail) == (letters, DecimalValue(ds))
  {
    var code := letters + ds + tail;
    var a, b := |letters|, |letters| + |ds|;
    assert code[a] == ds[0];
    UpperEndAt(code, 0, a);
    assert b < |code| ==> code[b] == tail[0];
    DigitEndAt(code, a, b);
    assert code[..a] == letters && code[a..b] == ds;
  }

  /** Leading zeros in the number are ignored: `A01` and `A1` have the same key. */
  lemma GardinerKeyLeadingZero(letters: string, ds: string, tail: string)
    requires letters != [] && AllUpper(letters)
    requires ds != [] && AllDigits(ds)
    requires tail == [] || !IsDigit(tail[0])
    ensures GardinerKey(letters + "0" + ds + tail) == GardinerKey(letters + ds + tail)
  {
    LeadingZero(ds);
    assert letters + "0" + ds + tail == letters + ("0" + ds) + tail;
    GardinerKeyDigits(letters, "0" + ds, tail);
    GardinerKeyDigits(letters, ds, tail);
  }
}
