/**
 * The few Python `str` operations the catalog scripts rely on:
 * `isspace`/`strip`, `split(sep)`, `sep.join(parts)` and `replace(old, new)`.
 * A `char` is a Unicode scalar value, as a character of a Python `str` is.
 */
module Text {

  /** Python's `str.isspace()` for one character (the set `strip()` and `split()` use). */
  predicate IsSpace(c: char)
  {
    || c == ' '
    || ('\t' <= c <= '\r')
    || ('\U{1C}' <= c <= '\U{1F}')
    || c == '\U{85}' || c == '\U{A0}' || c == '\U{1680}'
    || ('\U{2000}' <= c <= '\U{200A}')
    || c == '\U{2028}' || c == '\U{2029}' || c == '\U{202F}' || c == '\U{205F}' || c == '\U{3000}'
  }

  /** ASCII decimal digit; the scripts' `isdigit()` and `\d` are approximated by it. */
  predicate IsDigit(c: char)
  {
    '0' <= c <= '9'
  }

  /** ASCII upper-case letter, the class `[A-Z]`. */
  predicate IsUpper(c: char)
  {
    'A' <= c <= 'Z'
  }

  predicate HasSpace(s: string)
  {
    exists k :: 0 <= k < |s| && IsSpace(s[k])
  }

  /** No leading and no trailing whitespace. */
  predicate IsStripped(s: string)
  {
    s == [] || (!IsSpace(s[0]) && !IsSpace(s[|s| - 1]))
  }

  /** Index of the first non-whitespace character at or after `i`, or `|s|`. */
  function SkipSpace(s: string, i: nat): (j: nat)
    requires i <= |s|
    ensures i <= j <= |s|
    ensures forall k :: i <= k < j ==> IsSpace(s[k])
    ensures j < |s| ==> !IsSpace(s[j])
    decreases |s| - i
  {
    if i < |s| && IsSpace(s[i]) then SkipSpace(s, i + 1) else i
  }

  /** Index just after the last non-whitespace character before `j`, or 0. */
  function SkipSpaceBack(s: string, j: nat): (i: nat)
    requires j <= |s|
    ensures i <= j
    ensures forall k :: i <= k < j ==> IsSpace(s[k])
    ensures 0 < i ==> !IsSpace(s[i - 1])
  {
    if 0 < j && IsSpace(s[j - 1]) then SkipSpaceBack(s, j - 1) else j
  }

  /**
   * `s.strip()`: a stripped string that is `s` without a whitespace prefix and a
   * whitespace suffix.
   */
  function Strip(s: string): (r: string)
    ensures IsStripped(r)
    ensures var i := SkipSpace(s, 0);
            && i + |r| <= |s| && r == s[i..i + |r|]
            && (forall k :: 0 <= k < i ==> IsSpace(s[k]))
            && (forall k :: i + |r| <= k < |s| ==> IsSpace(s[k]))
  {
    var i := SkipSpace(s, 0);
    var j := SkipSpaceBack(s, |s|);
    if i < j then s[i..j] else []
  }

  /** Stripping a stripped string leaves it as it is. */
  lemma StripStripped(s: string)
    requires IsStripped(s)
    ensures Strip(s) == s
  {
    if s != [] {
      assert !IsSpace(s[0]);
      assert Strip(s)[0] == s[0];
      assert !IsSpace(s[|s| - 1]);
    }
  }

  predicate NoNewline(s: string)
  {
    '\n' !in s
  }

  /** Number of occurrences of `c` in `s`. */
  function Count(s: string, c: char): nat
  {
    if s == [] then 0 else (if s[0] == c then 1 else 0) + Count(s[1..], c)
  }

  /** Occurrences in a concatenation add up. */
  lemma {:induction false} CountAppend(a: string, b: string, c: char)
    ensures Count(a + b, c) == Count(a, c) + Count(b, c)
  {
    if a != [] {
      CountAppend(a[1..], b, c);
      assert (a + b)[1..] == a[1..] + b;
    } else {
      assert a + b == b;
    }
  }

  /** A character that does not occur is counted zero times. */
  lemma {:induction false} CountAbsent(s: string, c: char)
    requires c !in s
    ensures Count(s, c) == 0
  {
    if s != [] {
      CountAbsent(s[1..], c);
    }
  }

  /** `s.split(sep)` for a one-character separator: the pieces between separators, empty ones included. */
  function SplitOn(s: string, sep: char): (parts: seq<string>)
    ensures |parts| == Count(s, sep) + 1
    ensures forall k :: 0 <= k < |parts| ==> sep !in parts[k]
  {
    if s == [] then [[]]
    else if s[0] == sep then [[]] + SplitOn(s[1..], sep)
    else
      var rest := SplitOn(s[1..], sep);
      [[s[0]] + rest[0]] + rest[1..]
  }

  /** `sep.join(parts)`. */
  function Join(parts: seq<string>, sep: string): string
  {
    if |parts| == 0 then []
    else if |parts| == 1 then parts[0]
    else parts[0] + sep + Join(parts[1..], sep)
  }

  function TotalLength(parts: seq<string>): nat
  {
    if parts == [] then 0 else |parts[0]| + TotalLength(parts[1..])
  }

  /** The joined text holds every part and one separator between neighbours. */
  lemma {:induction false} JoinLength(parts: seq<string>, sep: string)
    requires parts != []
    ensures |Join(parts, sep)| == TotalLength(parts) + (|parts| - 1) * |sep|
  {
    if |parts| > 1 {
      JoinLength(parts[1..], sep);
    }
  }

  /** Concatenating non-empty parts gives at least one character per part. */
  lemma {:induction false} ConcatNonEmptyLength(parts: seq<string>)
    requires forall k :: 0 <= k < |parts| ==> parts[k] != []
    ensures |Join(parts, "")| >= |parts|
  {
    if |parts| > 1 {
      ConcatNonEmptyLength(parts[1..]);
    }
  }

  /** Splitting and re-joining at the same separator restores the text. */
  lemma {:induction false} JoinSplit(s: string, sep: char)
    ensures Join(SplitOn(s, sep), [sep]) == s
  {
    if s != [] {
      JoinSplit(s[1..], sep);
      var rest := SplitOn(s[1..], sep);
      if s[0] == sep {
        assert SplitOn(s, sep)[1..] == rest;
        assert s == [sep] + s[1..];
      } else {
        var parts := SplitOn(s, sep);
        if |rest| == 1 {
          assert s == [s[0]] + rest[0];
        } else {
          assert parts[1..] == rest[1..];
          assert Join(rest, [sep]) == rest[0] + [sep] + Join(rest[1..], [sep]);
          assert s == [s[0]] + s[1..];
        }
      }
    }
  }

  /** A piece free of the separator followed by the separator splits off as one part. */
  lemma {:induction false} SplitOnPiece(a: string, sep: char, rest: string)
    requires sep !in a
    ensures SplitOn(a + [sep] + rest, sep) == [a] + SplitOn(rest, sep)
  {
    if a == [] {
      assert [sep] + rest == a + [sep] + rest;
      assert ([sep] + rest)[1..] == rest;
    } else {
      assert (a + [sep] + rest)[1..] == a[1..] + [sep] + rest;
      SplitOnPiece(a[1..], sep, rest);
      assert a == [a[0]] + a[1..];
    }
  }

  /** Text free of the separator splits into itself alone. */
  lemma {:induction false} SplitOnNone(a: string, sep: char)
    requires sep !in a
    ensures SplitOn(a, sep) == [a]
  {
    if a != [] {
      SplitOnNone(a[1..], sep);
      assert a == [a[0]] + a[1..];
    }
  }

  /** Joining separator-free parts and splitting again gives the parts back. */
  lemma {:induction false} SplitJoin(parts: seq<string>, sep: char)
    requires parts != []
    requires forall k :: 0 <= k < |parts| ==> sep !in parts[k]
    ensures SplitOn(Join(parts, [sep]), sep) == parts
  {
    if |parts| == 1 {
      SplitOnNone(parts[0], sep);
    } else {
      SplitJoin(parts[1..], sep);
      SplitOnPiece(parts[0], sep, Join(parts[1..], [sep]));
      assert parts == [parts[0]] + parts[1..];
    }
  }

  /** `pat` occurs in `s` starting at index `k`. */
  predicate OccursAt(s: string, pat: string, k: int)
  {
    0 <= k && k + |pat| <= |s| && s[k..k + |pat|] == pat
  }

  /**
   * `s.replace(pat, rep)` for a non-empty `pat`: occurrences are found from the
   * left and do not overlap.
   */
  function Replace(s: string, pat: string, rep: string): string
    requires pat != []
    decreases |s|
  {
    if |s| < |pat| then s
    else if s[..|pat|] == pat then rep + Replace(s[|pat|..], pat, rep)
    else [s[0]] + Replace(s[1..], pat, rep)
  }

  /** Replacing one character by one character keeps the length and rewrites exactly that character. */
  lemma {:induction false} ReplaceChar(s: string, a: char, b: char)
    ensures |Replace(s, [a], [b])| == |s|
    ensures forall k :: 0 <= k < |s| ==> Replace(s, [a], [b])[k] == if s[k] == a then b else s[k]
  {
    if s != [] {
      ReplaceChar(s[1..], a, b);
      assert s[..1] == [s[0]];
    }
  }

  /** Text without an occurrence of the pattern is left unchanged. */
  lemma {:induction false} ReplaceAbsent(s: string, pat: string, rep: string)
    requires pat != []
    requires forall k :: !OccursAt(s, pat, k)
    ensures Replace(s, pat, rep) == s
    decreases |s|
  {
    if |s| >= |pat| {
      assert !OccursAt(s, pat, 0);
      forall k ensures !OccursAt(s[1..], pat, k) {
        if OccursAt(s[1..], pat, k) {
          assert s[1..][k..k + |pat|] == s[k + 1..k + 1 + |pat|];
          assert OccursAt(s, pat, k + 1);
        }
      }
      ReplaceAbsent(s[1..], pat, rep);
      assert s == [s[0]] + s[1..];
    }
  }

  /**
   * Removing `.txt` from a name that ends with it, and has it nowhere else, gives the stem:
   * no proper suffix of `.txt` is a prefix of it, so no occurrence straddles the stem's end.
   */
  lemma {:induction false} RemoveTxtExtension(stem: string)
    requires forall k :: !OccursAt(stem, ".txt", k)
    ensures Replace(stem + ".txt", ".txt", "") == stem
    decreases |stem|
  {
    var s := stem + ".txt";
    if stem == [] {
      assert s[..4] == ".txt" && s[4..] == [];
    } else {
      NoTxtAtStart(stem);
      NoTxtInTail(stem);
      RemoveTxtExtension(stem[1..]);
      assert s[1..] == stem[1..] + ".txt";
      assert stem == [stem[0]] + stem[1..];
    }
  }

  lemma NoTxtAtStart(stem: string)
    requires stem != [] && !OccursAt(stem, ".txt", 0)
    ensures (stem + ".txt")[..4] != ".txt"
  {
    var s := stem + ".txt";
    if |stem| >= 4 {
      assert s[..4] == stem[0..4];
    } else {
      assert s[|stem|] == '.';
      assert ".txt"[|stem|] != '.';
    }
  }

  lemma NoTxtInTail(stem: string)
    requires stem != [] && forall k :: !OccursAt(stem, ".txt", k)
    ensures forall k :: !OccursAt(stem[1..], ".txt", k)
  {
    forall k ensures !OccursAt(stem[1..], ".txt", k) {
      assert !OccursAt(stem, ".txt", k + 1);
      if 0 <= k && k + 5 <= |stem| {
        assert stem[1..][k..k + 4] == stem[k + 1..k + 5];
      }
    }
  }
}
