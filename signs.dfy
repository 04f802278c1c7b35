/**
 * One sign record of the catalog and the per-line decisions the parse loop makes:
 * the category-header test, the split of a glyph line into glyph and
 * description, the category a record falls under, and the read step that
 * strips lines and drops the empty ones.
 */
module Signs {
  import opened Wrappers
  import opened Text
  import opened CodePoints

  /** The entry dictionary built for each code/glyph pair; field order as in the CSV rows. */
  datatype SignRecord = SignRecord(
    category: string,
    code: string,
    glyph: string,
    unicodeEscape: string,
    unicodeHex: string,
    description: string)

  predicate HasDigit(line: string)
  {
    exists k :: 0 <= k < |line| && IsDigit(line[k])
  }

  /** `"-" in line and not any(ch.isdigit() for ch in line)`. */
  predicate IsHeader(line: string)
  {
    '-' in line && !HasDigit(line)
  }

  /** A line as the read step leaves it: stripped and not empty. */
  predicate IsCleanLine(line: string)
  {
    line != [] && IsStripped(line)
  }

  predicate AllClean(lines: seq<string>)
  {
    forall k :: 0 <= k < |lines| ==> IsCleanLine(lines[k])
  }

  /** `[t.strip() for t in raw if t.strip()]`: the lines of a text file as the scripts read them. */
  function CleanLines(raw: seq<string>): (lines: seq<string>)
    ensures AllClean(lines) && |lines| <= |raw|
  {
    if raw == [] then [] else CleanLine(raw[0]) + CleanLines(raw[1..])
  }

  /** What one raw line contributes: itself stripped, unless nothing but whitespace is left. */
  function CleanLine(t: string): (kept: seq<string>)
    ensures AllClean(kept) && |kept| <= 1
  {
    if Strip(t) != [] then [Strip(t)] else []
  }

  /** The read step works line by line: the lines of a concatenation are cleaned separately. */
  lemma {:induction false} CleanLinesAppend(a: seq<string>, b: seq<string>)
    ensures CleanLines(a + b) == CleanLines(a) + CleanLines(b)
    decreases |a|
  {
    if a == [] {
      assert a + b == b;
    } else {
      assert (a + b)[0] == a[0] && (a + b)[1..] == a[1..] + b;
      CleanLinesAppend(a[1..], b);
    }
  }

  /** One raw line is kept, stripped, exactly when it holds more than whitespace. */
  lemma CleanLinesSingle(t: string)
    ensures CleanLines([t]) == if Strip(t) != [] then [Strip(t)] else []
  {
    assert [t][1..] == [];
  }

  /** Index of the first whitespace character at or after `i`, or `|s|`. */
  function SkipWord(s: string, i: nat): (j: nat)
    requires i <= |s|
    ensures i <= j <= |s|
    ensures forall k :: i <= k < j ==> !IsSpace(s[k])
    ensures j < |s| ==> IsSpace(s[j])
    decreases |s| - i
  {
    if i < |s| && !IsSpace(s[i]) then SkipWord(s, i + 1) else i
  }

  /**
   * `line.split(maxsplit=1)`: the first whitespace-delimited word and, when
   * something other than whitespace follows it, the rest after the whitespace run.
   */
  function SplitOnce(line: string): seq<string>
  {
    var a := SkipSpace(line, 0);
    if a == |line| then []
    else
      var b := SkipWord(line, a);
      var c := SkipSpace(line, b);
      if c == |line| then [line[a..b]] else [line[a..b], line[c..]]
  }

  /**
   * On a clean line the split yields one or two parts. The first is the line's
   * first word: non-empty, without whitespace, a prefix of the line. The line is
   * that word alone, or the word, then a non-empty whitespace run, then a clean
   * rest that is the second part.
   */
  lemma SplitOnceClean(line: string)
    requires IsCleanLine(line)
    ensures var p, b := SplitOnce(line), SkipWord(line, 0);
            && 1 <= |p| <= 2
            && p[0] == line[..b] && p[0] != [] && !HasSpace(p[0])
            && (|p| == 1 <==> b == |line|)
            && (|p| == 2 ==> var c := |line| - |p[1]|;
                               && b < c && p[1] == line[c..] && IsCleanLine(p[1])
                               && forall k :: b <= k < c ==> IsSpace(line[k]))
  {
    var b := SkipWord(line, 0);
    var c := SkipSpace(line, b);
    assert !IsSpace(line[0]) && !IsSpace(line[|line| - 1]);
    assert 0 < b;
    if c < |line| {
      assert line[c..][|line| - c - 1] == line[|line| - 1];
    }
  }

  /**
   * `glyph_parts = glyph_line.split(maxsplit=1)`; the glyph is the first part,
   * the description the second part or `""`. A blank glyph line, which the read
   * step never lets through, has no first part; it yields two empty strings here.
   */
  function SplitGlyphLine(glyphLine: string): (string, string)
  {
    var parts := SplitOnce(glyphLine);
    if parts == [] then ("", "") else (parts[0], if |parts| > 1 then parts[1] else "")
  }

  /** `current_category or filename.replace(".txt", "")`. */
  function CategoryName(current: Option<string>, filename: string): string
  {
    match current
    case Some(c) => if c != "" then c else Replace(filename, ".txt", "")
    case None => Replace(filename, ".txt", "")
  }

  /**
   * The entry built from a code line and the glyph line after it; `escape`
   * stands for Python's `unicode_escape` codec applied to the glyph.
   */
  function MakeRecord(code: string, glyphLine: string, current: Option<string>, filename: string,
                      escape: string -> string): SignRecord
  {
    var (glyph, description) := SplitGlyphLine(glyphLine);
    SignRecord(CategoryName(current, filename), code, glyph, escape(glyph), HexPoints(glyph), description)
  }

  /**
   * What a record built from a clean glyph line holds: the code line as its code;
   * a non-empty glyph without whitespace that begins the glyph line; a
   * description that is empty exactly when the glyph line is the glyph alone and
   * is otherwise what follows the whole first whitespace run, starting and ending
   * with a non-whitespace character; and the escaped form of the glyph.
   */
  lemma RecordFromLines(code: string, glyphLine: string, current: Option<string>, filename: string,
                        escape: string -> string)
    requires IsCleanLine(glyphLine)
    ensures var r := MakeRecord(code, glyphLine, current, filename, escape);
            && r.code == code
            && r.glyph != [] && !HasSpace(r.glyph)
            && |r.glyph| <= |glyphLine| && glyphLine[..|r.glyph|] == r.glyph
            && (r.description == [] <==> glyphLine == r.glyph)
            && (r.description != [] ==>
                  && |r.glyph| < |glyphLine| - |r.description|
                  && glyphLine[|glyphLine| - |r.description|..] == r.description
                  && IsCleanLine(r.description)
                  && forall k :: |r.glyph| <= k < |glyphLine| - |r.description| ==> IsSpace(glyphLine[k]))
            && r.unicodeEscape == escape(r.glyph)
  {
    var r := MakeRecord(code, glyphLine, current, filename, escape);
    var parts := SplitGlyphLine(glyphLine);
    assert r.code == code && r.glyph == parts.0 && r.description == parts.1 && r.unicodeEscape == escape(parts.0);
    GlyphLineParts(glyphLine);
  }

  /**
   * The `unicode_hex` field of a record built from a clean glyph line has one
   * token per glyph character, each the `U+` form of that character's code point.
   */
  lemma RecordHexField(code: string, glyphLine: string, current: Option<string>, filename: string,
                       escape: string -> string)
    requires IsCleanLine(glyphLine)
    ensures var r := MakeRecord(code, glyphLine, current, filename, escape);
            && |SplitOn(r.unicodeHex, ' ')| == |r.glyph|
            && forall k :: 0 <= k < |r.glyph| ==>
                 var t := SplitOn(r.unicodeHex, ' ')[k];
                 t == FormatCodePoint(r.glyph[k]) && ParseCodePoint(t) == r.glyph[k] as int
  {
    var r := MakeRecord(code, glyphLine, current, filename, escape);
    var parts := SplitGlyphLine(glyphLine);
    assert r.glyph == parts.0 && r.unicodeHex == HexPoints(parts.0);
    GlyphLineParts(glyphLine);
    HexPointsDecode(parts.0);
  }

  /**
   * The glyph and description split off a clean glyph line: a non-empty glyph
   * without whitespace that begins the line, and a description that is empty
   * exactly when the line is the glyph alone and otherwise is the clean rest after
   * the whole first whitespace run, so it starts with a non-whitespace character.
   */
  lemma GlyphLineParts(glyphLine: string)
    requires IsCleanLine(glyphLine)
    ensures var (glyph, description) := SplitGlyphLine(glyphLine);
            && glyph != [] && !HasSpace(glyph) && |glyph| <= |glyphLine| && glyphLine[..|glyph|] == glyph
            && (description == [] <==> glyphLine == glyph)
            && (description != [] ==>
                  && |glyph| < |glyphLine| - |description|
                  && glyphLine[|glyphLine| - |description|..] == description
                  && IsCleanLine(description)
                  && forall k :: |glyph| <= k < |glyphLine| - |description| ==> IsSpace(glyphLine[k]))
  {
    SplitOnceClean(glyphLine);
  }

  /**
   * A record's category is the header line that set it, or, before any header,
   * the file name with `.txt` removed; for a name `stem.txt` whose stem holds no
   * `.txt`, that is the stem.
   */
  lemma CategoryFallback(current: Option<string>, stem: string)
    requires current.None? || IsHeader(current.value)
    requires forall k :: !OccursAt(stem, ".txt", k)
    ensures current.Some? ==> CategoryName(current, stem + ".txt") == current.value
    ensures current.None? ==> CategoryName(current, stem + ".txt") == stem
  {
    RemoveTxtExtension(stem);
  }
}
