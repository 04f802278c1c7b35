/**
 * The text branch of the two renderers: the sign map loaded from the master JSON
 * list, the parsing of the comma-separated `--codes` argument, the lookup of each
 * code (with `?` for an unknown code), and the assembly of the output text.
 */
module Render {
  import opened Wrappers
  import opened Text
  import opened Signs
  import opened CatalogParser

  /** `{entry['code']: entry['glyph'] for entry in signs}`: later entries overwrite earlier ones. */
  function SignMap(entries: seq<SignRecord>): (m: map<string, string>)
    ensures m.Keys == Codes(entries)
  {
    if entries == [] then map[]
    else
      var prefix, last := entries[..|entries| - 1], entries[|entries| - 1];
      CodesAppend(prefix, [last]);
      CodesSingle(last);
      assert prefix + [last] == entries;
      SignMap(prefix)[last.code := last.glyph]
  }

  /** A code maps to the glyph of the last entry that has it. */
  lemma {:induction false} SignMapLastWins(entries: seq<SignRecord>, k: nat)
    requires k < |entries|
    requires forall j :: k < j < |entries| ==> entries[j].code != entries[k].code
    ensures SignMap(entries)[entries[k].code] == entries[k].glyph
  {
    if k < |entries| - 1 {
      SignMapLastWins(entries[..|entries| - 1], k);
    }
  }

  /** On a list with pairwise distinct codes, such as the parser's output, every code maps to its own glyph. */
  lemma SignMapDistinct(entries: seq<SignRecord>)
    requires DistinctCodes(entries)
    ensures forall k :: 0 <= k < |entries| ==> SignMap(entries)[entries[k].code] == entries[k].glyph
  {
    forall k | 0 <= k < |entries| ensures SignMap(entries)[entries[k].code] == entries[k].glyph {
      SignMapLastWins(entries, k);
    }
  }

  /** `sign_map.get(code)`, kept when truthy, else `'?'`. */
  function Lookup(signMap: map<string, string>, code: string): (piece: string)
    ensures piece != []
    ensures code in signMap && signMap[code] != [] ==> piece == signMap[code]
    ensures code !in signMap || signMap[code] == [] ==> piece == "?"
  {
    if code in signMap && signMap[code] != [] then signMap[code] else "?"
  }

  /** The piece of each requested code, in request order. */
  function Resolved(signMap: map<string, string>, signs: seq<string>): (pieces: seq<string>)
    ensures |pieces| == |signs|
  {
    seq(|signs|, k requires 0 <= k < |signs| => Lookup(signMap, signs[k]))
  }

  /** The loop that fills `unicode_chars`, shared by both renderers. */
  method ResolveSigns(signs: seq<string>, signMap: map<string, string>) returns (pieces: seq<string>)
    ensures pieces == Resolved(signMap, signs)
  {
    pieces := [];
    for n := 0 to |signs|
      invariant pieces == Resolved(signMap, signs[..n])
    {
      var code := signs[n];
      if code in signMap && signMap[code] != [] {
        pieces := pieces + [signMap[code]];
      } else {
        pieces := pieces + ["?"];
      }
    }
    assert signs[..|signs|] == signs;
  }

  /** The title line that starts the text output: present only for a non-empty title. */
  function TitlePrefix(title: Option<string>): string
  {
    if title.Some? && title.value != [] then title.value + "\n" else ""
  }

  /** `medu_netcher_render` in the first renderer, text branch. */
  method RenderText(signs: seq<string>, signMap: map<string, string>, title: Option<string>, vertical: bool)
    returns (output: string)
    ensures output == TitlePrefix(title) + Join(Resolved(signMap, signs), if vertical then "\n" else "")
  {
    var pieces := ResolveSigns(signs, signMap);
    output := "";
    if title.Some? && title.value != [] {
      output := output + title.value + "\n";
    }
    if vertical {
      output := output + Join(pieces, "\n");
    } else {
      output := output + Join(pieces, "");
    }
  }

  /** `medu_netcher_render` in the second renderer, text branch: the pieces concatenated. */
  method RenderConcat(signs: seq<string>, signMap: map<string, string>) returns (output: string)
    ensures output == Join(Resolved(signMap, signs), "")
  {
    var pieces := ResolveSigns(signs, signMap);
    output := Join(pieces, "");
  }

  /**
   * In vertical mode, when neither the title nor any glyph holds a newline, the
   * output splits at newlines into the title (if any) followed by one line per
   * requested code.
   */
  lemma VerticalLines(signs: seq<string>, signMap: map<string, string>, title: Option<string>)
    requires signs != []
    requires title.Some? ==> NoNewline(title.value)
    requires forall c :: c in signMap ==> NoNewline(signMap[c])
    ensures var lines := SplitOn(TitlePrefix(title) + Join(Resolved(signMap, signs), "\n"), '\n');
            lines == (if title.Some? && title.value != [] then [title.value] else []) + Resolved(signMap, signs)
  {
    var pieces := Resolved(signMap, signs);
    assert forall k :: 0 <= k < |pieces| ==> '\n' !in pieces[k];
    assert "\n" == ['\n'];
    SplitJoin(pieces, '\n');
    var body := Join(pieces, "\n");
    if title.Some? && title.value != [] {
      SplitOnPiece(title.value, '\n', body);
      assert TitlePrefix(title) + body == title.value + ['\n'] + body;
    } else {
      assert TitlePrefix(title) + body == body;
    }
  }

  /**
   * In the concatenated output every requested code contributes at least one
   * character, and nothing but the pieces is written: no separator.
   */
  lemma ConcatLength(signs: seq<string>, signMap: map<string, string>)
    ensures |Join(Resolved(signMap, signs), "")| == TotalLength(Resolved(signMap, signs))
    ensures |Join(Resolved(signMap, signs), "")| >= |signs|
  {
    var pieces := Resolved(signMap, signs);
    if pieces != [] {
      JoinLength(pieces, "");
    }
    ConcatNonEmptyLength(pieces);
  }

  /** `[code.strip() for code in codes.split(',')]`: each comma-separated piece of the argument, stripped. */
  function ParseCodes(arg: string): (codes: seq<string>)
    ensures |codes| == |SplitOn(arg, ',')| == Count(arg, ',') + 1
    ensures forall k :: 0 <= k < |codes| ==> codes[k] == Strip(SplitOn(arg, ',')[k])
    ensures forall k :: 0 <= k < |codes| ==> IsStripped(codes[k]) && ',' !in codes[k]
  {
    var parts := SplitOn(arg, ',');
    seq(|parts|, k requires 0 <= k < |parts| => Strip(parts[k]))
  }

  /** An empty argument yields one empty code. */
  lemma ParseCodesEmpty()
    ensures ParseCodes("") == [""]
  {
    assert SplitOn("", ',') == [""];
  }

  /** Codes without commas or surrounding whitespace survive being written comma-separated and parsed back. */
  lemma ParseCodesRoundTrip(codes: seq<string>)
    requires codes != []
    requires forall k :: 0 <= k < |codes| ==> IsStripped(codes[k]) && ',' !in codes[k]
    ensures ParseCodes(Join(codes, ",")) == codes
  {
    SplitJoin(codes, ',');
    forall k | 0 <= k < |codes| ensures Strip(codes[k]) == codes[k] {
      StripStripped(codes[k]);
    }
  }
}
