/**
 * The plain-text catalog written from the master sign list: the entries grouped
 * by category in first-seen order (a missing category counts as `Uncategorized`),
 * each group written as a `=== category ===` line, one tab-separated line per
 * entry, and a blank line.
 */
module CatalogText {
  import opened Wrappers
  import opened Text
  import opened Grouping

  /** One entry of the master list as read back from JSON; `category` and `description` may be absent. */
  datatype CatalogEntry = CatalogEntry(code: string, glyph: string, category: Option<string>, description: Option<string>)

  /** `entry.get("category", "Uncategorized")`. */
  function CategoryOf(e: CatalogEntry): string
  {
    match e.category
    case Some(c) => c
    case None => "Uncategorized"
  }

  /** `entry.get('description', '')`. */
  function DescriptionOf(e: CatalogEntry): string
  {
    match e.description
    case Some(d) => d
    case None => ""
  }

  function HeaderLine(cat: string): string
  {
    "=== " + cat + " ===\n"
  }

  function EntryLine(e: CatalogEntry): string
  {
    e.code + "\t" + e.glyph + "\t" + DescriptionOf(e) + "\n"
  }

  /** The entry lines of a group, in group order. */
  function EntryLines(entries: seq<CatalogEntry>): string
  {
    if entries == [] then ""
    else EntryLines(entries[..|entries| - 1]) + EntryLine(entries[|entries| - 1])
  }

  /** One category's block: its header line, the lines of its entries in input order, and a blank line. */
  function Block(signs: seq<CatalogEntry>, cat: string): string
  {
    HeaderLine(cat) + EntryLines(Filter(signs, CategoryOf, cat)) + "\n"
  }

  /** The blocks of the categories `cats`, in that order. */
  function Blocks(signs: seq<CatalogEntry>, cats: seq<string>): string
  {
    if cats == [] then "" else Block(signs, cats[0]) + Blocks(signs, cats[1..])
  }

  /** The whole catalog: one block per category, categories in first-seen order. */
  function Catalog(signs: seq<CatalogEntry>): string
  {
    Blocks(signs, FirstSeen(signs, CategoryOf))
  }

  /** The grouping loop, then the nested output loops writing one block per category. */
  method GenerateCatalog(signs: seq<CatalogEntry>) returns (text: string)
    ensures text == Catalog(signs)
  {
    var order, categories := GroupBy(signs, CategoryOf);
    text := "";
    for j := 0 to |order|
      invariant text == Blocks(signs, order[..j])
    {
      var cat := order[j];
      var entries := categories[cat];
      ghost var before := text;
      text := text + HeaderLine(cat);
      for n := 0 to |entries|
        invariant text == before + HeaderLine(cat) + EntryLines(entries[..n])
      {
        EntryLinesStep(entries, n);
        Associative(before + HeaderLine(cat), EntryLines(entries[..n]), EntryLine(entries[n]));
        text := text + EntryLine(entries[n]);
      }
      assert entries[..|entries|] == entries;
      text := text + "\n";
      BlocksStep(signs, order, j, entries);
    }
    assert order[..|order|] == order;
  }

  lemma Associative(a: string, b: string, c: string)
    ensures a + b + c == a + (b + c)
  {
  }

  lemma EntryLinesStep(entries: seq<CatalogEntry>, n: nat)
    requires n < |entries|
    ensures EntryLines(entries[..n + 1]) == EntryLines(entries[..n]) + EntryLine(entries[n])
  {
    assert entries[..n + 1][..n] == entries[..n];
  }

  lemma BlocksStep(signs: seq<CatalogEntry>, cats: seq<string>, j: nat, entries: seq<CatalogEntry>)
    requires j < |cats| && entries == Filter(signs, CategoryOf, cats[j])
    ensures Blocks(signs, cats[..j + 1]) == Blocks(signs, cats[..j]) + HeaderLine(cats[j]) + EntryLines(entries) + "\n"
  {
    assert cats[..j + 1] == cats[..j] + [cats[j]];
    BlocksAppend(signs, cats[..j], cats[j]);
  }

  /** One more category adds its block after the blocks before it. */
  lemma {:induction false} BlocksAppend(signs: seq<CatalogEntry>, cats: seq<string>, cat: string)
    ensures Blocks(signs, cats + [cat]) == Blocks(signs, cats) + Block(signs, cat)
  {
    if cats == [] {
      assert [cat][1..] == [];
    } else {
      BlocksAppend(signs, cats[1..], cat);
      assert (cats + [cat])[1..] == cats[1..] + [cat];
    }
  }

  /** No field that reaches the output holds a line break. */
  predicate SingleLineFields(e: CatalogEntry)
  {
    NoNewline(e.code) && NoNewline(e.glyph) && NoNewline(CategoryOf(e)) && NoNewline(DescriptionOf(e))
  }

  lemma EntryLineCount(e: CatalogEntry)
    requires SingleLineFields(e)
    ensures Count(EntryLine(e), '\n') == 1
  {
    var d := DescriptionOf(e);
    CountAppend(e.code + "\t" + e.glyph + "\t" + d, "\n", '\n');
    CountAppend(e.code + "\t" + e.glyph + "\t", d, '\n');
    CountAppend(e.code + "\t" + e.glyph, "\t", '\n');
    CountAppend(e.code + "\t", e.glyph, '\n');
    CountAppend(e.code, "\t", '\n');
    CountAbsent(e.code, '\n');
    CountAbsent(e.glyph, '\n');
    CountAbsent(d, '\n');
  }

  lemma {:induction false} EntryLinesCount(entries: seq<CatalogEntry>)
    requires forall k :: 0 <= k < |entries| ==> SingleLineFields(entries[k])
    ensures Count(EntryLines(entries), '\n') == |entries|
  {
    if entries != [] {
      var prefix := entries[..|entries| - 1];
      EntryLinesCount(prefix);
      EntryLineCount(entries[|entries| - 1]);
      CountAppend(EntryLines(prefix), EntryLine(entries[|entries| - 1]), '\n');
    }
  }

  lemma HeaderLineCount(cat: string)
    requires NoNewline(cat)
    ensures Count(HeaderLine(cat), '\n') == 1
  {
    CountAppend("=== " + cat, " ===\n", '\n');
    CountAppend("=== ", cat, '\n');
    CountAbsent(cat, '\n');
  }

  /** A block of a single-line category has one line per entry plus its header and blank lines. */
  lemma BlockCount(signs: seq<CatalogEntry>, cat: string)
    requires forall k :: 0 <= k < |signs| ==> SingleLineFields(signs[k])
    requires NoNewline(cat)
    ensures Count(Block(signs, cat), '\n') == |Filter(signs, CategoryOf, cat)| + 2
  {
    var group := Filter(signs, CategoryOf, cat);
    forall k | 0 <= k < |group| ensures SingleLineFields(group[k]) {
      FilterFrom(signs, CategoryOf, cat, group[k]);
    }
    EntryLinesCount(group);
    HeaderLineCount(cat);
    CountAppend(HeaderLine(cat) + EntryLines(group), "\n", '\n');
    CountAppend(HeaderLine(cat), EntryLines(group), '\n');
  }

  lemma {:induction false} BlocksCount(signs: seq<CatalogEntry>, cats: seq<string>)
    requires forall k :: 0 <= k < |signs| ==> SingleLineFields(signs[k])
    requires forall k :: 0 <= k < |cats| ==> NoNewline(cats[k])
    ensures Count(Blocks(signs, cats), '\n') == Sizes(signs, CategoryOf, cats) + 2 * |cats|
  {
    if cats != [] {
      BlocksCount(signs, cats[1..]);
      BlockCount(signs, cats[0]);
      CountAppend(Block(signs, cats[0]), Blocks(signs, cats[1..]), '\n');
    }
  }

  /**
   * With single-line fields, the catalog has one line per entry plus two per
   * category: its header line and the blank line after its block.
   */
  lemma CatalogLineCount(signs: seq<CatalogEntry>)
    requires forall k :: 0 <= k < |signs| ==> SingleLineFields(signs[k])
    ensures Count(Catalog(signs), '\n') == |signs| + 2 * |FirstSeen(signs, CategoryOf)|
  {
    var cats := FirstSeen(signs, CategoryOf);
    forall j | 0 <= j < |cats| ensures NoNewline(cats[j]) {
      FirstSeenMembers(signs, CategoryOf, cats[j]);
    }
    BlocksCount(signs, cats);
    GroupsPartition(signs, CategoryOf);
  }

  /**
   * An entry line without its newline splits at tabs into the code, the glyph and
   * the description, when none of them holds a tab.
   */
  lemma EntryLineFields(e: CatalogEntry)
    requires '\t' !in e.code && '\t' !in e.glyph && '\t' !in DescriptionOf(e)
    ensures var line := EntryLine(e);
            line[|line| - 1] == '\n' && SplitOn(line[..|line| - 1], '\t') == [e.code, e.glyph, DescriptionOf(e)]
  {
    var line := EntryLine(e);
    var fields := [e.code, e.glyph, DescriptionOf(e)];
    assert Join(fields[2..], "\t") == DescriptionOf(e);
    assert Join(fields[1..], "\t") == e.glyph + "\t" + DescriptionOf(e);
    assert line[..|line| - 1] == Join(fields, "\t");
    SplitJoin(fields, '\t');
  }
}
