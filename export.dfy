/**
 * What the export step hands to the JSON, CSV and ZIP writers: the file-safe
 * category name, the rows of a category's CSV file, and the list of paths to
 * archive. The writers themselves are not part of this model.
 */
module Export {
  import opened Text
  import opened Signs
  import opened Grouping

  /** `os.path.join(dir, name)`, kept as its two parts. */
  datatype FilePath = FilePath(dir: string, name: string)

  /** `cat.replace(" ", "_").replace("-", "_")`. */
  function SafeCategory(cat: string): (safe: string)
    ensures |safe| == |cat|
    ensures forall k :: 0 <= k < |safe| ==> safe[k] != ' ' && safe[k] != '-'
  {
    ReplaceChar(cat, ' ', '_');
    ReplaceChar(Replace(cat, " ", "_"), '-', '_');
    Replace(Replace(cat, " ", "_"), "-", "_")
  }

  function SafeChar(c: char): char
  {
    if c == ' ' || c == '-' then '_' else c
  }

  /** Every space and every `-` becomes `_`; every other character is kept in place. */
  lemma SafeCategoryChars(cat: string)
    ensures forall k :: 0 <= k < |cat| ==> SafeCategory(cat)[k] == SafeChar(cat[k])
  {
    ReplaceChar(cat, ' ', '_');
    ReplaceChar(Replace(cat, " ", "_"), '-', '_');
  }

  /** A category name without spaces or `-` is its own file-safe name. */
  lemma SafeCategoryIdentity(cat: string)
    requires forall k :: 0 <= k < |cat| ==> cat[k] != ' ' && cat[k] != '-'
    ensures SafeCategory(cat) == cat
  {
    SafeCategoryChars(cat);
  }

  /**
   * Two categories get the same file name exactly when they have the same length
   * and agree at every position once space, `-` and `_` are taken as one character.
   */
  lemma SafeCategorySame(a: string, b: string)
    ensures SafeCategory(a) == SafeCategory(b) <==>
              |a| == |b| && forall k :: 0 <= k < |a| ==> SafeChar(a[k]) == SafeChar(b[k])
  {
    SafeCategoryChars(a);
    SafeCategoryChars(b);
    if |a| == |b| && forall k :: 0 <= k < |a| ==> SafeChar(a[k]) == SafeChar(b[k]) {
      assert forall k :: 0 <= k < |a| ==> SafeCategory(a)[k] == SafeCategory(b)[k];
    }
  }

  /** So distinct categories can collide: the files written later overwrite the earlier ones. */
  lemma SafeCategoryCollision(stem: string)
    ensures SafeCategory(stem + " " + stem) == SafeCategory(stem + "-" + stem)
  {
    var a, b := stem + " " + stem, stem + "-" + stem;
    SafeCategorySame(a, b);
    assert forall k :: 0 <= k < |a| ==> SafeChar(a[k]) == SafeChar(b[k]) by {
      forall k | 0 <= k < |a| ensures SafeChar(a[k]) == SafeChar(b[k]) {
        if k != |stem| {
          assert a[k] == b[k];
        }
      }
    }
  }

  const CsvHeader: seq<string> := ["Category", "Code", "Glyph", "Unicode Escape", "Unicode Hex", "Description"]

  /** One CSV row: the six record fields in header order. */
  function CsvRow(r: SignRecord): (row: seq<string>)
    ensures |row| == |CsvHeader|
  {
    [r.category, r.code, r.glyph, r.unicodeEscape, r.unicodeHex, r.description]
  }

  /** Reads a six-field row back as a record, column by column. */
  function RowRecord(row: seq<string>): SignRecord
    requires |row| == |CsvHeader|
  {
    SignRecord(row[0], row[1], row[2], row[3], row[4], row[5])
  }

  /** A row holds every field of its record, each in its own column. */
  lemma CsvRowRoundTrip(r: SignRecord)
    ensures RowRecord(CsvRow(r)) == r
  {
  }

  /** The rows of one category's CSV file: the header, then one row per record in record order. */
  function CsvTable(items: seq<SignRecord>): seq<seq<string>>
  {
    [CsvHeader] + seq(|items|, k requires 0 <= k < |items| => CsvRow(items[k]))
  }

  /** A CSV file has one row more than its category has records; every row has six fields, read back as its record. */
  lemma CsvTableShape(items: seq<SignRecord>)
    ensures var rows := CsvTable(items);
            && |rows| == |items| + 1
            && rows[0] == CsvHeader
            && (forall k :: 0 <= k < |rows| ==> |rows[k]| == |CsvHeader|)
            && forall k :: 0 <= k < |items| ==> RowRecord(rows[k + 1]) == items[k]
  {
    forall k | 0 <= k < |items| ensures RowRecord(CsvTable(items)[k + 1]) == items[k] {
      CsvRowRoundTrip(items[k]);
    }
  }

  /** The row-building loop. */
  method CsvRows(items: seq<SignRecord>) returns (rows: seq<seq<string>>)
    ensures rows == CsvTable(items)
  {
    rows := [CsvHeader];
    for n := 0 to |items|
      invariant rows == CsvTable(items[..n])
    {
      rows := rows + [CsvRow(items[n])];
    }
    assert items[..|items|] == items;
  }

  function JsonPath(jsonDir: string, cat: string): FilePath
  {
    FilePath(jsonDir, SafeCategory(cat) + ".json")
  }

  function CsvPath(csvDir: string, cat: string): FilePath
  {
    FilePath(csvDir, SafeCategory(cat) + ".csv")
  }

  /** The key records are grouped by: `entry["category"]`. */
  function RecordCategory(r: SignRecord): string
  {
    r.category
  }

  /** What the writers receive for one category: the JSON path and its records, the CSV path and its rows. */
  datatype CategoryFiles = CategoryFiles(json: FilePath, records: seq<SignRecord>, csv: FilePath, rows: seq<seq<string>>)

  function CategoryExport(records: seq<SignRecord>, jsonDir: string, csvDir: string, cat: string): CategoryFiles
  {
    var items := Filter(records, RecordCategory, cat);
    CategoryFiles(JsonPath(jsonDir, cat), items, CsvPath(csvDir, cat), CsvTable(items))
  }

  /**
   * The export step: the records grouped by category, then, for each category in
   * first-seen order, its file-safe JSON and CSV paths, the records written to
   * the JSON file and the rows written to the CSV file; and `files_to_zip`: the
   * master JSON path twice (once on its own, once at the head of the JSON path
   * list), then each category's JSON path, then each CSV path.
   */
  method ExportCategories(records: seq<SignRecord>, master: FilePath, jsonDir: string, csvDir: string)
    returns (written: seq<CategoryFiles>, files: seq<FilePath>)
    ensures var cats := FirstSeen(records, RecordCategory);
            && |written| == |cats|
            && (forall j :: 0 <= j < |cats| ==> written[j] == CategoryExport(records, jsonDir, csvDir, cats[j]))
            && |files| == 2 + 2 * |cats|
            && files[0] == master && files[1] == master
            && forall j :: 0 <= j < |cats| ==> files[2 + j] == written[j].json && files[2 + |cats| + j] == written[j].csv
  {
    var order, categories := GroupBy(records, RecordCategory);
    var jsonPaths := [master];
    var csvPaths: seq<FilePath> := [];
    written := [];
    for j := 0 to |order|
      invariant |jsonPaths| == j + 1 && jsonPaths[0] == master && |csvPaths| == j && |written| == j
      invariant forall m :: 0 <= m < j ==> written[m] == CategoryExport(records, jsonDir, csvDir, order[m])
      invariant forall m :: 0 <= m < j ==> jsonPaths[m + 1] == written[m].json && csvPaths[m] == written[m].csv
    {
      var cat := order[j];
      var items := categories[cat];
      var safeCat := SafeCategory(cat);
      var catJson := FilePath(jsonDir, safeCat + ".json");
      jsonPaths := jsonPaths + [catJson];
      var catCsv := FilePath(csvDir, safeCat + ".csv");
      var rows := CsvRows(items);
      written := written + [CategoryFiles(catJson, items, catCsv, rows)];
      csvPaths := csvPaths + [catCsv];
    }
    files := [master] + jsonPaths + csvPaths;
  }

  /**
   * Every record is written to the JSON file of its own category, and the
   * category files together hold as many records as the master list.
   */
  lemma ExportCovers(records: seq<SignRecord>, jsonDir: string, csvDir: string)
    ensures var cats := FirstSeen(records, RecordCategory);
            forall k :: 0 <= k < |records| ==>
              exists j :: 0 <= j < |cats| && cats[j] == records[k].category
                       && records[k] in CategoryExport(records, jsonDir, csvDir, cats[j]).records
    ensures Sizes(records, RecordCategory, FirstSeen(records, RecordCategory)) == |records|
  {
    var cats := FirstSeen(records, RecordCategory);
    forall k | 0 <= k < |records|
      ensures exists j :: 0 <= j < |cats| && cats[j] == records[k].category
                       && records[k] in CategoryExport(records, jsonDir, csvDir, cats[j]).records
    {
      var c := RecordCategory(records[k]);
      FirstSeenMembers(records, RecordCategory, c);
      FilterMembers(records, RecordCategory, c);
      var j :| 0 <= j < |cats| && cats[j] == c;
    }
    GroupsPartition(records, RecordCategory);
  }
}
