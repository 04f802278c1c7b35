# Medu Netcher sign catalog — a Dafny model

The repository builds a catalog of Egyptian hieroglyphic signs from plain-text
"papyri". Each `.txt` file holds category header lines such as `Birds - Animals`,
followed by pairs of lines: a Gardiner code such as `G17`, then a line with the
glyph and an optional description. Three copies of the pipeline script
(`mdw_ntr19.py`, `mdw_nTr11.py`, `mdw_nTr13.py`) parse every file into
deduplicated sign records, then do three more things:

- group the records by category;
- write one JSON file and one CSV file per category, plus a master JSON file;
- zip all of these files.

Two renderer scripts turn a comma-separated list of codes into text. `generate_catalog.py`
writes a plain-text catalog of the master list.

The model covers each of these steps.

- `text.dfy` (`Text`): the Python `str` operations the scripts use.
  - `strip`, with Python's exact `isspace` character set.
  - `split(sep)`, `sep.join` and `replace`.
  - Each comes with its split/join round trips.
- `codepoints.dfy` (`CodePoints`): the `unicode_hex` field, that is, `U+` followed by
  upper-case hex digits per code point, padded with zeros to four and never further.
  It includes a decoder and the proof that decoding gives back the glyph's code points.
- `signs.dfy` (`Signs`): the record and the per-line decisions.
  - The header test and the glyph/description split.
  - The category fallback to the file name.
  - The read step, which strips lines and drops the empty ones.
- `parser.dfy` (`CatalogParser`): the parse loop, one model for the three identical copies.
  - `Step` is one pass of the loop body as written. `Run` iterates it while the loop guard holds.
  - `Candidates` and `Dedup` are a reference definition of what the loop produces.
  - The class `SignCatalog` is the imperative parser. Its fields are the shared
    `seen_codes` set and the output list. Its methods are proved to produce exactly
    `Dedup` of the candidates, file after file.
  - When the last line of a file is reached and it is not a header, neither branch
    of the loop moves the cursor, so the loop never exits.
    - `StuckForever` and `DanglingNeverExits` show this.
    - `TerminatesIff` proves that the loop exits exactly when that cannot happen (`Dangles`).
    - The imperative methods require that it does not happen.
  - The older copies `mdw_nTr2).py` and `mdw_nTr5 .py` put `i += 2` after the pair
    branch, at loop level (`mdw_nTr2).py:273`, `mdw_nTr5 .py:202`), so they skip such
    a line and exit. The three copies modelled here put it inside the pair branch
    (`mdw_ntr19.py:207`), and their loop never exits on it.
- `grouping.dfy` (`Grouping`): `setdefault(key, []).append(entry)` over a list.
  - It models insertion-ordered dictionary keys (`FirstSeen`) and per-key lists (`Filter`).
  - It proves that the grouping partitions the input and that keys come in first-seen order.
- `export.dfy` (`Export`): the export loop.
  - The file-safe category name.
  - The CSV rows of each category.
  - The JSON and CSV paths, and the `files_to_zip` list with the master path twice.
- `sortkey.dfy` (`SortKey`): `gardiner_sort_key`, which the scripts define but never sort with.
- `render.dfy` (`Render`): the text branches of both renderers.
  - `load_sign_map`, where the last entry with a code wins.
  - The lookup with `?` for unknown codes.
  - Parsing of the `--codes` argument.
  - The title line and the horizontal or vertical join.
- `catalog_text.dfy` (`CatalogText`): `generate_catalog.py`.
  - Grouping with the `Uncategorized` default.
  - The `=== category ===` blocks, tab-separated entry lines, and a blank line after each block.

Strings are Dafny `string`s whose characters are Unicode scalar values, as the
characters of a Python `str` are.

## Model

| member | source | states |
|---|---|---|
| Text.Strip | mdw_ntr19.py:174 | `strip()` gives a string with no whitespace at either end that is the input without a whitespace prefix and a whitespace suffix |
| Text.StripStripped | medu_neTcher_render.py:72 | stripping a stripped string changes nothing |
| Text.SplitOn | medu_neTcher_render.py:72 | `split(',')` gives one more piece than there are separators, and no piece holds the separator |
| Text.JoinSplit | medu_neTcher_render.py:72 | joining the pieces of a split with the same separator restores the text |
| Text.SplitJoin | medu_neTcher_render.py:52 | splitting a join of separator-free parts gives the parts back |
| Text.JoinLength | medu_netcher_render2.py:20 | a join holds every part plus one separator between neighbours |
| Text.ConcatNonEmptyLength | medu_netcher_render2.py:20 | concatenating non-empty parts gives at least one character per part |
| Text.CountAppend | generate_catalog.py:20-25 | the newlines of a concatenation are those of its parts together |
| Text.CountAbsent | generate_catalog.py:24 | text without a newline counts none |
| Text.ReplaceChar | mdw_nTr11.py:245 | a one-character `replace` keeps the length and rewrites exactly the matching characters |
| Text.ReplaceAbsent | mdw_ntr19.py:197 | `replace` leaves text without an occurrence of the pattern unchanged |
| Text.RemoveTxtExtension | mdw_ntr19.py:197 | removing `.txt` from `stem.txt`, where the stem holds no `.txt`, gives the stem |
| CodePoints.HexDigits | mdw_ntr19.py:195 | the `X` format of a number is a non-empty string of upper-case hex digits with no leading zero: it starts with `0` only for 0, and it is one digit long exactly for numbers below 16 |
| CodePoints.HexDigitsValue | mdw_ntr19.py:195 | reading the `X` format of a number back gives the number |
| CodePoints.LeadingZerosValue | mdw_ntr19.py:195 | the zero padding of `04X` does not change the value |
| CodePoints.FormatCodePoint | mdw_ntr19.py:195 | each code point is written as `U+` and upper-case hex digits, exactly four of them or else more with no leading zero, as `04X` pads (`U+0041`, `U+13000`). With `CodePointRoundTrip` this fixes the token |
| CodePoints.FormatAll | mdw_ntr19.py:195 | one token per character of the glyph, in order |
| CodePoints.CodePointRoundTrip | mdw_ntr19.py:195 | decoding a `U+` token gives back the character's code point |
| CodePoints.TokenHasNoSpace | mdw_ntr19.py:195 | no token holds a space |
| CodePoints.HexPointsSplit | mdw_ntr19.py:195 | `unicode_hex` splits at spaces into exactly the per-character tokens |
| CodePoints.HexPointsSeparators | mdw_ntr19.py:195 | neighbouring tokens are separated by exactly one space |
| CodePoints.HexPointsDecode | mdw_ntr19.py:195 | decoding every token of `unicode_hex` recovers the glyph's code points in order |
| Signs.CleanLines | mdw_ntr19.py:174 | the read step yields stripped, non-empty lines, no more of them than were read |
| Signs.CleanLinesAppend | mdw_ntr19.py:174 | the read step treats each raw line on its own: cleaning a concatenation cleans the parts |
| Signs.CleanLinesSingle | mdw_ntr19.py:174 | one raw line is kept, stripped, exactly when something other than whitespace is left |
| Signs.SplitOnceClean | mdw_ntr19.py:190-193 | `split(maxsplit=1)` of a clean line gives the first word, non-empty and without whitespace, then, if anything follows the whitespace run after it, the rest of the line |
| Signs.RecordFromLines | mdw_ntr19.py:186-203 | the record's code is the code line. Its glyph is the first word of the glyph line. Its description is empty exactly when the glyph line is the glyph alone, and otherwise is what follows the whole first whitespace run, a clean string that starts and ends with a non-whitespace character. `unicode_escape` is the codec applied to the glyph |
| Signs.RecordHexField | mdw_ntr19.py:195 | the record's `unicode_hex` splits at spaces into one token per character of its glyph, each the `U+` form of that character and decoding back to its code point |
| Signs.GlyphLineParts | mdw_ntr19.py:190-193 | the glyph is a non-empty, space-free prefix of the glyph line, and the description is empty exactly when nothing follows it; otherwise the description is the suffix after the whole whitespace run that follows the glyph, so it starts and ends with a non-whitespace character |
| Signs.CategoryFallback | mdw_ntr19.py:197 | the category is the current header or, before any header, the file name without `.txt` |
| CatalogParser.EntryKeepsCode | mdw_ntr19.py:198 | the entry's code is the code line it was built from |
| CatalogParser.Step | mdw_ntr19.py:180-207 | a header line, and only a header line, moves the cursor by 1 and becomes the category. A non-header line with a next line moves it by 2, whatever that next line holds. In that case the code joins the seen set, and the entry is appended exactly when the code was unseen; a duplicate changes nothing else. A last non-header line changes nothing (the loop body is copied unchanged at mdw_nTr11.py:193-220 and mdw_nTr13.py:92-119) |
| CatalogParser.StuckForever | mdw_ntr19.py:180-207 | on a last non-header line, any number of iterations leaves the state unchanged |
| CatalogParser.DanglingNeverExits | mdw_ntr19.py:180 | from a cursor whose walk reaches such a line, the loop guard stays true forever |
| CatalogParser.TerminatesIff | mdw_ntr19.py:180-207 | the loop exits if and only if the cursor walk does not end on a last non-header line |
| CatalogParser.RunFinishes | mdw_ntr19.py:180-207 | when the loop exits, it has appended the deduplicated candidates and added every candidate code to the seen set |
| CatalogParser.CodesAppend | mdw_ntr19.py:206 | the codes of a concatenation are the union of the codes |
| CatalogParser.DedupAppend | mdw_ntr19.py:164 | with one shared seen set, what a later file keeps is judged against the codes of everything before it |
| CatalogParser.DedupCodes | mdw_ntr19.py:204-206 | kept codes are pairwise distinct and never in the seen set. They are exactly the candidate codes that were not seen |
| CatalogParser.DedupSource | mdw_ntr19.py:204-206 | every kept record comes from a position of the candidates that holds the first occurrence of a code not seen before |
| CatalogParser.CodesCons | mdw_ntr19.py:205-206 | adding a record's code to the seen set, then the codes after it, gives the seen set plus the codes of them all |
| CatalogParser.PrependNew | mdw_ntr19.py:205-206 | a record with an unseen code, put before distinct unseen codes that differ from it, keeps the codes distinct and unseen, and adds exactly its code |
| CatalogParser.DedupFirstWins | mdw_ntr19.py:204-206 | every kept record is the first candidate with its code, so the first occurrence wins |
| CatalogParser.DedupAllSeen | mdw_ntr19.py:204 | records whose codes have all been seen add nothing |
| CatalogParser.DedupTwice | mdw_ntr19.py:164 | reading the same records twice in a run keeps only the first reading |
| CatalogParser.AppendNew | mdw_ntr19.py:205-206 | appending a record with a new code keeps the codes distinct and adds exactly that code |
| CatalogParser.KeepOrSkip | mdw_ntr19.py:204-207 | one pair: kept when new, skipped when seen, and its code is in the seen set afterwards either way |
| CatalogParser.EntryShape | mdw_nTr13.py:102-115 | an entry built from clean lines has a non-header code, a non-empty glyph without whitespace, and a header or file-name category |
| CatalogParser.CandidatesShape | mdw_nTr13.py:94-115 | every entry of a cleaned file is well formed: its code is not a header, its glyph is non-empty without whitespace, and its category is a header line (holding `-` and no digit) or the file-name fallback |
| CatalogParser.CandidateOrigin | mdw_nTr13.py:92-119 | the k-th entry of a file is built from a code line where the cursor stopped, the line after it, and the latest header line among the cursor's earlier stops. When there is none, it gets the category the walk started with: none at the start of a file, so the file-name fallback. A header-shaped glyph line is skipped by the cursor, so it does not count |
| CatalogParser.ExtendRun | mdw_ntr19.py:164-207 | parsing one file after others gives what parsing all of their candidates at once gives |
| CatalogParser.AllCandidatesNext | mdw_ntr19.py:169 | the candidates of the first n+1 files are those of the first n, then those of the next file |
| CatalogParser.RunOutput | mdw_nTr13.py:116-118 | the parsed list has pairwise distinct codes and holds every candidate code. Each kept record is the first candidate with its code, and the kept records are a subsequence of the candidates, so they come in file order and then line order. They are ordered by the position where their code first occurs among the candidates. The parsed list meets `FirstOccurrenceList`, and every list that meets it is the parsed list |
| CatalogParser.FirstIndex | mdw_ntr19.py:204-206 | the position of the first candidate with a code, or the list length when none has it; the record there has that code |
| CatalogParser.FirstIndexFirst | mdw_ntr19.py:204-206 | no candidate before `FirstIndex` has the code, and the code is found exactly when some candidate has it |
| CatalogParser.DedupFirstIndexOrder | mdw_ntr19.py:204-206 | a record kept earlier has a code that first occurs at an earlier position, even when the same record occurs again later |
| CatalogParser.DedupFirstOccurrence | mdw_ntr19.py:204-206 | deduplication gives a list whose codes are the unseen codes, whose records are first occurrences, in first-occurrence order |
| CatalogParser.DedupUnique | mdw_ntr19.py:204-206 | any list with those three properties is the deduplicated list, so they characterise it |
| CatalogParser.DedupInOrder | mdw_ntr19.py:204-206 | deduplication only leaves records out: the kept records appear in the input in the same order |
| CatalogParser.ReadFailureSkipped | mdw_nTr13.py:83-88 | a file whose read failed adds no candidate, so it adds no record and leaves the seen set alone |
| CatalogParser.SignCatalog.constructor | mdw_ntr19.py:163-164 | the output list and seen set start empty |
| CatalogParser.SignCatalog.ParseLines | mdw_ntr19.py:178-207 | the loop over one file appends exactly `Dedup` of the file's candidates and adds their codes to the seen set. The seen set stays equal to the kept codes, which stay distinct (the same loop is at mdw_nTr11.py:191-220 and mdw_nTr13.py:90-119) |
| CatalogParser.SignCatalog.ParseSource | mdw_ntr19.py:171-178 | one file: skipped when the read raised; otherwise cleaned and parsed from a fresh `current_category` |
| CatalogParser.SignCatalog.ParseSources | mdw_ntr19.py:169-207 | all files in order share one seen set, and the result is `Dedup` of all candidates, file after file |
| Grouping.GroupBy | mdw_nTr11.py:239-241 | the dictionary's keys in insertion order are the first-seen categories, and each key's list is the records with that category, in input order |
| Grouping.FirstSeenMembers | mdw_nTr11.py:239-241 | a category is a key exactly when some record has it |
| Grouping.FilterAbsent | mdw_nTr11.py:239-241 | a category no record has gets no records |
| Grouping.FirstSeenDistinct | mdw_nTr11.py:239-244 | every category is iterated once |
| Grouping.FirstSeenBefore | mdw_nTr11.py:239-241 | a category that became a key before another one first appears in some record before any record of the later one |
| Grouping.FirstSeenOrder | mdw_nTr11.py:239-244 | categories are iterated in the order in which they first appear |
| Grouping.FilterMembers | mdw_nTr11.py:239-241 | every record of a group has the group's category, and every record is in its category's group |
| Grouping.FilterFrom | mdw_nTr11.py:239-241 | every record of a group is an input record |
| Grouping.SizesCover | mdw_nTr11.py:239-241 | grouping along distinct keys that cover every record puts each record in exactly one group |
| Grouping.GroupsPartition | mdw_nTr11.py:239-241 | the groups together hold exactly as many records as the input |
| Export.SafeCategory | mdw_nTr11.py:245 | `safe_cat` has the same length as the category and holds no space and no `-` |
| Export.SafeCategoryChars | mdw_nTr11.py:245 | every space and `-` becomes `_`, and every other character is kept in place |
| Export.SafeCategoryIdentity | mdw_nTr11.py:245 | a category without spaces or `-` is its own file name |
| Export.SafeCategorySame | mdw_ntr19.py:233-237 | two categories get the same file names if and only if they are equal once space, `-` and `_` are taken as one character |
| Export.SafeCategoryCollision | mdw_ntr19.py:233-237 | distinct categories such as `a a` and `a-a` get the same file names |
| Export.CsvRow | mdw_ntr19.py:240 | a row has as many fields as the header |
| Export.CsvRowRoundTrip | mdw_ntr19.py:238-240 | the row holds category, code, glyph, escape, hex and description, one per column, in header order |
| Export.CsvTableShape | mdw_nTr13.py:186-188 | a CSV file has one row more than its category has records: the fixed six-field header, then one six-field row per record, in record order |
| Export.CsvRows | mdw_nTr11.py:250-252 | the row-building loop produces that table |
| Export.ExportCategories | mdw_ntr19.py:227-247 | for each category in first-seen order: its JSON path, holding its records, and its CSV path, holding its table. `files_to_zip` is the master path twice, then the JSON paths, then the CSV paths, so 2 + 2 × categories entries (the same export loop is at mdw_nTr13.py:174-207) |
| Export.ExportCovers | mdw_ntr19.py:227-236 | every record goes to the JSON file of its own category, and the category files hold as many records as the master list |
| SortKey.UpperEnd | mdw_nTr11.py:167 | `[A-Z]+` is the maximal run of capitals |
| SortKey.DigitEnd | mdw_nTr11.py:167 | `(\d+)?` is the maximal digit run |
| SortKey.DecimalDigits | mdw_nTr11.py:170 | the decimal form of a number is a non-empty digit string without a leading zero |
| SortKey.GardinerKey | mdw_nTr11.py:166-172 | a code starting with a capital gets its maximal leading run of capitals, a non-empty prefix of the code, and the value of the digit run right after it (0 if none). Any other code gets `(code, 0)` |
| SortKey.DecimalRoundTrip | mdw_nTr11.py:170 | `int(str(n)) == n` |
| SortKey.LeadingZero | mdw_nTr11.py:170 | a leading zero does not change the value of a digit string |
| SortKey.GardinerKeyDigits | mdw_nTr11.py:167-171 | capitals, then digits, then a tail that does not continue them, give the capitals and the digits' value |
| SortKey.GardinerKeyOf | mdw_nTr11.py:167-171 | capitals followed by the decimal form of `n` get the key (capitals, `n`) |
| SortKey.GardinerKeyLeadingZero | mdw_nTr11.py:170-171 | `A01` and `A1` get the same key |
| Render.SignMap | medu_neTcher_render.py:10 | the keys of `load_sign_map` are exactly the entry codes |
| Render.SignMapLastWins | medu_netcher_render2.py:10 | a code maps to the glyph of the last entry with that code |
| Render.SignMapDistinct | medu_neTcher_render.py:6-10 | on the parser's output, whose codes are distinct, each code maps to its own record's glyph |
| Render.Lookup | medu_neTcher_render.py:16-20 | the piece is never empty. It is the mapped glyph when that is present and non-empty, and otherwise `?` |
| Render.Resolved | medu_neTcher_render.py:14-20 | one piece per requested code |
| Render.ResolveSigns | medu_neTcher_render.py:14-20 | the loop gives one piece per requested code, in request order, each the code's lookup (the same loop is at medu_netcher_render2.py:13-19) |
| Render.RenderText | medu_neTcher_render.py:47-55 | the text is `title + "\n"` only for a non-empty title, then the pieces joined by `"\n"` in vertical mode or by `""` otherwise |
| Render.RenderConcat | medu_netcher_render2.py:20-32 | the output is the pieces concatenated in order |
| Render.VerticalLines | medu_neTcher_render.py:48-52 | without newlines in the title and the glyphs, vertical output splits into the title, if any, then one line per requested code |
| Render.ConcatLength | medu_netcher_render2.py:14-20 | no separator is inserted, and the output has at least one character per requested code |
| Render.ParseCodes | medu_neTcher_render.py:72 | code k is the k-th comma-separated piece of the argument, stripped, so there is one more code than commas, and no code holds a comma or surrounding whitespace (the same parse is at medu_netcher_render2.py:45) |
| Render.ParseCodesEmpty | medu_neTcher_render.py:72 | an empty argument gives `[""]` |
| Render.ParseCodesRoundTrip | medu_neTcher_render.py:72 | stripped codes without commas, written comma-separated, parse back to themselves |
| CatalogText.GenerateCatalog | generate_catalog.py:13-25 | the written text is the catalog: one block per category, in first-seen order, with a missing category counted as `Uncategorized`, and each block's entries in input order |
| CatalogText.EntryLinesStep | generate_catalog.py:22-24 | each entry adds its line after the lines before it |
| CatalogText.BlocksStep | generate_catalog.py:20-25 | each category adds its header, its entry lines and a blank line after the blocks before it |
| CatalogText.EntryLineCount | generate_catalog.py:24 | an entry line with single-line fields is one line |
| CatalogText.EntryLinesCount | generate_catalog.py:22-24 | a group writes one line per entry |
| CatalogText.HeaderLineCount | generate_catalog.py:21 | the header of a single-line category is one line |
| CatalogText.BlocksAppend | generate_catalog.py:20-25 | one more category adds its block after the blocks of the categories before it |
| CatalogText.BlockCount | generate_catalog.py:20-25 | the block of a single-line category has one line per entry of its group, plus its header and blank lines |
| CatalogText.BlocksCount | generate_catalog.py:20-25 | the blocks of some categories have as many lines as their entries, plus two per category |
| CatalogText.CatalogLineCount | generate_catalog.py:20-25 | the catalog has one line per entry plus two per category |
| CatalogText.EntryLineFields | generate_catalog.py:24 | when none of code, glyph and description holds a tab, an entry line is a newline-terminated line that splits at tabs into code, glyph and description (`""` when missing). A description can hold a tab, and then the line splits into more fields |

## Left out

- File discovery (`os.listdir`) and reading (`load_dataset`) are not modelled. Each file is a `Source`: its name and its raw lines, or `None` when reading raised. Files come in the order given.
- The model recognises only `0`-`9` as digits. Python's `\d` also matches non-ASCII decimal digits, which `int()` reads. `isdigit()` accepts those and also other digit characters such as `²`, which `int()` rejects. So on lines holding such characters the header test and the sort key of the scripts differ from the model's. `isspace()`/`strip()`/`split()` use Python's exact whitespace set.
- The `unicode_escape` codec is foreign. It is a function parameter `escape` of the parser.
- `os.path.join` is kept as a pair of directory and file name (`Export.FilePath`). Separators and absolute names are not modelled.
- The JSON, CSV and ZIP writers are not modelled. The model stops at the values they receive. These are left out:
  - the skipping of missing files when zipping;
  - the summary report, with the archive size in float megabytes.
- Image rendering with PIL and font fallback, and the SVG branches of both renderers, are not modelled: they are graphics with float scale factors.
- Logging, progress output, the idle-time log, `print`, `argparse` and `os.makedirs` are not modelled: they are I/O with no decision logic.
- `generate_template1.py`, `TestseSh_medu.py`, `test_file_access.py`, `test_txt_read.py` and the preview loop at mdw_nTr11.py:57-70 are not modelled: they are I/O with no decision logic.
- The older pipeline versions `mdw_nTr2).py`, `mdw_nTr5 .py` and `mdw_nTr7 .py` are not part of this model.
- CatalogParser.SignCatalog.ParseLines: requires that the file's cursor walk does not end on a last non-header line. On such a file the Python loop never exits, and a method that never returns cannot be written here. That case is modelled by `Step`, `Run`, `StuckForever`, `DanglingNeverExits` and `TerminatesIff` instead.
- Signs.SplitGlyphLine: on a blank glyph line the scripts would raise `IndexError`. The model returns two empty strings. The read step never lets a blank line through, so this case does not arise.
- Render.SignMap: JSON entries without a `code` or `glyph` key raise `KeyError` in the scripts. The model's entries always have both, and glyphs are strings.
- CatalogText.GenerateCatalog: entries without `code` or `glyph` raise `KeyError`, and non-string JSON values are formatted with `str()`. The model's fields are strings, and only `category` and `description` may be missing.
- `gardiner_sort_key` is never called for sorting in the scripts, so no sorted order is modelled. Only the key is modelled.
