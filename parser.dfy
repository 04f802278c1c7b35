/**
 * The text-catalog parse loop, identical in the three pipeline scripts: a cursor
 * walks the cleaned lines of one file; a header line sets the current category,
 * any other line is a code paired with the line after it; a record is kept only
 * when its code has not been seen, in this file or an earlier one.
 *
 * `Step` is one pass of the loop body as written, `Run` repeats it while the loop
 * guard holds. When the cursor reaches a last line that is not a header, neither
 * branch moves it, so the loop never exits: `Dangles` says when that happens.
 * `Candidates` lists every record the pairs of a file form, `Dedup` keeps the
 * first occurrence of each new code; the imperative `SignCatalog` is proved to
 * produce exactly `Dedup` of the candidates.
 */
module CatalogParser {
  import opened Wrappers
  import opened Text
  import opened Signs

  /** The loop's variables: cursor, current category, the shared seen-code set and the output list. */
  datatype Cursor = Cursor(i: nat, category: Option<string>, seen: set<string>, out: seq<SignRecord>)

  /** Builds the entry dict from a code line, the glyph line after it and the current category. */
  type EntryBuilder = (string, string, Option<string>) -> SignRecord

  /** The entry dict of the scripts, for the file being read and the given `unicode_escape` codec. */
  function Entry(filename: string, escape: string -> string): EntryBuilder
  {
    (code, glyphLine, category) => MakeRecord(code, glyphLine, category, filename, escape)
  }

  /** The entry's code is the code line it was built from. */
  ghost predicate KeepsCode(build: EntryBuilder)
  {
    forall code, glyphLine, category :: build(code, glyphLine, category).code == code
  }

  lemma EntryKeepsCode(filename: string, escape: string -> string)
    ensures KeepsCode(Entry(filename, escape))
  {
  }

  /**
   * One pass of the loop body at a cursor inside the file. A header moves the
   * cursor by one and becomes the category; a code line with a next line moves it
   * by two, adds the code to the seen set and appends the entry exactly when the
   * code was not seen; a last, non-header line changes nothing at all.
   */
  function Step(lines: seq<string>, build: EntryBuilder, s: Cursor): (t: Cursor)
    requires s.i < |lines|
    ensures t.i == s.i + 1 <==> IsHeader(lines[s.i])
    ensures t.i == s.i + 2 <==> !IsHeader(lines[s.i]) && s.i + 1 < |lines|
    ensures t.i == s.i <==> !IsHeader(lines[s.i]) && s.i + 1 == |lines|
    ensures t.i == s.i ==> t == s
    ensures t.category == if IsHeader(lines[s.i]) then Some(lines[s.i]) else s.category
    ensures t.seen == if t.i == s.i + 2 then s.seen + {lines[s.i]} else s.seen
    ensures if t.i == s.i + 2 && lines[s.i] !in s.seen
            then s.i + 1 < |lines| && t.out == s.out + [build(lines[s.i], lines[s.i + 1], s.category)]
            else t.out == s.out
  {
    var line := lines[s.i];
    if IsHeader(line) then
      s.(i := s.i + 1, category := Some(line))
    else if s.i + 1 < |lines| then
      var entry := build(line, lines[s.i + 1], s.category);
      var kept := if line !in s.seen then s.(out := s.out + [entry], seen := s.seen + {line}) else s;
      kept.(i := s.i + 2)
    else
      s
  }

  /** `Step` repeated `n` times, or until the loop guard `i < len(lines)` fails. */
  function Run(lines: seq<string>, build: EntryBuilder, s: Cursor, n: nat): Cursor
    decreases n
  {
    if n == 0 || s.i >= |lines| then s else Run(lines, build, Step(lines, build, s), n - 1)
  }

  /** The cursor walk from `i` lands on a last line that is not a header. */
  predicate Dangles(lines: seq<string>, i: nat)
    decreases |lines| - i
  {
    if i >= |lines| then false
    else if IsHeader(lines[i]) then Dangles(lines, i + 1)
    else if i + 1 < |lines| then Dangles(lines, i + 2)
    else true
  }

  /** On a last, non-header line the loop body changes nothing, however often it runs. */
  lemma {:induction false} StuckForever(lines: seq<string>, build: EntryBuilder, s: Cursor, n: nat)
    requires s.i + 1 == |lines| && !IsHeader(lines[s.i])
    ensures Run(lines, build, s, n) == s
  {
    if n > 0 {
      StuckForever(lines, build, s, n - 1);
    }
  }

  /** From a dangling cursor the loop guard stays true after any number of iterations. */
  lemma {:induction false} DanglingNeverExits(lines: seq<string>, build: EntryBuilder, s: Cursor, n: nat)
    requires Dangles(lines, s.i)
    ensures Run(lines, build, s, n).i < |lines|
    decreases n
  {
    if n > 0 {
      var t := Step(lines, build, s);
      if IsHeader(lines[s.i]) {
        assert t.i == s.i + 1;
      } else if s.i + 1 < |lines| {
        assert t.i == s.i + 2;
      } else {
        assert t == s;
      }
      DanglingNeverExits(lines, build, t, n - 1);
    }
  }

  /**
   * Every entry the pairs of a file form from cursor `i` on, in line order,
   * before deduplication; `category` is the current category at `i`.
   */
  function Candidates(lines: seq<string>, build: EntryBuilder, i: nat, category: Option<string>): seq<SignRecord>
    requires i <= |lines| && !Dangles(lines, i)
    decreases |lines| - i
  {
    if i == |lines| then []
    else if IsHeader(lines[i]) then Candidates(lines, build, i + 1, Some(lines[i]))
    else [build(lines[i], lines[i + 1], category)] + Candidates(lines, build, i + 2, category)
  }

  /** The set of codes of a record list. */
  function Codes(rs: seq<SignRecord>): set<string>
  {
    set k | 0 <= k < |rs| :: rs[k].code
  }

  predicate DistinctCodes(rs: seq<SignRecord>)
  {
    forall j, k :: 0 <= j < k < |rs| ==> rs[j].code != rs[k].code
  }

  /** Keeps, in order, each record whose code is neither in `seen` nor on an earlier record. */
  function Dedup(seen: set<string>, cs: seq<SignRecord>): seq<SignRecord>
    decreases |cs|
  {
    if cs == [] then []
    else (if cs[0].code in seen then [] else [cs[0]]) + Dedup(seen + {cs[0].code}, cs[1..])
  }

  /** `cs[p]` is the first record in `cs` with its code, and that code is not in `seen`. */
  predicate IsFirstNew(seen: set<string>, cs: seq<SignRecord>, p: nat)
    requires p < |cs|
  {
    cs[p].code !in seen && forall q :: 0 <= q < p ==> cs[q].code != cs[p].code
  }

  lemma CodesAppend(a: seq<SignRecord>, b: seq<SignRecord>)
    ensures Codes(a + b) == Codes(a) + Codes(b)
  {
    forall x | x in Codes(a + b) ensures x in Codes(a) + Codes(b) {
      var k :| 0 <= k < |a + b| && (a + b)[k].code == x;
      if k < |a| {
        assert a[k].code == x;
      } else {
        assert b[k - |a|].code == x;
      }
    }
    forall x | x in Codes(a) ensures x in Codes(a + b) {
      var k :| 0 <= k < |a| && a[k].code == x;
      assert (a + b)[k].code == x;
    }
    forall x | x in Codes(b) ensures x in Codes(a + b) {
      var k :| 0 <= k < |b| && b[k].code == x;
      assert (a + b)[|a| + k].code == x;
    }
  }

  lemma CodesSingle(r: SignRecord)
    ensures Codes([r]) == {r.code}
  {
    assert [r][0].code == r.code;
  }

  lemma DedupCons(seen: set<string>, c: SignRecord, rest: seq<SignRecord>)
    ensures Dedup(seen, [c] + rest) == (if c.code in seen then [] else [c]) + Dedup(seen + {c.code}, rest)
  {
    assert ([c] + rest)[1..] == rest;
  }

  /**
   * Deduplication runs left to right: what a later part keeps is judged against
   * the codes of everything before it.
   */
  lemma {:induction false} DedupAppend(seen: set<string>, a: seq<SignRecord>, b: seq<SignRecord>)
    ensures Dedup(seen, a + b) == Dedup(seen, a) + Dedup(seen + Codes(a), b)
    decreases |a|
  {
    if a == [] {
      assert a + b == b;
      assert Codes(a) == {} && Dedup(seen, a) == [];
      assert seen + Codes(a) == seen;
    } else {
      var c, tail := a[0], a[1..];
      var head := if c.code in seen then [] else [c];
      assert a + b == [c] + (tail + b);
      DedupCons(seen, c, tail + b);
      DedupAppend(seen + {c.code}, tail, b);
      assert a == [c] + tail;
      DedupCons(seen, c, tail);
      CodesCons(seen, c, tail);
      assert Dedup(seen, a + b) == head + (Dedup(seen + {c.code}, tail) + Dedup(seen + Codes(a), b));
    }
  }

  lemma CodesCons(seen: set<string>, c: SignRecord, tail: seq<SignRecord>)
    ensures seen + {c.code} + Codes(tail) == seen + Codes([c] + tail)
  {
    CodesAppend([c], tail);
    CodesSingle(c);
  }

  /**
   * What deduplication keeps: codes pairwise distinct and not in `seen`, and
   * exactly the codes of the input that were not seen.
   */
  lemma {:induction false} DedupCodes(seen: set<string>, cs: seq<SignRecord>)
    ensures DistinctCodes(Dedup(seen, cs))
    ensures Codes(Dedup(seen, cs)) == Codes(cs) - seen
    ensures forall k :: 0 <= k < |Dedup(seen, cs)| ==> Dedup(seen, cs)[k].code !in seen
    decreases |cs|
  {
    if cs != [] {
      var c := cs[0];
      var seen' := seen + {c.code};
      var rest := Dedup(seen', cs[1..]);
      DedupCodes(seen', cs[1..]);
      assert Dedup(seen, cs) == (if c.code in seen then [] else [c]) + rest;
      CodesAppend([c], cs[1..]);
      CodesSingle(c);
      assert cs == [c] + cs[1..];
      if c.code in seen {
        assert Dedup(seen, cs) == rest;
      } else {
        PrependNew(seen, c, rest);
      }
    }
  }

  /** A record with an unseen code, put before records whose codes are neither seen nor its own. */
  lemma PrependNew(seen: set<string>, c: SignRecord, rest: seq<SignRecord>)
    requires c.code !in seen && DistinctCodes(rest)
    requires forall k :: 0 <= k < |rest| ==> rest[k].code !in seen + {c.code}
    ensures DistinctCodes([c] + rest)
    ensures forall k :: 0 <= k < |[c] + rest| ==> ([c] + rest)[k].code !in seen
    ensures Codes([c] + rest) == {c.code} + Codes(rest)
  {
    CodesAppend([c], rest);
    CodesSingle(c);
    var d := [c] + rest;
    forall j, k | 0 <= j < k < |d| ensures d[j].code != d[k].code {
      assert d[k] == rest[k - 1];
      if j > 0 {
        assert d[j] == rest[j - 1];
      }
    }
    forall k | 0 <= k < |d| ensures d[k].code !in seen {
      if k > 0 {
        assert d[k] == rest[k - 1];
      }
    }
  }

  /**
   * Where the `j`-th kept record comes from: a position `p` whose record it is,
   * the first in the input with its code, and that code was not seen.
   */
  lemma {:induction false} DedupSource(seen: set<string>, cs: seq<SignRecord>, j: nat) returns (p: nat)
    requires j < |Dedup(seen, cs)|
    ensures p < |cs| && Dedup(seen, cs)[j] == cs[p] && IsFirstNew(seen, cs, p)
    decreases |cs|
  {
    var c := cs[0];
    var seen' := seen + {c.code};
    var head := if c.code in seen then [] else [c];
    assert Dedup(seen, cs) == head + Dedup(seen', cs[1..]);
    if j < |head| {
      p := 0;
    } else {
      var p' := DedupSource(seen', cs[1..], j - |head|);
      p := p' + 1;
      assert cs[p] == cs[1..][p'];
      forall q | 0 <= q < p ensures cs[q].code != cs[p].code {
        if q > 0 {
          assert cs[q] == cs[1..][q - 1];
        }
      }
    }
  }

  /** `r` is the record at a position of `cs` that holds the first occurrence of a code not in `seen`. */
  predicate FirstNewFrom(seen: set<string>, cs: seq<SignRecord>, r: SignRecord)
  {
    exists p :: 0 <= p < |cs| && r == cs[p] && IsFirstNew(seen, cs, p)
  }

  /** Every kept record is the first record in the input with its code, and that code was not seen: the first occurrence wins. */
  lemma DedupFirstWins(seen: set<string>, cs: seq<SignRecord>)
    ensures forall j :: 0 <= j < |Dedup(seen, cs)| ==> FirstNewFrom(seen, cs, Dedup(seen, cs)[j])
  {
    forall j | 0 <= j < |Dedup(seen, cs)| ensures FirstNewFrom(seen, cs, Dedup(seen, cs)[j]) {
      var p := DedupSource(seen, cs, j);
    }
  }

  /** `a` is `b` with some records left out: the records of `a` appear in `b` in the same order. */
  predicate SubsequenceOf(a: seq<SignRecord>, b: seq<SignRecord>)
    decreases |b|
  {
    a == [] || (b != [] && ((a[0] == b[0] && SubsequenceOf(a[1..], b[1..])) || SubsequenceOf(a, b[1..])))
  }

  /** Deduplication only drops records: what it keeps stays in input order. */
  lemma {:induction false} DedupInOrder(seen: set<string>, cs: seq<SignRecord>)
    ensures SubsequenceOf(Dedup(seen, cs), cs)
    decreases |cs|
  {
    if cs != [] {
      var c, seen' := cs[0], seen + {cs[0].code};
      var rest := Dedup(seen', cs[1..]);
      DedupInOrder(seen', cs[1..]);
      if c.code in seen {
        assert Dedup(seen, cs) == rest;
      } else {
        assert Dedup(seen, cs) == [c] + rest;
        assert ([c] + rest)[1..] == rest;
      }
    }
  }

  /** The position of the first record in `cs` with code `code`, or `|cs|` when no record has it. */
  function FirstIndex(cs: seq<SignRecord>, code: string): (p: nat)
    ensures p <= |cs|
    ensures p < |cs| ==> cs[p].code == code
    decreases |cs|
  {
    if cs == [] then 0 else if cs[0].code == code then 0 else 1 + FirstIndex(cs[1..], code)
  }

  /** No record before `FirstIndex` has the code, and the code is found exactly when some record has it. */
  lemma {:induction false} FirstIndexFirst(cs: seq<SignRecord>, code: string)
    ensures forall q :: 0 <= q < FirstIndex(cs, code) ==> cs[q].code != code
    ensures FirstIndex(cs, code) < |cs| <==> code in Codes(cs)
    decreases |cs|
  {
    if cs != [] && cs[0].code != code {
      FirstIndexFirst(cs[1..], code);
      forall q | 0 < q < FirstIndex(cs, code) ensures cs[q].code != code {
        assert cs[q] == cs[1..][q - 1];
      }
      CodesCons({}, cs[0], cs[1..]);
      assert cs == [cs[0]] + cs[1..];
    }
  }

  /** Records ordered by the position at which their code first occurs in `cs`. */
  predicate OrderedByFirst(cs: seq<SignRecord>, d: seq<SignRecord>)
  {
    forall j1, j2 :: 0 <= j1 < j2 < |d| ==> FirstIndex(cs, d[j1].code) < FirstIndex(cs, d[j2].code)
  }

  /**
   * The kept records come in the order in which their codes first occur in the
   * input: a record kept earlier has a code that occurs first at a smaller position.
   */
  lemma {:induction false} DedupFirstIndexOrder(seen: set<string>, cs: seq<SignRecord>)
    ensures OrderedByFirst(cs, Dedup(seen, cs))
    decreases |cs|
  {
    if cs != [] {
      var c, seen' := cs[0], seen + {cs[0].code};
      var rest := Dedup(seen', cs[1..]);
      var d := Dedup(seen, cs);
      DedupFirstIndexOrder(seen', cs[1..]);
      DedupCodes(seen', cs[1..]);
      assert d == (if c.code in seen then [] else [c]) + rest;
      forall j1, j2 | 0 <= j1 < j2 < |d| ensures FirstIndex(cs, d[j1].code) < FirstIndex(cs, d[j2].code) {
        ShiftedIndex(seen', cs, rest, j2 - (|d| - |rest|));
        if j1 >= |d| - |rest| {
          ShiftedIndex(seen', cs, rest, j1 - (|d| - |rest|));
        }
      }
    }
  }

  /** A record kept past the first input record sits one position further in `cs` than in `cs[1..]`. */
  lemma ShiftedIndex(seen': set<string>, cs: seq<SignRecord>, rest: seq<SignRecord>, k: int)
    requires cs != [] && cs[0].code in seen' && 0 <= k < |rest|
    requires forall i :: 0 <= i < |rest| ==> rest[i].code !in seen'
    ensures FirstIndex(cs, rest[k].code) == 1 + FirstIndex(cs[1..], rest[k].code)
  {
    assert rest[k].code != cs[0].code;
  }

  /**
   * An independent description of the deduplicated list: its codes are exactly
   * the unseen codes of `cs`, each record is the first record of `cs` with its
   * code, and the records are ordered by the position of that first occurrence.
   */
  predicate FirstOccurrenceList(seen: set<string>, cs: seq<SignRecord>, d: seq<SignRecord>)
  {
    && Codes(d) == Codes(cs) - seen
    && (forall j :: 0 <= j < |d| ==>
          d[j].code !in seen && FirstIndex(cs, d[j].code) < |cs| && d[j] == cs[FirstIndex(cs, d[j].code)])
    && OrderedByFirst(cs, d)
  }

  lemma CodesEmpty(rs: seq<SignRecord>)
    ensures Codes(rs) == {} <==> rs == []
  {
    if rs != [] {
      assert rs[0].code in Codes(rs);
    }
  }

  /** Past the first record, first positions of the other codes move down by one. */
  lemma FirstIndexTail(cs: seq<SignRecord>, code: string)
    requires cs != [] && code != cs[0].code
    ensures FirstIndex(cs, code) == 1 + FirstIndex(cs[1..], code)
  {
  }

  /** A first-occurrence list of `cs` whose codes avoid the first record's code is one of `cs[1..]`. */
  lemma FirstOccurrenceTail(seen: set<string>, cs: seq<SignRecord>, e: seq<SignRecord>)
    requires cs != []
    requires Codes(e) == Codes(cs) - (seen + {cs[0].code})
    requires forall j :: 0 <= j < |e| ==>
               e[j].code !in seen + {cs[0].code} && FirstIndex(cs, e[j].code) < |cs| && e[j] == cs[FirstIndex(cs, e[j].code)]
    requires OrderedByFirst(cs, e)
    ensures FirstOccurrenceList(seen + {cs[0].code}, cs[1..], e)
  {
    var seen', tail := seen + {cs[0].code}, cs[1..];
    CodesPastFirst(seen', cs);
    forall j | 0 <= j < |e|
      ensures FirstIndex(cs, e[j].code) == 1 + FirstIndex(tail, e[j].code)
      ensures FirstIndex(tail, e[j].code) < |tail| && e[j] == tail[FirstIndex(tail, e[j].code)]
    {
      FirstIndexTail(cs, e[j].code);
    }
    assert OrderedByFirst(tail, e);
  }

  /** Once the first record's code is seen, the unseen codes are those of the rest. */
  lemma CodesPastFirst(seen': set<string>, cs: seq<SignRecord>)
    requires cs != [] && cs[0].code in seen'
    ensures Codes(cs) - seen' == Codes(cs[1..]) - seen'
  {
    CodesCons({}, cs[0], cs[1..]);
    assert cs == [cs[0]] + cs[1..];
  }

  /** The deduplicated list meets the independent description. */
  lemma DedupFirstOccurrence(seen: set<string>, cs: seq<SignRecord>)
    ensures FirstOccurrenceList(seen, cs, Dedup(seen, cs))
  {
    var d := Dedup(seen, cs);
    DedupCodes(seen, cs);
    DedupFirstIndexOrder(seen, cs);
    forall j | 0 <= j < |d|
      ensures FirstIndex(cs, d[j].code) < |cs| && d[j] == cs[FirstIndex(cs, d[j].code)]
    {
      var p := DedupSource(seen, cs, j);
      FirstIndexFirst(cs, d[j].code);
      assert FirstIndex(cs, d[j].code) == p;
    }
  }

  /** No other list meets the description: it characterises deduplication. */
  lemma {:induction false} DedupUnique(seen: set<string>, cs: seq<SignRecord>, d: seq<SignRecord>)
    requires FirstOccurrenceList(seen, cs, d)
    ensures d == Dedup(seen, cs)
    decreases |cs|
  {
    if cs == [] {
      CodesEmpty(d);
    } else {
      var c, seen' := cs[0], seen + {cs[0].code};
      assert c.code in Codes(cs);
      if c.code in seen {
        assert seen' == seen;
        FirstOccurrenceTail(seen, cs, d);
        DedupUnique(seen', cs[1..], d);
      } else {
        assert c.code in Codes(d);
        var j :| 0 <= j < |d| && d[j].code == c.code;
        assert FirstIndex(cs, d[0].code) <= FirstIndex(cs, d[j].code);
        assert d[0] == c;
        var e := d[1..];
        assert d == [c] + e;
        forall k | 0 <= k < |e| ensures e[k].code != c.code && FirstIndex(cs, e[k].code) > 0 {
          assert e[k] == d[k + 1];
        }
        CodesCons({}, c, e);
        assert Codes(d) == {c.code} + Codes(e);
        assert Codes(e) == Codes(d) - {c.code};
        FirstOccurrenceTail(seen, cs, e);
        DedupUnique(seen', cs[1..], e);
      }
    }
  }

  /** Records whose codes have all been seen contribute nothing. */
  lemma {:induction false} DedupAllSeen(seen: set<string>, cs: seq<SignRecord>)
    requires Codes(cs) <= seen
    ensures Dedup(seen, cs) == []
    decreases |cs|
  {
    if cs != [] {
      assert cs[0].code in Codes(cs);
      CodesAppend([cs[0]], cs[1..]);
      assert cs == [cs[0]] + cs[1..];
      DedupAllSeen(seen + {cs[0].code}, cs[1..]);
    }
  }

  /** Reading the same records twice in one run keeps only the first reading's records. */
  lemma DedupTwice(seen: set<string>, cs: seq<SignRecord>)
    ensures Dedup(seen, cs + cs) == Dedup(seen, cs)
  {
    DedupAppend(seen, cs, cs);
    DedupAllSeen(seen + Codes(cs), cs);
  }

  /** Appending a record with a new code keeps the codes distinct. */
  lemma AppendNew(rs: seq<SignRecord>, r: SignRecord)
    requires DistinctCodes(rs) && r.code !in Codes(rs)
    ensures DistinctCodes(rs + [r]) && Codes(rs + [r]) == Codes(rs) + {r.code}
  {
    CodesAppend(rs, [r]);
    CodesSingle(r);
    forall j | 0 <= j < |rs| ensures rs[j].code != r.code {
      assert rs[j].code in Codes(rs);
    }
  }

  /** One entry followed by more: kept when new, skipped when seen, and its code joins the seen set either way. */
  lemma KeepOrSkip(out: seq<SignRecord>, seen: set<string>, r: SignRecord, rest: seq<SignRecord>)
    ensures (if r.code in seen then out else out + [r]) + Dedup(seen + {r.code}, rest) == out + Dedup(seen, [r] + rest)
    ensures seen + {r.code} + Codes(rest) == seen + Codes([r] + rest)
  {
    DedupCons(seen, r, rest);
    CodesAppend([r], rest);
    CodesSingle(r);
    if r.code !in seen {
      assert out + [r] + Dedup(seen + {r.code}, rest) == out + ([r] + Dedup(seen + {r.code}, rest));
    }
  }

  /**
   * Running the loop body from a cursor that does not dangle leaves the loop, with
   * the cursor at the end of the file, after at most one iteration per remaining
   * line; what it appends is the deduplicated candidates, and every candidate
   * code ends up in the seen set.
   */
  lemma {:induction false} RunFinishes(lines: seq<string>, build: EntryBuilder, s: Cursor, n: nat)
    requires KeepsCode(build) && s.i <= |lines| && !Dangles(lines, s.i) && n >= |lines| - s.i
    ensures var t, cs := Run(lines, build, s, n), Candidates(lines, build, s.i, s.category);
            && t.i == |lines|
            && t.out == s.out + Dedup(s.seen, cs)
            && t.seen == s.seen + Codes(cs)
    decreases |lines| - s.i
  {
    if s.i == |lines| {
      assert Run(lines, build, s, n) == s;
      assert s.out + [] == s.out;
      assert Codes([]) == {};
    } else {
      var t := Step(lines, build, s);
      var line := lines[s.i];
      assert Run(lines, build, s, n) == Run(lines, build, t, n - 1);
      RunFinishes(lines, build, t, n - 1);
      if !IsHeader(line) {
        var rest := Candidates(lines, build, s.i + 2, s.category);
        assert Candidates(lines, build, s.i, s.category) == [build(line, lines[s.i + 1], s.category)] + rest;
        KeepOrSkip(s.out, s.seen, build(line, lines[s.i + 1], s.category), rest);
      }
    }
  }

  /** The parse loop over a file exits exactly when its cursor walk does not dangle. */
  lemma TerminatesIff(lines: seq<string>, build: EntryBuilder, s: Cursor)
    requires KeepsCode(build) && s.i <= |lines|
    ensures (exists n: nat :: Run(lines, build, s, n).i >= |lines|) <==> !Dangles(lines, s.i)
  {
    if Dangles(lines, s.i) {
      forall n: nat ensures Run(lines, build, s, n).i < |lines| {
        DanglingNeverExits(lines, build, s, n);
      }
    } else {
      RunFinishes(lines, build, s, |lines| - s.i);
    }
  }

  /**
   * What an entry of a cleaned file holds: a code that is a non-header line, a
   * non-empty glyph without whitespace, and a category that is a header line (so
   * it holds `-` and no digit) or, before any header of the file, the file name
   * with `.txt` removed.
   */
  predicate WellFormedEntry(c: SignRecord, filename: string)
  {
    && c.code != [] && !IsHeader(c.code)
    && c.glyph != [] && !HasSpace(c.glyph)
    && (IsHeader(c.category) || c.category == CategoryName(None, filename))
  }

  lemma EntryShape(code: string, glyphLine: string, category: Option<string>, filename: string, escape: string -> string)
    requires IsCleanLine(code) && !IsHeader(code) && IsCleanLine(glyphLine)
    requires category.None? || IsHeader(category.value)
    ensures WellFormedEntry(Entry(filename, escape)(code, glyphLine, category), filename)
  {
    RecordFromLines(code, glyphLine, category, filename, escape);
  }

  /** Every entry the pairs of a cleaned file form is well formed. */
  lemma {:induction false} CandidatesShape(lines: seq<string>, filename: string, escape: string -> string, i: nat,
                                           category: Option<string>)
    requires AllClean(lines) && i <= |lines| && !Dangles(lines, i)
    requires category.None? || IsHeader(category.value)
    ensures forall k :: 0 <= k < |Candidates(lines, Entry(filename, escape), i, category)| ==>
              WellFormedEntry(Candidates(lines, Entry(filename, escape), i, category)[k], filename)
    decreases |lines| - i
  {
    if i < |lines| {
      if IsHeader(lines[i]) {
        CandidatesShape(lines, filename, escape, i + 1, Some(lines[i]));
      } else {
        var r := Entry(filename, escape)(lines[i], lines[i + 1], category);
        var rest := Candidates(lines, Entry(filename, escape), i + 2, category);
        assert Candidates(lines, Entry(filename, escape), i, category) == [r] + rest;
        CandidatesShape(lines, filename, escape, i + 2, category);
        EntryShape(lines[i], lines[i + 1], category, filename, escape);
      }
    }
  }

  /** The positions at which the cursor stops, from `i` to the end of the file. */
  function Walk(lines: seq<string>, i: nat): (w: seq<nat>)
    requires i <= |lines| && !Dangles(lines, i)
    ensures forall m :: 0 <= m < |w| ==> i <= w[m] < |lines|
    decreases |lines| - i
  {
    if i == |lines| then []
    else [i] + Walk(lines, if IsHeader(lines[i]) then i + 1 else i + 2)
  }

  /** The last of the first `m` stops `w` that is a header line of `lines`, or `category` when none is. */
  function LatestHeader(lines: seq<string>, w: seq<nat>, m: nat, category: Option<string>): Option<string>
    requires m <= |w|
  {
    if m == 0 then category
    else if w[m - 1] < |lines| && IsHeader(lines[w[m - 1]]) then Some(lines[w[m - 1]])
    else LatestHeader(lines, w, m - 1, category)
  }

  /** Looking back over `[h] + w` is looking back over `w` from the category `h` leaves. */
  lemma {:induction false} LatestHeaderCons(lines: seq<string>, h: nat, w: seq<nat>, m: nat, category: Option<string>)
    requires h < |lines| && m <= |w|
    ensures LatestHeader(lines, [h] + w, m + 1, category)
            == LatestHeader(lines, w, m, if IsHeader(lines[h]) then Some(lines[h]) else category)
  {
    if m > 0 {
      assert ([h] + w)[m] == w[m - 1];
      LatestHeaderCons(lines, h, w, m - 1, category);
    }
  }

  /**
   * The `k`-th candidate of the walk from `i` comes from its `m`-th stop: a code
   * line that is not a header, the line after it, and as category the latest
   * header line among the stops before it, or the category the walk started with
   * when there is none. A header-shaped glyph line is not a stop, so it does not
   * count.
   */
  predicate Origin(lines: seq<string>, build: EntryBuilder, i: nat, category: Option<string>, k: nat, m: nat)
    requires i <= |lines| && !Dangles(lines, i) && k < |Candidates(lines, build, i, category)|
  {
    var w := Walk(lines, i);
    && m < |w| && !IsHeader(lines[w[m]]) && w[m] + 1 < |lines|
    && Candidates(lines, build, i, category)[k] == build(lines[w[m]], lines[w[m] + 1], LatestHeader(lines, w, m, category))
  }

  /** Every candidate of a file comes from a stop of the cursor walk, under the latest header before it. */
  lemma {:induction false} CandidateOrigin(lines: seq<string>, build: EntryBuilder, i: nat, category: Option<string>, k: nat)
    returns (m: nat)
    requires i <= |lines| && !Dangles(lines, i) && k < |Candidates(lines, build, i, category)|
    ensures Origin(lines, build, i, category, k, m)
    decreases |lines| - i
  {
    if !IsHeader(lines[i]) && k == 0 {
      m := 0;
    } else {
      var next := if IsHeader(lines[i]) then i + 1 else i + 2;
      var after := if IsHeader(lines[i]) then Some(lines[i]) else category;
      var k' := if IsHeader(lines[i]) then k else k - 1;
      CandidatesStep(lines, build, i, category, k, next, after, k');
      var m' := CandidateOrigin(lines, build, next, after, k');
      OriginStep(lines, build, i, category, k, next, after, k', m');
      m := m' + 1;
    }
  }

  /** Past the first stop, the `k`-th candidate from `i` is the `k'`-th from the next stop. */
  lemma CandidatesStep(lines: seq<string>, build: EntryBuilder, i: nat, category: Option<string>, k: nat,
                       next: nat, after: Option<string>, k': int)
    requires i < |lines| && !Dangles(lines, i) && k < |Candidates(lines, build, i, category)|
    requires IsHeader(lines[i]) || k > 0
    requires next == (if IsHeader(lines[i]) then i + 1 else i + 2)
    requires after == (if IsHeader(lines[i]) then Some(lines[i]) else category)
    requires k' == (if IsHeader(lines[i]) then k else k - 1)
    ensures next <= |lines| && !Dangles(lines, next)
    ensures 0 <= k' < |Candidates(lines, build, next, after)|
    ensures Candidates(lines, build, i, category)[k] == Candidates(lines, build, next, after)[k']
  {
    if !IsHeader(lines[i]) {
      var rest := Candidates(lines, build, i + 2, category);
      assert Candidates(lines, build, i, category) == [build(lines[i], lines[i + 1], category)] + rest;
    }
  }

  /** An origin in the walk from the next stop is an origin one stop later in the walk from `i`. */
  lemma OriginStep(lines: seq<string>, build: EntryBuilder, i: nat, category: Option<string>, k: nat,
                   next: nat, after: Option<string>, k': nat, m': nat)
    requires i < |lines| && !Dangles(lines, i) && k < |Candidates(lines, build, i, category)|
    requires next == (if IsHeader(lines[i]) then i + 1 else i + 2)
    requires after == (if IsHeader(lines[i]) then Some(lines[i]) else category)
    requires next <= |lines| && !Dangles(lines, next) && k' < |Candidates(lines, build, next, after)|
    requires Candidates(lines, build, i, category)[k] == Candidates(lines, build, next, after)[k']
    requires Origin(lines, build, next, after, k', m')
    ensures Origin(lines, build, i, category, k, m' + 1)
  {
    WalkStep(lines, i, next, m', category, after);
  }

  /**
   * The walk from `i` is `i` and then the walk from the next stop `next`: its stop
   * at `m + 1` is the next walk's stop at `m`, and the latest header before it is
   * the next walk's, starting from the category `after` that line `i` leaves.
   */
  lemma WalkStep(lines: seq<string>, i: nat, next: nat, m: nat, category: Option<string>, after: Option<string>)
    requires i < |lines| && !Dangles(lines, i)
    requires next == (if IsHeader(lines[i]) then i + 1 else i + 2)
    requires after == (if IsHeader(lines[i]) then Some(lines[i]) else category)
    requires m < |Walk(lines, next)|
    ensures m + 1 < |Walk(lines, i)| && Walk(lines, i)[m + 1] == Walk(lines, next)[m]
    ensures LatestHeader(lines, Walk(lines, i), m + 1, category) == LatestHeader(lines, Walk(lines, next), m, after)
  {
    assert Walk(lines, i) == [i] + Walk(lines, next);
    LatestHeaderCons(lines, i, Walk(lines, next), m, category);
  }

  /** A text source: its file name and its raw lines, or `None` when reading it raised. */
  datatype Source = Source(filename: string, content: Option<seq<string>>)

  /** The parse loop over this source exits (always so for a source that could not be read). */
  predicate Finishes(src: Source)
  {
    src.content.None? || !Dangles(CleanLines(src.content.value), 0)
  }

  /** The candidates of one source: none when reading failed, otherwise its lines' from a fresh `current_category`. */
  function SourceCandidates(src: Source, escape: string -> string): seq<SignRecord>
    requires Finishes(src)
  {
    match src.content
    case None => []
    case Some(raw) => Candidates(CleanLines(raw), Entry(src.filename, escape), 0, None)
  }

  /** The candidates of all sources, file after file. */
  function AllCandidates(sources: seq<Source>, escape: string -> string): seq<SignRecord>
    requires forall k :: 0 <= k < |sources| ==> Finishes(sources[k])
  {
    if sources == [] then []
    else AllCandidates(sources[..|sources| - 1], escape) + SourceCandidates(sources[|sources| - 1], escape)
  }

  /** Parsing `before` and then `here` gives what parsing `before + here` at once gives. */
  lemma ExtendRun(out: seq<SignRecord>, seen: set<string>, before: seq<SignRecord>, here: seq<SignRecord>)
    ensures out + Dedup(seen, before) + Dedup(seen + Codes(before), here) == out + Dedup(seen, before + here)
    ensures seen + Codes(before) + Codes(here) == seen + Codes(before + here)
  {
    DedupAppend(seen, before, here);
    CodesAppend(before, here);
  }

  lemma AllCandidatesNext(sources: seq<Source>, idx: nat, escape: string -> string)
    requires idx < |sources| && forall k :: 0 <= k < |sources| ==> Finishes(sources[k])
    ensures AllCandidates(sources[..idx + 1], escape)
            == AllCandidates(sources[..idx], escape) + SourceCandidates(sources[idx], escape)
  {
    assert sources[..idx + 1][..idx] == sources[..idx];
  }

  /**
   * The parse of a whole run, from an empty seen set: codes pairwise distinct,
   * every candidate code present, every kept record the first candidate with its
   * code, and the kept records in candidate order, so in file order and then line
   * order. The kept records are ordered by the position at which their code first
   * occurs among the candidates. These facts make up `FirstOccurrenceList`, and no
   * other list meets it, so they determine the parsed list completely.
   */
  lemma RunOutput(sources: seq<Source>, escape: string -> string)
    requires forall k :: 0 <= k < |sources| ==> Finishes(sources[k])
    ensures var cs := AllCandidates(sources, escape);
            && DistinctCodes(Dedup({}, cs))
            && Codes(Dedup({}, cs)) == Codes(cs)
            && (forall j :: 0 <= j < |Dedup({}, cs)| ==> FirstNewFrom({}, cs, Dedup({}, cs)[j]))
            && SubsequenceOf(Dedup({}, cs), cs)
            && OrderedByFirst(cs, Dedup({}, cs))
            && FirstOccurrenceList({}, cs, Dedup({}, cs))
            && (forall d :: FirstOccurrenceList({}, cs, d) ==> d == Dedup({}, cs))
  {
    var cs := AllCandidates(sources, escape);
    DedupCodes({}, cs);
    DedupFirstWins({}, cs);
    DedupInOrder({}, cs);
    DedupFirstIndexOrder({}, cs);
    DedupFirstOccurrence({}, cs);
    forall d | FirstOccurrenceList({}, cs, d) ensures d == Dedup({}, cs) {
      DedupUnique({}, cs, d);
    }
  }

  /** A source whose read failed adds no candidate, so the seen set is left as it was. */
  lemma ReadFailureSkipped(sources: seq<Source>, filename: string, escape: string -> string)
    requires forall k :: 0 <= k < |sources| ==> Finishes(sources[k])
    ensures AllCandidates(sources + [Source(filename, None)], escape) == AllCandidates(sources, escape)
  {
    assert (sources + [Source(filename, None)])[..|sources|] == sources;
  }

  /**
   * The parser's state: the output list and the seen-code set, both created once
   * before the file loop and updated in place by every file.
   */
  class SignCatalog {
    /** Python's `unicode_escape` codec, applied to each glyph. */
    const escape: string -> string
    var records: seq<SignRecord>
    var seenCodes: set<string>

    /** The seen set is exactly the codes of the kept records, and those are pairwise distinct. */
    ghost predicate Valid()
      reads this
    {
      seenCodes == Codes(records) && DistinctCodes(records)
    }

    constructor (escape: string -> string)
      ensures Valid() && this.escape == escape && records == [] && seenCodes == {}
    {
      this.escape := escape;
      records := [];
      seenCodes := {};
    }

    /**
     * The while loop over the cleaned lines of one file; `build` makes the entry
     * dict of that file (`Entry(filename, escape)`).
     */
    method ParseLines(lines: seq<string>, build: EntryBuilder)
      requires Valid() && KeepsCode(build) && !Dangles(lines, 0)
      modifies this
      ensures Valid()
      ensures records == old(records) + Dedup(old(seenCodes), Candidates(lines, build, 0, None))
      ensures seenCodes == old(seenCodes) + Codes(Candidates(lines, build, 0, None))
    {
      ghost var all := Candidates(lines, build, 0, None);
      var currentCategory: Option<string> := None;
      var i := 0;
      while i < |lines|
        invariant i <= |lines| && !Dangles(lines, i)
        invariant Valid()
        invariant records + Dedup(seenCodes, Candidates(lines, build, i, currentCategory))
                  == old(records) + Dedup(old(seenCodes), all)
        invariant seenCodes + Codes(Candidates(lines, build, i, currentCategory))
                  == old(seenCodes) + Codes(all)
        decreases |lines| - i
      {
        var line := lines[i];
        if IsHeader(line) {
          currentCategory := Some(line);
          i := i + 1;
          continue;
        }
        if i + 1 < |lines| {
          var code := line;
          var entry := build(code, lines[i + 1], currentCategory);
          ghost var rest := Candidates(lines, build, i + 2, currentCategory);
          assert Candidates(lines, build, i, currentCategory) == [entry] + rest;
          KeepOrSkip(records, seenCodes, entry, rest);
          if code !in seenCodes {
            AppendNew(records, entry);
            records := records + [entry];
            seenCodes := seenCodes + {code};
          } else {
            assert seenCodes + {code} == seenCodes;
          }
          i := i + 2;
        }
      }
      assert records + [] == records;
    }

    /** One file: skipped when reading it raised, otherwise read, cleaned and parsed. */
    method ParseSource(src: Source)
      requires Valid() && Finishes(src)
      modifies this
      ensures Valid()
      ensures records == old(records) + Dedup(old(seenCodes), SourceCandidates(src, escape))
      ensures seenCodes == old(seenCodes) + Codes(SourceCandidates(src, escape))
    {
      match src.content
      case None =>
        assert old(records) + [] == old(records);
      case Some(raw) =>
        var lines := CleanLines(raw);
        EntryKeepsCode(src.filename, escape);
        ParseLines(lines, Entry(src.filename, escape));
    }

    /** The loop over all `.txt` files, in the order given. */
    method ParseSources(sources: seq<Source>)
      requires Valid() && forall k :: 0 <= k < |sources| ==> Finishes(sources[k])
      modifies this
      ensures Valid()
      ensures records == old(records) + Dedup(old(seenCodes), AllCandidates(sources, escape))
      ensures seenCodes == old(seenCodes) + Codes(AllCandidates(sources, escape))
    {
      for idx := 0 to |sources|
        invariant Valid()
        invariant records == old(records) + Dedup(old(seenCodes), AllCandidates(sources[..idx], escape))
        invariant seenCodes == old(seenCodes) + Codes(AllCandidates(sources[..idx], escape))
      {
        ghost var before := AllCandidates(sources[..idx], escape);
        ghost var here := SourceCandidates(sources[idx], escape);
        ParseSource(sources[idx]);
        AllCandidatesNext(sources, idx, escape);
        ExtendRun(old(records), old(seenCodes), before, here);
      }
      assert sources[..|sources|] == sources;
    }
  }
}
