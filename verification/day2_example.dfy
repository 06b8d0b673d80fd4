/** The worked example of `src/day2.rs`: six reports, two of them safe and
    four of them safe once one level is removed. */
module Day2Example {
  import opened Results
  import opened Bytes
  import opened Parsers
  import opened Seqs
  import opened Day2

  const Reports: seq<seq<int>> := [
    [7, 6, 4, 2, 1], [1, 2, 7, 8, 9], [9, 7, 6, 2, 1],
    [1, 3, 2, 4, 5], [8, 6, 4, 4, 1], [1, 3, 6, 7, 9]]

  /** The five ways of removing one level from a five-level report. */
  lemma RemoveFromFive(a: int, b: int, c: int, d: int, e: int)
    ensures Without([a, b, c, d, e], 0) == [b, c, d, e]
    ensures Without([a, b, c, d, e], 1) == [a, c, d, e]
    ensures Without([a, b, c, d, e], 2) == [a, b, d, e]
    ensures Without([a, b, c, d, e], 3) == [a, b, c, e]
    ensures Without([a, b, c, d, e], 4) == [a, b, c, d]
  {
    var r := [a, b, c, d, e];
    assert Without(r, 0) == [b, c, d, e];
    assert Without(r, 1) == [a, c, d, e];
    assert Without(r, 2) == [a, b, d, e];
    assert Without(r, 3) == [a, b, c, e];
  }

  /** A five-level report none of whose removals is safe. */
  lemma NotTolerantFive(a: int, b: int, c: int, d: int, e: int)
    requires !IsSafe([b, c, d, e]) && !IsSafe([a, c, d, e]) && !IsSafe([a, b, d, e])
    requires !IsSafe([a, b, c, e]) && !IsSafe([a, b, c, d])
    ensures !Tolerant([a, b, c, d, e])
  {
    RemoveFromFive(a, b, c, d, e);
    var r := [a, b, c, d, e];
    forall i | 0 <= i < 5 ensures !IsSafe(Without(r, i)) {
    }
  }

  lemma Report0()
    ensures IsSafe(Reports[0]) && Tolerant(Reports[0])
  {
    SafeIffGradual(Reports[0]);
    SafeIsTolerant(Reports[0]);
  }

  lemma Report1()
    ensures !IsSafe(Reports[1]) && !Tolerant(Reports[1])
  {
    assert !IsSafe([2, 7, 8, 9]) && !IsSafe([1, 7, 8, 9]) && !IsSafe([1, 2, 8, 9]);
    assert !IsSafe([1, 2, 7, 9]) && !IsSafe([1, 2, 7, 8]);
    NotTolerantFive(1, 2, 7, 8, 9);
  }

  lemma Report2()
    ensures !IsSafe(Reports[2]) && !Tolerant(Reports[2])
  {
    assert !IsSafe([7, 6, 2, 1]) && !IsSafe([9, 6, 2, 1]) && !IsSafe([9, 7, 2, 1]);
    assert !IsSafe([9, 7, 6, 1]) && !IsSafe([9, 7, 6, 2]);
    NotTolerantFive(9, 7, 6, 2, 1);
  }

  lemma Report3()
    ensures !IsSafe(Reports[3]) && Tolerant(Reports[3])
  {
    RemoveFromFive(1, 3, 2, 4, 5);
    assert IsSafe([1, 2, 4, 5]);
  }

  lemma Report4()
    ensures !IsSafe(Reports[4]) && Tolerant(Reports[4])
  {
    RemoveFromFive(8, 6, 4, 4, 1);
    assert IsSafe([8, 6, 4, 1]);
  }

  lemma Report5()
    ensures IsSafe(Reports[5]) && Tolerant(Reports[5])
  {
    SafeIffGradual(Reports[5]);
    SafeIsTolerant(Reports[5]);
  }

  /** Part 1 counts 2 of the example's reports and part 2 counts 4. */
  lemma SampleCounts()
    ensures CountWhere(IsSafe, Reports) == 2
    ensures CountWhere(Tolerant, Reports) == 4
  {
    Report0(); Report1(); Report2(); Report3(); Report4(); Report5();
    var r := Reports;
    assert r[1..][1..][1..][1..][1..][1..] == [];
  }

  // ---------------------------------------------------------------------
  // The test text
  // ---------------------------------------------------------------------

  /** Single-digit levels written out with one space between each two. */
  function Spaced(ds: Bytes): (s: Bytes)
    ensures |s| == if |ds| == 0 then 0 else 2 * |ds| - 1
    ensures |ds| > 0 ==> s[0] == ds[0] && s[|s| - 1] == ds[|ds| - 1]
    decreases |ds|
  {
    if |ds| <= 1 then ds else [ds[0], SPACE] + Spaced(ds[1..])
  }

  /** Spacing adds no line feed. */
  lemma {:induction false} SpacedHasNoNewline(ds: Bytes)
    requires NEWLINE !in ds
    ensures NEWLINE !in Spaced(ds)
    decreases |ds|
  {
    if |ds| > 1 {
      SpacedHasNoNewline(ds[1..]);
      assert ds[0] in ds;
    }
  }

  /** One line of the test text: spaced digits closed by a line feed. */
  function Row(ds: Bytes): Bytes {
    Spaced(ds) + [NEWLINE]
  }

  /** The digits of the test text's six rows. */
  const SampleDigits: seq<Bytes> := ["76421", "12789", "97621", "13245", "86441", "13679"]

  /** The test text, line by line: six unindented rows of five levels
      written with single spaces, every one closed by a line feed. */
  predicate IsSample(rows: seq<Bytes>) {
    |rows| == |SampleDigits| && forall k :: 0 <= k < |rows| ==> rows[k] == Row(SampleDigits[k])
  }

  /** The rows of the test text, spelt out. */
  lemma SampleRows(rows: seq<Bytes>)
    requires IsSample(rows)
    ensures rows[0] == "7 6 4 2 1\n" && rows[1] == "1 2 7 8 9\n" && rows[2] == "9 7 6 2 1\n"
    ensures rows[3] == "1 3 2 4 5\n" && rows[4] == "8 6 4 4 1\n" && rows[5] == "1 3 6 7 9\n"
  {
    RowOfFive(SampleDigits[0]); RowOfFive(SampleDigits[1]); RowOfFive(SampleDigits[2]);
    RowOfFive(SampleDigits[3]); RowOfFive(SampleDigits[4]); RowOfFive(SampleDigits[5]);
  }

  lemma RowOfFive(ds: Bytes)
    requires |ds| == 5
    ensures Row(ds) == [ds[0], SPACE, ds[1], SPACE, ds[2], SPACE, ds[3], SPACE, ds[4], NEWLINE]
  {
    var t := ds[1..];
    assert Spaced(t[1..][1..][1..]) == [ds[4]];
    assert Spaced(t[1..][1..]) == [ds[3], SPACE, ds[4]];
    assert Spaced(t[1..]) == [ds[2], SPACE, ds[3], SPACE, ds[4]];
    assert Spaced(t) == [ds[1], SPACE, ds[2], SPACE, ds[3], SPACE, ds[4]];
  }

  /** The report that spaced digits spell: one level per digit. */
  function Levels(ds: Bytes): (report: seq<int>)
    requires AllDigits(ds)
    ensures |report| == |ds|
    ensures forall k :: 0 <= k < |ds| ==> report[k] == DigitValue(ds[k])
  {
    seq(|ds|, k requires 0 <= k < |ds| => DigitValue(ds[k]) as int)
  }

  /** `row` is one line feed-closed piece whose line parses to `report`. */
  predicate RowReads(row: Bytes, report: seq<int>) {
    && |row| > 0 && row[|row| - 1] == NEWLINE && NEWLINE !in row[..|row| - 1]
    && ParseReport(StripLineEnding(row)) == Ok(report)
  }

  /** A single digit is the integer it spells. */
  lemma OneDigit(d: byte)
    requires IsDigit(d)
    ensures ParseI64([d]) == Ok(DigitValue(d))
  {
    assert AllDigits([d]);
    assert DecimalValue([d]) == DigitValue(d) * Pow10(0) + DecimalValue([]) by {
      assert [d][1..] == [];
    }
  }

  /** A digit followed by a space is one token, whatever comes after. */
  lemma TokensOfSpacedDigit(x: byte, rest: Bytes, s: Bytes)
    requires IsDigit(x) && s == [x] + ([SPACE] + rest)
    ensures Tokens(s) == [[x]] + Tokens(rest)
  {
    TokensCons([x], [SPACE] + rest);
    TokensSkipGap([SPACE], rest);
  }

  /** Each byte of `ds` on its own. */
  function Singletons(ds: Bytes): (ts: seq<Bytes>)
    ensures |ts| == |ds| && forall k :: 0 <= k < |ds| ==> ts[k] == [ds[k]]
  {
    seq(|ds|, k requires 0 <= k < |ds| => [ds[k]])
  }

  lemma SingletonsCons(ds: Bytes)
    requires |ds| > 0
    ensures Singletons(ds) == [[ds[0]]] + Singletons(ds[1..])
  {
    assert Singletons(ds) == [[ds[0]]] + Singletons(ds[1..]);
  }

  /** Spaced digits split into one token per digit. */
  lemma {:induction false} TokensOfSpaced(ds: Bytes)
    requires AllDigits(ds)
    ensures Tokens(Spaced(ds)) == Singletons(ds)
    decreases |ds|
  {
    if |ds| == 1 {
      TokensCons(ds, []);
      assert ds + [] == ds;
      assert Singletons(ds) == [ds];
    } else if |ds| > 1 {
      TokensOfSpaced(ds[1..]);
      TokensOfSpacedStep(ds);
    }
  }

  lemma TokensOfSpacedStep(ds: Bytes)
    requires |ds| > 1 && AllDigits(ds)
    requires Tokens(Spaced(ds[1..])) == Singletons(ds[1..])
    ensures Tokens(Spaced(ds)) == Singletons(ds)
  {
    assert Spaced(ds) == [ds[0]] + ([SPACE] + Spaced(ds[1..]));
    TokensOfSpacedDigit(ds[0], Spaced(ds[1..]), Spaced(ds));
    SingletonsCons(ds);
  }

  /** Items that each parse collect to their values, in order. */
  lemma CollectParsed<T>(parse: Bytes -> Result<T>, items: seq<Bytes>, values: seq<T>)
    requires |items| == |values|
    requires forall k :: 0 <= k < |items| ==> parse(items[k]) == Ok(values[k])
    ensures CollectAll(parse, items) == Ok(values)
  {
    var r := CollectAll(parse, items);
    assert r.Ok? && |r.value| == |values|;
    assert forall k :: 0 <= k < |values| ==> r.value[k] == values[k];
    assert r.value == values;
  }

  /** Spaced digits parse to their levels. */
  lemma ParseSpaced(ds: Bytes)
    requires AllDigits(ds)
    ensures ParseReport(Spaced(ds)) == Ok(Levels(ds))
  {
    var ts := Singletons(ds);
    TokensOfSpaced(ds);
    forall k | 0 <= k < |ds| ensures ParseI64(ts[k]) == Ok(Levels(ds)[k]) {
      OneDigit(ds[k]);
    }
    CollectParsed(ParseI64, ts, Levels(ds));
  }

  /** A row is a closed piece that reads as its levels. */
  lemma RowIs(row: Bytes, ds: Bytes, report: seq<int>)
    requires row == Row(ds) && AllDigits(ds) && report == Levels(ds)
    ensures RowReads(row, report)
  {
    assert row[..|row| - 1] == Spaced(ds);
    assert NEWLINE !in ds;
    SpacedHasNoNewline(ds);
    assert StripLineEnding(row) == Spaced(ds);
    ParseSpaced(ds);
  }

  /** Rows that each read as a report parse, joined, to those reports. */
  lemma ParseOfRows(rows: seq<Bytes>, reports: seq<seq<int>>)
    requires |rows| == |reports|
    requires forall k :: 0 <= k < |rows| ==> RowReads(rows[k], reports[k])
    ensures Parse(Concat(rows)) == Ok(reports)
  {
    var lines := LinesOfRows(rows, reports);
    assert forall k :: 0 <= k < |lines| ==> ParseReport(lines[k]) == Ok(reports[k]);
    CollectParsed(ParseReport, lines, reports);
  }

  /** The lines of joined rows are the rows without their line feeds. */
  lemma LinesOfRows(rows: seq<Bytes>, reports: seq<seq<int>>) returns (lines: seq<Bytes>)
    requires |rows| == |reports|
    requires forall k :: 0 <= k < |rows| ==> RowReads(rows[k], reports[k])
    ensures lines == Lines(Concat(rows)) && |lines| == |rows|
    ensures forall k :: 0 <= k < |rows| ==> ParseReport(lines[k]) == Ok(reports[k])
  {
    assert InclusivePieces(rows, NEWLINE);
    SplitInclusiveConcat(rows, NEWLINE);
    lines := Lines(Concat(rows));
    assert forall k :: 0 <= k < |rows| ==> lines[k] == StripLineEnding(rows[k]);
  }

  /** Rows of digits parse, joined, to the levels they spell. */
  lemma ParseOfDigitRows(rows: seq<Bytes>, dss: seq<Bytes>)
    requires |rows| == |dss|
    requires forall k :: 0 <= k < |rows| ==> rows[k] == Row(dss[k]) && AllDigits(dss[k])
    ensures Parse(Concat(rows)).Ok? && |Parse(Concat(rows)).value| == |dss|
    ensures forall k :: 0 <= k < |dss| ==> Parse(Concat(rows)).value[k] == Levels(dss[k])
  {
    var reports := seq(|dss|, k requires 0 <= k < |dss| => Levels(dss[k]));
    forall k | 0 <= k < |rows| ensures RowReads(rows[k], reports[k]) {
      RowIs(rows[k], dss[k], reports[k]);
    }
    ParseOfRows(rows, reports);
  }

  /** The digits of every row are the levels of the example's report. */
  lemma SampleLevels()
    ensures forall k :: 0 <= k < |SampleDigits| ==> AllDigits(SampleDigits[k])
    ensures forall k :: 0 <= k < |SampleDigits| ==> Levels(SampleDigits[k]) == Reports[k]
  {
  }

  /** The test text parses to the example's reports. */
  lemma ParseSample(rows: seq<Bytes>)
    requires IsSample(rows)
    ensures Parse(Concat(rows)) == Ok(Reports)
  {
    SampleLevels();
    ParseOfDigitRows(rows, SampleDigits);
    assert Parse(Concat(rows)).value == Reports;
  }

  /** On the test text `part1` gives 2, and `part2` counts 4 reports. */
  lemma SampleAnswers(rows: seq<Bytes>)
    requires IsSample(rows)
    ensures Part1Naive(Concat(rows)) == Ok(2)
    ensures Parse(Concat(rows)).Ok? && CountWhere(Tolerant, Parse(Concat(rows)).value) == 4
  {
    ParseSample(rows);
    SampleCounts();
    CountSafeIsCountGradual(Reports);
  }
}
