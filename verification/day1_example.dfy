/** The worked example of `src/day1.rs`: six lines whose left ids are
    3 4 2 1 3 3 and whose right ids are 4 3 5 3 9 3, in any order. Together
    they give a total distance of 11 and a similarity score of 31. */
module Day1Example {
  import opened Results
  import opened Bytes
  import opened Parsers
  import opened Seqs
  import opened Day1

  const SortedLeft: seq<int> := [1, 2, 3, 3, 3, 4]
  const SortedRight: seq<int> := [3, 3, 3, 4, 5, 9]

  lemma SortedColumns()
    ensures Sorted(SortedLeft) && Sorted(SortedRight)
  {
  }

  /** Columns holding the example's ids, in any order, pair up to 11. */
  lemma SampleDistance(left: seq<int>, right: seq<int>)
    requires multiset(left) == multiset(SortedLeft)
    requires multiset(right) == multiset(SortedRight)
    ensures |left| == |right| && TotalDistance(left, right) == 11
  {
    assert |left| == |multiset(left)| == |multiset(SortedLeft)| == 6;
    assert |right| == |multiset(right)| == |multiset(SortedRight)| == 6;
    SortedColumns();
    TotalDistanceOfSorted(left, right, SortedLeft, SortedRight);
    assert SumDistances(SortedLeft, SortedRight) == 11;
  }

  lemma SortedSimilarity()
    ensures Similarity(SortedLeft, SortedRight) == 31
  {
  }

  /** Columns holding the example's ids, in any order, score 31. */
  lemma SampleSimilarity(left: seq<int>, right: seq<int>)
    requires multiset(left) == multiset(SortedLeft)
    requires multiset(right) == multiset(SortedRight)
    ensures Similarity(left, right) == 31
  {
    SimilarityPermutation(left, right, SortedLeft, SortedRight);
    SortedSimilarity();
  }

  /** One line of the test text: an indent, a digit, three spaces, a
      digit and a line feed. */
  function Row(indent: nat, l: byte, r: byte): Bytes {
    seq(indent, _ => SPACE) + [l, SPACE, SPACE, SPACE, r, NEWLINE]
  }

  /** The test text, line by line: after the string's line continuation
      the first line has no indent, the other five keep the 8 spaces of the
      source's indentation, and every line ends in a line feed. */
  predicate IsSample(rows: seq<Bytes>) {
    && |rows| == 6
    && rows[0] == Row(0, '3', '4') && rows[1] == Row(8, '4', '3') && rows[2] == Row(8, '2', '5')
    && rows[3] == Row(8, '1', '3') && rows[4] == Row(8, '3', '9') && rows[5] == Row(8, '3', '3')
  }

  /** A row parses to its two digits, whatever its indent. */
  lemma ParseRow(indent: nat, l: byte, r: byte)
    requires IsDigit(l) && IsDigit(r)
    ensures IsLine(Row(indent, l, r))
    ensures ParseLine(Row(indent, l, r)).Ok?
    ensures ParseLine(Row(indent, l, r)).value.0 == DigitValue(l)
    ensures ParseLine(Row(indent, l, r)).value.1 == DigitValue(r)
  {
    var ws := seq(indent, _ => SPACE);
    var line := Unindented(l, r);
    assert Row(indent, l, r) == ws + line;
    assert IsLine(ws + line) by {
      assert (ws + line)[..|ws + line| - 1] == ws + line[..5];
    }
    ParseLineIgnoresIndent(ws, line);
    ParseUnindented(l, r);
  }

  function Unindented(l: byte, r: byte): Bytes {
    [l, SPACE, SPACE, SPACE, r, NEWLINE]
  }

  lemma ParseUnindented(l: byte, r: byte)
    requires IsDigit(l) && IsDigit(r)
    ensures ParseLine(Unindented(l, r)).Ok?
    ensures ParseLine(Unindented(l, r)).value.0 == DigitValue(l)
    ensures ParseLine(Unindented(l, r)).value.1 == DigitValue(r)
  {
    var line := Unindented(l, r);
    assert TrimStart(line) == line by {
      assert LeadingWhitespace(line) == 0;
    }
    ParseLineSplitsAtFirstSpace(line, 1);
    LeftOperand(l, line);
    RightOperand(r, line[1..]);
    OneDigit(l);
    OneDigit(r);
  }

  lemma LeftOperand(l: byte, line: Bytes)
    requires |line| > 1 && line[0] == l && IsDigit(l)
    ensures TrimEnd(line[..1]) == [l]
  {
    assert line[..1] == [l];
    NoTrailingWhitespace([l]);
  }

  lemma RightOperand(r: byte, s: Bytes)
    requires s == [SPACE, SPACE, SPACE, r, NEWLINE] && IsDigit(r)
    ensures Trim(s) == [r]
  {
    assert s == [SPACE, SPACE, SPACE] + [r, NEWLINE];
    TrimStartIndent([SPACE, SPACE, SPACE], [r, NEWLINE]);
    assert LeadingWhitespace([r, NEWLINE]) == 0;
    assert [r, NEWLINE][0..] == [r, NEWLINE];
    assert TrailingWhitespace([r, NEWLINE]) == 1;
  }

  lemma NoTrailingWhitespace(s: Bytes)
    requires |s| > 0 && !IsAsciiWhitespace(s[|s| - 1])
    ensures TrimEnd(s) == s
  {
  }

  lemma OneDigit(d: byte)
    requires IsDigit(d)
    ensures I64FromAscii([d]) == DigitValue(d)
  {
    assert AllDigits([d]);
    assert DecimalValue([d]) == DigitValue(d) * Pow10(0) + DecimalValue([]) by {
      assert [d][1..] == [];
    }
  }

  /** A row of the text, whichever row it is, parses to its digits. */
  lemma ParseRowIs(line: Bytes, indent: nat, l: byte, r: byte)
    requires line == Row(indent, l, r) && IsDigit(l) && IsDigit(r)
    ensures IsLine(line) && ParseLine(line).Ok?
    ensures ParseLine(line).value == (DigitValue(l), DigitValue(r))
  {
    ParseRow(indent, l, r);
  }

  /** Six lines, each a line that `parseLine` reads, spread over their
      indices. */
  lemma SixLines(parseLine: Bytes -> Result<(int, int)>, rows: seq<Bytes>, left: seq<int>, right: seq<int>)
    requires |rows| == |left| == |right| == 6
    requires forall k | k in {0, 1, 2, 3, 4, 5} ::
               IsLine(rows[k]) && parseLine(rows[k]).Ok? && parseLine(rows[k]).value == (left[k], right[k])
    ensures forall k :: 0 <= k < |rows| ==> IsLine(rows[k])
    ensures forall k :: 0 <= k < |rows| ==>
              parseLine(rows[k]).Ok? && parseLine(rows[k]).value == (left[k], right[k])
  {
  }

  /** The test text parses to the example's two columns. */
  lemma ParseSample(rows: seq<Bytes>)
    requires IsSample(rows)
    ensures Parse(Concat(rows)).Ok?
    ensures Parse(Concat(rows)).value.0 == [3, 4, 2, 1, 3, 3]
    ensures Parse(Concat(rows)).value.1 == [4, 3, 5, 3, 9, 3]
  {
    var left, right := [3, 4, 2, 1, 3, 3], [4, 3, 5, 3, 9, 3];
    ParseRowIs(rows[0], 0, '3', '4');
    ParseRowIs(rows[1], 8, '4', '3');
    ParseRowIs(rows[2], 8, '2', '5');
    ParseRowIs(rows[3], 8, '1', '3');
    ParseRowIs(rows[4], 8, '3', '9');
    ParseRowIs(rows[5], 8, '3', '3');
    SixLines(ParseLine, rows, left, right);
    ParseOfLines(rows);
    ParseLinesOfParsed(ParseLine, rows, left, right);
  }

  /** On the test text, `part1` gives 11 and `part2` gives 31. */
  lemma SampleAnswers(rows: seq<Bytes>)
    requires IsSample(rows)
    ensures Part1Safe(Concat(rows)).Ok? && Part1Safe(Concat(rows)).value == 11
    ensures Part2Spec(Concat(rows)).Ok? && Part2Spec(Concat(rows)).value == 31
  {
    ParseSample(rows);
    SampleColumnsAnswers(Concat(rows));
  }

  lemma SampleColumnsAnswers(text: Bytes)
    requires Parse(text).Ok?
    requires Parse(text).value.0 == [3, 4, 2, 1, 3, 3] && Parse(text).value.1 == [4, 3, 5, 3, 9, 3]
    ensures Part1Safe(text).Ok? && Part1Safe(text).value == 11
    ensures Part2Spec(text).Ok? && Part2Spec(text).value == 31
  {
    SampleMultisets(Parse(text).value.0, Parse(text).value.1);
    SampleOfColumns(text);
  }

  /** The columns of the test text are the sorted columns rearranged. */
  lemma SampleMultisets(left: seq<int>, right: seq<int>)
    requires left == [3, 4, 2, 1, 3, 3] && right == [4, 3, 5, 3, 9, 3]
    ensures multiset(left) == multiset(SortedLeft) && multiset(right) == multiset(SortedRight)
  {
    Rearranged(left, SortedLeft, 3, 4, 2, 1, 3, 3, 1, 2, 3, 3, 3, 4);
    Rearranged(right, SortedRight, 4, 3, 5, 3, 9, 3, 3, 3, 3, 4, 5, 9);
  }

  /** Six values, and the same six in another order. */
  lemma Rearranged(s: seq<int>, t: seq<int>, a: int, b: int, c: int, d: int, e: int, f: int,
                   a': int, b': int, c': int, d': int, e': int, f': int)
    requires s == [a, b, c, d, e, f] && t == [a', b', c', d', e', f']
    requires multiset{a, b, c, d, e, f} == multiset{a', b', c', d', e', f'}
    ensures multiset(s) == multiset(t)
  {
  }

  lemma SampleOfColumns(text: Bytes)
    requires Parse(text).Ok?
    requires multiset(Parse(text).value.0) == multiset(SortedLeft)
    requires multiset(Parse(text).value.1) == multiset(SortedRight)
    ensures Part1Safe(text).Ok? && Part1Safe(text).value == 11
    ensures Part2Spec(text).Ok? && Part2Spec(text).value == 31
  {
    var (left, right) := Parse(text).value;
    SampleDistance(left, right);
    SampleSimilarity(left, right);
  }
}
