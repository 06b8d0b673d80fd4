/** Day 1 of `src/day1.rs`: two columns of location ids, compared by the
    distance between their sorted orders (part 1) and by a similarity
    score computed with a merge over the sorted columns (part 2). */
module Day1 {
  import opened Results
  import opened Bytes
  import opened Parsers
  import opened Seqs

  // ---------------------------------------------------------------------
  // Parsing
  // ---------------------------------------------------------------------

  /** `d - b'0'` on a `u8`: wraps for bytes below '0' (release build). */
  function ZeroOffset(b: byte): (v: nat)
    ensures v < 256 && (v + '0' as int) % 256 == b as int
    ensures IsDigit(b) ==> v == DigitValue(b)
  {
    (b as int - '0' as int) % 256
  }

  /** The fold of `i64_from_ascii`, applied to every byte. */
  function FoldI64(acc: int, s: Bytes): int
    decreases |s|
  {
    if |s| == 0 then acc else FoldI64(acc * 10 + ZeroOffset(s[0]), s[1..])
  }

  lemma {:induction false} FoldI64OnDigits(acc: nat, s: Bytes)
    requires AllDigits(s)
    ensures FoldI64(acc, s) == FoldDecimal(acc, s)
    decreases |s|
  {
    if |s| > 0 {
      FoldI64OnDigits(acc * 10 + DigitValue(s[0]), s[1..]);
    }
  }

  lemma FoldI64Positional(s: Bytes)
    ensures AllDigits(s) ==> FoldI64(0, s) == DecimalValue(s)
  {
    if AllDigits(s) {
      FoldI64OnDigits(0, s);
      FoldIsPositional(0, s);
    }
  }

  /** `i64_from_ascii`: unlike `u64_from_ascii` it does not skip non-digit
      bytes; on a run of digits it is the positional decimal value. */
  function I64FromAscii(s: Bytes): (n: int)
    ensures AllDigits(s) ==> n == DecimalValue(s)
  {
    FoldI64Positional(s);
    FoldI64(0, s)
  }

  /** `i64_from_ascii` inverts decimal rendering. */
  lemma I64RenderRoundTrip(n: nat)
    ensures I64FromAscii(Render(n)) == n
  {
    RenderRoundTrip(n);
  }

  /** One line: leading whitespace dropped, split at the first space, each
      half trimmed and decoded. A line without a space is an error. */
  function ParseLine(line: Bytes): (r: Result<(int, int)>)
    ensures r.Err? <==> SPACE !in TrimStart(line)
    ensures r.Err? ==> r.error == NotEnoughLocationIds
  {
    var t := TrimStart(line);
    match Find(t, SPACE)
    case None => Err(NotEnoughLocationIds)
    case Some(k) => Ok((I64FromAscii(TrimEnd(t[..k])), I64FromAscii(Trim(t[k..]))))
  }

  /** The left id is the text before the first space after the indent,
      the right id the text from that space on, both trimmed. */
  lemma ParseLineSplitsAtFirstSpace(line: Bytes, k: nat)
    requires k < |TrimStart(line)| && TrimStart(line)[k] == SPACE
    requires SPACE !in TrimStart(line)[..k]
    ensures ParseLine(line).Ok?
    ensures ParseLine(line).value.0 == I64FromAscii(TrimEnd(TrimStart(line)[..k]))
    ensures ParseLine(line).value.1 == I64FromAscii(Trim(TrimStart(line)[k..]))
  {
    FindFirst(TrimStart(line), SPACE, k);
  }

  /** The lines in order, one entry per line in each column; the first
      line that `parseLine` rejects aborts the whole parse. */
  function ParseLines(parseLine: Bytes -> Result<(int, int)>, lines: seq<Bytes>)
    : (r: Result<(seq<int>, seq<int>)>)
    ensures r.Ok? <==> forall i :: 0 <= i < |lines| ==> parseLine(lines[i]).Ok?
    ensures r.Err? ==> exists i :: 0 <= i < |lines| && parseLine(lines[i]).Err? && r.error == parseLine(lines[i]).error
    ensures r.Ok? ==> |r.value.0| == |lines| && |r.value.1| == |lines|
    ensures r.Ok? ==> forall i :: 0 <= i < |lines| ==>
                        (r.value.0[i], r.value.1[i]) == parseLine(lines[i]).value
  {
    if |lines| == 0 then Ok(([], []))
    else
      var head := parseLine(lines[0]);
      var tail := ParseLines(parseLine, lines[1..]);
      assert forall i :: 1 <= i < |lines| ==> lines[1..][i - 1] == lines[i];
      if head.Err? then Err(head.error)
      else if tail.Err? then Err(tail.error)
      else Ok(([head.value.0] + tail.value.0, [head.value.1] + tail.value.1))
  }

  /** `parse`: one pair of ids per `split_inclusive('\n')` piece. */
  function Parse(input: Bytes): (r: Result<(seq<int>, seq<int>)>)
    ensures r.Ok? <==> forall i :: 0 <= i < |SplitInclusive(input, NEWLINE)| ==>
                          SPACE in TrimStart(SplitInclusive(input, NEWLINE)[i])
    ensures r.Err? ==> r.error == NotEnoughLocationIds
    ensures r.Ok? ==> |r.value.0| == |r.value.1| == |SplitInclusive(input, NEWLINE)|
    ensures r.Ok? ==> forall i :: 0 <= i < |SplitInclusive(input, NEWLINE)| ==>
                        && r.value.0[i] == ParseLine(SplitInclusive(input, NEWLINE)[i]).value.0
                        && r.value.1[i] == ParseLine(SplitInclusive(input, NEWLINE)[i]).value.1
    ensures (exists i :: 0 <= i < |SplitInclusive(input, NEWLINE)|
               && SPACE !in SplitInclusive(input, NEWLINE)[i])
            ==> r == Err(NotEnoughLocationIds)
  {
    var lines := SplitInclusive(input, NEWLINE);
    var r := ParseLines(ParseLine, lines);
    assert r.Ok? <==> forall i :: 0 <= i < |lines| ==> SPACE in TrimStart(lines[i]) by {
      assert forall i :: 0 <= i < |lines| ==> (ParseLine(lines[i]).Ok? <==> SPACE in TrimStart(lines[i]));
    }
    assert r.Ok? ==> forall i :: 0 <= i < |lines| ==>
                       && r.value.0[i] == ParseLine(lines[i]).value.0
                       && r.value.1[i] == ParseLine(lines[i]).value.1 by {
      if r.Ok? {
        forall i | 0 <= i < |lines|
          ensures r.value.0[i] == ParseLine(lines[i]).value.0 && r.value.1[i] == ParseLine(lines[i]).value.1
        {
          assert (r.value.0[i], r.value.1[i]) == ParseLine(lines[i]).value;
        }
      }
    }
    assert forall i :: 0 <= i < |lines| && SPACE !in lines[i] ==> SPACE !in TrimStart(lines[i]);
    r
  }

  lemma {:induction false} TrimStartIndent(ws: Bytes, line: Bytes)
    requires forall i :: 0 <= i < |ws| ==> IsAsciiWhitespace(ws[i])
    ensures TrimStart(ws + line) == TrimStart(line)
    decreases |ws|
  {
    if |ws| > 0 {
      assert (ws + line)[1..] == ws[1..] + line;
      TrimStartIndent(ws[1..], line);
    } else {
      assert ws + line == line;
    }
  }

  /** Leading whitespace on a line does not change what it parses to. */
  lemma ParseLineIgnoresIndent(ws: Bytes, line: Bytes)
    requires forall i :: 0 <= i < |ws| ==> IsAsciiWhitespace(ws[i])
    ensures ParseLine(ws + line) == ParseLine(line)
  {
    TrimStartIndent(ws, line);
  }

  // ---------------------------------------------------------------------
  // Part 1: distance between the sorted columns
  // ---------------------------------------------------------------------

  function Distance(a: int, b: int): nat {
    if a < b then b - a else a - b
  }

  /** The sum of |a[i] - b[i]| over paired positions. */
  function SumDistances(a: seq<int>, b: seq<int>): nat
    requires |a| == |b|
  {
    if |a| == 0 then 0 else Distance(a[0], b[0]) + SumDistances(a[1..], b[1..])
  }

  /** Pairing the i-th smallest left id with the i-th smallest right id. */
  function TotalDistance(left: seq<int>, right: seq<int>): nat
    requires |left| == |right|
  {
    SumDistances(Sort(left), Sort(right))
  }

  /** `part1_safe`: parse, sort both columns, sum the paired distances. */
  function Part1Safe(input: Bytes): (r: Result<int>)
    ensures r.Err? <==> Parse(input).Err?
    ensures r.Ok? ==> r.value >= 0
  {
    var (left, right) :- Parse(input);
    Ok(TotalDistance(left, right))
  }

  /** On a parsed input, part 1 is the sum of the distances between the
      two columns, each taken in sorted order. */
  lemma Part1SafeOfSorted(input: Bytes, sl: seq<int>, sr: seq<int>)
    requires Parse(input).Ok?
    requires Sorted(sl) && multiset(sl) == multiset(Parse(input).value.0)
    requires Sorted(sr) && multiset(sr) == multiset(Parse(input).value.1)
    ensures |sl| == |sr|
    ensures Part1Safe(input).Ok? && Part1Safe(input).value == SumDistances(sl, sr)
  {
    var (left, right) := Parse(input).value;
    TotalDistanceOfSorted(left, right, sl, sr);
  }

  /** The answer is the paired distance of ANY sorted arrangement of the
      two columns: it does not depend on how the sort orders equal ids. */
  lemma TotalDistanceOfSorted(left: seq<int>, right: seq<int>, sl: seq<int>, sr: seq<int>)
    requires |left| == |right|
    requires Sorted(sl) && multiset(sl) == multiset(left)
    requires Sorted(sr) && multiset(sr) == multiset(right)
    ensures |sl| == |sr| && TotalDistance(left, right) == SumDistances(sl, sr)
  {
    SortedUnique(Sort(left), sl);
    SortedUnique(Sort(right), sr);
  }

  /** Reordering either column leaves the answer unchanged. */
  lemma TotalDistancePermutation(left: seq<int>, right: seq<int>, left': seq<int>, right': seq<int>)
    requires |left| == |right| && |left'| == |right'|
    requires multiset(left) == multiset(left') && multiset(right) == multiset(right')
    ensures TotalDistance(left, right) == TotalDistance(left', right')
  {
    SortPermutation(left, left');
    SortPermutation(right, right');
  }

  lemma {:induction false} SumDistancesSymmetric(a: seq<int>, b: seq<int>)
    requires |a| == |b|
    ensures SumDistances(a, b) == SumDistances(b, a)
    decreases |a|
  {
    if |a| > 0 {
      SumDistancesSymmetric(a[1..], b[1..]);
    }
  }

  /** Swapping the two columns leaves the answer unchanged. */
  lemma TotalDistanceSymmetric(left: seq<int>, right: seq<int>)
    requires |left| == |right|
    ensures TotalDistance(left, right) == TotalDistance(right, left)
  {
    SumDistancesSymmetric(Sort(left), Sort(right));
  }

  /** A complete input line: one '\n', at its end. */
  predicate IsLine(line: Bytes) {
    |line| > 0 && line[|line| - 1] == NEWLINE && NEWLINE !in line[..|line| - 1]
  }

  lemma LinesAreInclusivePieces(lines: seq<Bytes>)
    requires forall k :: 0 <= k < |lines| ==> IsLine(lines[k])
    ensures InclusivePieces(lines, NEWLINE)
    ensures SplitInclusive(Concat(lines), NEWLINE) == lines
  {
    SplitInclusiveConcat(lines, NEWLINE);
  }

  /** Lines that each parse give the columns of their ids, in order. */
  lemma ParseLinesOfParsed(parseLine: Bytes -> Result<(int, int)>, lines: seq<Bytes>,
                           left: seq<int>, right: seq<int>)
    requires |lines| == |left| == |right|
    requires forall k :: 0 <= k < |lines| ==>
               parseLine(lines[k]).Ok? && parseLine(lines[k]).value == (left[k], right[k])
    ensures ParseLines(parseLine, lines).Ok?
    ensures ParseLines(parseLine, lines).value.0 == left && ParseLines(parseLine, lines).value.1 == right
  {
  }

  lemma ParseLinesSwapOk(parseLine: Bytes -> Result<(int, int)>, lines: seq<Bytes>, i: nat, j: nat)
    requires i < |lines| && j < |lines|
    ensures ParseLines(parseLine, lines).Ok?
            <==> ParseLines(parseLine, lines[i := lines[j]][j := lines[i]]).Ok?
  {
    var swapped := lines[i := lines[j]][j := lines[i]];
    if ParseLines(parseLine, lines).Ok? {
      forall k | 0 <= k < |swapped| ensures parseLine(swapped[k]).Ok? {
        var k' := if k == j then i else if k == i then j else k;
        assert swapped[k] == lines[k'];
      }
    } else {
      var k :| 0 <= k < |lines| && parseLine(lines[k]).Err?;
      var k' := if k == i then j else if k == j then i else k;
      assert swapped[k'] == lines[k];
    }
  }

  lemma ParseLinesSwapColumns(parseLine: Bytes -> Result<(int, int)>, lines: seq<Bytes>, i: nat, j: nat)
    requires i < |lines| && j < |lines|
    requires ParseLines(parseLine, lines).Ok?
    requires ParseLines(parseLine, lines[i := lines[j]][j := lines[i]]).Ok?
    ensures var (l, r) := ParseLines(parseLine, lines).value;
            ParseLines(parseLine, lines[i := lines[j]][j := lines[i]]).value
              == (l[i := l[j]][j := l[i]], r[i := r[j]][j := r[i]])
  {
    var swapped := lines[i := lines[j]][j := lines[i]];
    var (l, r) := ParseLines(parseLine, lines).value;
    var (l', r') := ParseLines(parseLine, swapped).value;
    var ls := l[i := l[j]][j := l[i]];
    var rs := r[i := r[j]][j := r[i]];
    forall k | 0 <= k < |lines|
      ensures l'[k] == ls[k] && r'[k] == rs[k]
    {
      var k' := if k == j then i else if k == i then j else k;
      assert swapped[k] == lines[k'];
      assert (l'[k], r'[k]) == parseLine(swapped[k]).value;
      assert (l[k'], r[k']) == parseLine(lines[k']).value;
    }
    assert l' == ls;
    assert r' == rs;
  }

  /** Exchanging two lines of the input (each a complete line ending in
      '\n') changes neither part's answer. Every reordering of the lines is
      a sequence of such exchanges. */
  lemma SwapLines(lines: seq<Bytes>, i: nat, j: nat, swapped: seq<Bytes>)
    requires i < |lines| && j < |lines|
    requires forall k :: 0 <= k < |lines| ==> IsLine(lines[k])
    requires swapped == lines[i := lines[j]][j := lines[i]]
    ensures Part1Safe(Concat(swapped)) == Part1Safe(Concat(lines))
    ensures Part2Spec(Concat(swapped)) == Part2Spec(Concat(lines))
  {
    SwappedLines(lines, i, j, swapped);
    ParseOfLines(lines);
    ParseOfLines(swapped);
    ParseLinesSwapOk(ParseLine, lines, i, j);
    var p := Parse(Concat(lines));
    var q := Parse(Concat(swapped));
    if p.Ok? {
      ParseLinesSwapColumns(ParseLine, lines, i, j);
      SwapColumns(p.value.0, p.value.1, q.value.0, q.value.1, i, j);
    }
  }

  lemma SwapColumns(l: seq<int>, r: seq<int>, l': seq<int>, r': seq<int>, i: nat, j: nat)
    requires |l| == |r| && i < |l| && j < |l|
    requires l' == l[i := l[j]][j := l[i]] && r' == r[i := r[j]][j := r[i]]
    ensures |l'| == |r'|
    ensures TotalDistance(l', r') == TotalDistance(l, r)
    ensures Similarity(l', r') == Similarity(l, r)
  {
    assert multiset(l') == multiset(l) && multiset(r') == multiset(r);
    TotalDistancePermutation(l, r, l', r');
    SimilarityPermutation(l, r, l', r');
  }

  lemma SwappedLines(lines: seq<Bytes>, i: nat, j: nat, swapped: seq<Bytes>)
    requires i < |lines| && j < |lines|
    requires forall k :: 0 <= k < |lines| ==> IsLine(lines[k])
    requires swapped == lines[i := lines[j]][j := lines[i]]
    ensures forall k :: 0 <= k < |swapped| ==> IsLine(swapped[k])
  {
  }

  lemma ParseOfLines(lines: seq<Bytes>)
    requires forall k :: 0 <= k < |lines| ==> IsLine(lines[k])
    ensures Parse(Concat(lines)) == ParseLines(ParseLine, lines)
    ensures Parse(Concat(lines)).Err? ==> Parse(Concat(lines)).error == NotEnoughLocationIds
  {
    LinesAreInclusivePieces(lines);
  }

  // ---------------------------------------------------------------------
  // Part 2: similarity score
  // ---------------------------------------------------------------------

  /** Occurrences of `x` in `s`. */
  function Occurrences(s: seq<int>, x: int): nat {
    multiset(s)[x]
  }

  /** Each left id weighted by how often it occurs on the right. */
  function Similarity(left: seq<int>, right: seq<int>): int {
    if |left| == 0 then 0
    else left[0] * Occurrences(right, left[0]) + Similarity(left[1..], right)
  }

  /** The similarity is the sum of any weighting function that agrees
      with id * occurrences on the right. */
  lemma {:induction false} SimilarityIsSumOf(f: int -> int, left: seq<int>, right: seq<int>)
    requires forall x :: f(x) == x * Occurrences(right, x)
    ensures Similarity(left, right) == SumOf(f, left)
    decreases |left|
  {
    if |left| > 0 {
      SimilarityIsSumOf(f, left[1..], right);
    }
  }

  lemma SimilarityPermutation(left: seq<int>, right: seq<int>, left': seq<int>, right': seq<int>)
    requires multiset(left) == multiset(left') && multiset(right) == multiset(right')
    ensures Similarity(left, right) == Similarity(left', right')
  {
    var f := x => x * Occurrences(right, x);
    var f' := x => x * Occurrences(right', x);
    SimilarityIsSumOf(f, left, right);
    SimilarityIsSumOf(f', left', right');
    SumOfPermutation(f, left, left');
    SumOfCongruent(f, f', left');
  }

  /** The specification `part2_safe` is proved against. */
  function Part2Spec(input: Bytes): Result<int> {
    var (left, right) :- Parse(input);
    Ok(Similarity(left, right))
  }

  /** In a sorted sequence, the run [lo, hi) of `v` holds every `v`. */
  lemma OccurrencesOfRun(s: seq<int>, lo: nat, hi: nat, v: int)
    requires Sorted(s) && lo < hi <= |s|
    requires forall a :: 0 <= a < lo ==> s[a] < v
    requires forall a :: lo <= a < hi ==> s[a] == v
    requires hi < |s| ==> s[hi] != v
    ensures Occurrences(s, v) == hi - lo
  {
    var before, run, after := s[..lo], s[lo..hi], s[hi..];
    assert s == before + run + after;
    assert multiset(s) == multiset(before) + multiset(run) + multiset(after);
    assert multiset(before)[v] == 0 by {
      assert v !in before;
    }
    assert multiset(after)[v] == 0 by {
      forall a | 0 <= a < |after| ensures after[a] != v {
        assert s[hi - 1] <= s[hi] <= s[hi + a];
      }
      assert v !in after;
    }
    RunCount(run, v);
  }

  /** A sequence holding only `v` holds it once per element. */
  lemma {:induction false} RunCount(run: seq<int>, v: int)
    requires forall a :: 0 <= a < |run| ==> run[a] == v
    ensures multiset(run)[v] == |run|
    decreases |run|
  {
    if |run| > 0 {
      RunCount(run[1..], v);
      assert run == [run[0]] + run[1..];
    }
  }

  lemma {:induction false} SumOfRun(f: int -> int, s: seq<int>, v: int)
    requires forall a :: 0 <= a < |s| ==> s[a] == v
    ensures SumOf(f, s) == |s| * f(v)
    decreases |s|
  {
    if |s| > 0 {
      SumOfRun(f, s[1..], v);
    }
  }

  lemma {:induction false} SumOfZeros(f: int -> int, s: seq<int>)
    requires forall a :: 0 <= a < |s| ==> f(s[a]) == 0
    ensures SumOf(f, s) == 0
    decreases |s|
  {
    if |s| > 0 {
      SumOfZeros(f, s[1..]);
    }
  }

  /** An id strictly between two neighbours of a sorted sequence does not
      occur in it. */
  lemma AbsentBetween(s: seq<int>, j: nat, x: int)
    requires Sorted(s) && j <= |s|
    requires j > 0 ==> s[j - 1] < x
    requires j < |s| ==> x < s[j]
    ensures Occurrences(s, x) == 0
  {
    assert forall a :: 0 <= a < |s| ==> s[a] != x by {
      forall a | 0 <= a < |s|
        ensures s[a] != x
      {
        if a < j {
          assert s[a] <= s[j - 1];
        } else {
          assert s[j] <= s[a];
        }
      }
    }
  }

  /** The merge loop of `part2_safe` over the sorted columns: a smaller
      head is skipped, equal heads consume the whole run of that id on
      both sides and add id * run length * run length. Every iteration
      advances at least one side, so the loop ends. */
  method SimilarityMerge(left: seq<int>, right: seq<int>) returns (score: int)
    requires Sorted(left) && Sorted(right)
    ensures score == Similarity(left, right)
  {
    var f := x => x * Occurrences(right, x);
    var i, j := 0, 0;
    score := 0;
    while i < |left| && j < |right|
      invariant 0 <= i <= |left| && 0 <= j <= |right|
      invariant score == SumOf(f, left[..i])
      invariant j > 0 && i < |left| ==> right[j - 1] < left[i]
      invariant i > 0 && j < |right| ==> left[i - 1] < right[j]
      decreases |left| - i + |right| - j
    {
      var l, r := left[i], right[j];
      if l < r {
        AbsentBetween(right, j, l);
        assert left[..i + 1] == left[..i] + [l];
        SumOfAppend(f, left[..i], [l]);
        i := i + 1;
      } else if l == r {
        var i1 := RunEnd(left, i, l);
        var j1 := RunEnd(right, j, l);
        MergeRunStep(left, right, f, i, i1, j, j1, l);
        score := score + l * (i1 - i) * (j1 - j);
        i, j := i1, j1;
      } else {
        j := j + 1;
      }
    }
    MergeTail(left, right, f, i, j);
    SimilarityIsSumOf(f, left, right);
  }

  /** The inner loops of the merge: the end of the run of `v` that starts
      at `from` (the counter the source keeps is the run's length). */
  method RunEnd(s: seq<int>, from: nat, v: int) returns (k: nat)
    requires from <= |s|
    ensures from <= k <= |s|
    ensures forall a :: from <= a < k ==> s[a] == v
    ensures k < |s| ==> s[k] != v
  {
    k := from;
    while k < |s| && s[k] == v
      invariant from <= k <= |s|
      invariant forall a :: from <= a < k ==> s[a] == v
    {
      k := k + 1;
    }
  }

  /** Consuming the runs left[i0..i1] and right[j0..j1] of the id `v`. */
  lemma MergeRunStep(left: seq<int>, right: seq<int>, f: int -> int,
                     i0: nat, i1: nat, j0: nat, j1: nat, v: int)
    requires Sorted(left) && Sorted(right)
    requires forall x :: f(x) == x * Occurrences(right, x)
    requires i0 < i1 <= |left| && j0 < j1 <= |right|
    requires forall a :: i0 <= a < i1 ==> left[a] == v
    requires forall a :: j0 <= a < j1 ==> right[a] == v
    requires i1 < |left| ==> left[i1] != v
    requires j1 < |right| ==> right[j1] != v
    requires j0 > 0 ==> right[j0 - 1] < v
    ensures SumOf(f, left[..i1]) == SumOf(f, left[..i0]) + v * (i1 - i0) * (j1 - j0)
    ensures j1 > 0 && i1 < |left| ==> right[j1 - 1] < left[i1]
    ensures i1 > 0 && j1 < |right| ==> left[i1 - 1] < right[j1]
  {
    RunOccurrences(right, j0, j1, v);
    assert f(v) == v * (j1 - j0);
    SumOfLeftRun(left, f, i0, i1, v);
    MulAssoc(v, i1 - i0, j1 - j0);
    assert left[i1 - 1] == v;
    assert right[j1 - 1] == v;
  }

  lemma MulAssoc(v: int, a: int, b: int)
    ensures a * (v * b) == v * a * b
  {
  }

  /** A run of `v` that starts after every smaller id counts all of `v`. */
  lemma RunOccurrences(s: seq<int>, lo: nat, hi: nat, v: int)
    requires Sorted(s) && lo < hi <= |s|
    requires forall a :: lo <= a < hi ==> s[a] == v
    requires hi < |s| ==> s[hi] != v
    requires lo > 0 ==> s[lo - 1] < v
    ensures Occurrences(s, v) == hi - lo
  {
    forall a | 0 <= a < lo ensures s[a] < v {
      assert s[a] <= s[lo - 1];
    }
    OccurrencesOfRun(s, lo, hi, v);
  }

  lemma SumOfLeftRun(left: seq<int>, f: int -> int, i0: nat, i1: nat, v: int)
    requires i0 <= i1 <= |left|
    requires forall a :: i0 <= a < i1 ==> left[a] == v
    ensures SumOf(f, left[..i1]) == SumOf(f, left[..i0]) + (i1 - i0) * f(v)
  {
    var run := left[i0..i1];
    assert forall a :: 0 <= a < |run| ==> run[a] == v;
    SumOfRun(f, run, v);
    assert left[..i1] == left[..i0] + run;
    SumOfAppend(f, left[..i0], run);
  }

  /** Once either side is exhausted, the remaining left ids never occur on
      the right. */
  lemma MergeTail(left: seq<int>, right: seq<int>, f: int -> int, i: nat, j: nat)
    requires Sorted(left) && Sorted(right)
    requires forall x :: f(x) == x * Occurrences(right, x)
    requires i <= |left| && j <= |right|
    requires i == |left| || j == |right|
    requires j > 0 && i < |left| ==> right[j - 1] < left[i]
    ensures SumOf(f, left) == SumOf(f, left[..i])
  {
    if i < |left| {
      forall b | i <= b < |left| ensures f(left[b]) == 0 {
        assert left[i] <= left[b];
        AbsentBetween(right, j, left[b]);
      }
      assert forall b :: 0 <= b < |left[i..]| ==> left[i..][b] == left[i + b];
      SumOfZeros(f, left[i..]);
    }
    assert left == left[..i] + left[i..];
    SumOfAppend(f, left[..i], left[i..]);
  }

  /** `part2_safe`: parse, sort both columns, run the merge. The answer is
      the similarity of the columns as parsed, in input order. */
  method Part2Safe(input: Bytes) returns (r: Result<int>)
    ensures r == Part2Spec(input)
    ensures r.Err? <==> Parse(input).Err?
  {
    var parsed := Parse(input);
    if parsed.Err? {
      return Err(parsed.error);
    }
    var (left, right) := parsed.value;
    var sl, sr := Sort(left), Sort(right);
    var score := SimilarityMerge(sl, sr);
    SimilarityPermutation(sl, sr, left, right);
    return Ok(score);
  }
}
