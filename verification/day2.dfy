/** Day 2 of `src/day2.rs`: a report (a line of levels) is safe when it is
    strictly monotone with steps of 1 to 3. Part 1 counts safe reports with
    a four-state fold; part 2 also counts reports that become safe once a
    single level is removed. */
module Day2 {
  import opened Results
  import opened Bytes
  import opened Parsers
  import opened Seqs

  // ---------------------------------------------------------------------
  // The `ReportStatus` fold
  // ---------------------------------------------------------------------

  /** What the fold knows after the levels seen so far: nothing, one level,
      or a direction together with the last level. */
  datatype Status = Uninitialized | Unknown(prev: int) | Descending(prev: int) | Ascending(prev: int)

  /** One step of the fold; `None` is the fold's `Err(())`. */
  function Step(acc: Status, lvl: int): (r: Option<Status>)
    ensures r.Some? ==> !r.value.Uninitialized?
    ensures r.Some? ==> r.value.Unknown? == acc.Uninitialized?
    ensures r.Some? && !acc.Uninitialized? ==> r.value.prev == lvl && 1 <= Distance(acc.prev, lvl) <= 3
    ensures acc.Ascending? && r.Some? ==> r.value.Ascending?
    ensures acc.Descending? && r.Some? ==> r.value.Descending?
  {
    match acc
    case Uninitialized => Some(Unknown(lvl))
    case Unknown(prev) =>
      if -3 <= prev - lvl <= -1 then Some(Ascending(lvl))
      else if 1 <= prev - lvl <= 3 then Some(Descending(lvl))
      else None
    case Descending(prev) =>
      if 1 <= prev - lvl <= 3 then Some(Descending(lvl)) else None
    case Ascending(prev) =>
      if 1 <= lvl - prev <= 3 then Some(Ascending(lvl)) else None
  }

  function Distance(a: int, b: int): nat {
    if a < b then b - a else a - b
  }

  /** `try_fold`: stops at the first step that fails. */
  function Fold(acc: Status, levels: seq<int>): Option<Status>
    decreases |levels|
  {
    if |levels| == 0 then Some(acc)
    else
      match Step(acc, levels[0])
      case None => None
      case Some(next) => Fold(next, levels[1..])
  }

  /** Part 1's filter: the fold over the report does not fail. */
  predicate IsSafe(report: seq<int>) {
    Fold(Uninitialized, report).Some?
  }

  // ---------------------------------------------------------------------
  // The reference definition of a safe report
  // ---------------------------------------------------------------------

  /** Every adjacent step goes up by 1 to 3. */
  predicate Rising(s: seq<int>) {
    forall i :: 0 < i < |s| ==> 1 <= s[i] - s[i - 1] <= 3
  }

  /** Every adjacent step goes down by 1 to 3. */
  predicate Falling(s: seq<int>) {
    forall i :: 0 < i < |s| ==> 1 <= s[i - 1] - s[i] <= 3
  }

  /** Safe as the puzzle states it: all increasing or all decreasing, and
      adjacent levels differ by at least 1 and at most 3. */
  predicate Gradual(report: seq<int>) {
    Rising(report) || Falling(report)
  }

  /** Rising from `x` into `s`: a first step of 1 to 3, then rising on. */
  lemma RisingCons(x: int, s: seq<int>)
    requires |s| > 0
    ensures Rising([x] + s) <==> 1 <= s[0] - x <= 3 && Rising(s)
  {
    var t := [x] + s;
    assert t[1..] == s;
    if 1 <= s[0] - x <= 3 && Rising(s) {
      forall i | 0 < i < |t| ensures 1 <= t[i] - t[i - 1] <= 3 {
        if i > 1 { assert t[i] == s[i - 1] && t[i - 1] == s[i - 2]; }
      }
    }
    if Rising(t) {
      assert t[1] - t[0] == s[0] - x;
      forall i | 0 < i < |s| ensures 1 <= s[i] - s[i - 1] <= 3 {
        assert s[i] == t[i + 1] && s[i - 1] == t[i];
      }
    }
  }

  /** Falling from `x` into `s`: a first step of 1 to 3, then falling on. */
  lemma FallingCons(x: int, s: seq<int>)
    requires |s| > 0
    ensures Falling([x] + s) <==> 1 <= x - s[0] <= 3 && Falling(s)
  {
    var t := [x] + s;
    assert t[1..] == s;
    if 1 <= x - s[0] <= 3 && Falling(s) {
      forall i | 0 < i < |t| ensures 1 <= t[i - 1] - t[i] <= 3 {
        if i > 1 { assert t[i] == s[i - 1] && t[i - 1] == s[i - 2]; }
      }
    }
    if Falling(t) {
      assert t[0] - t[1] == x - s[0];
      forall i | 0 < i < |s| ensures 1 <= s[i - 1] - s[i] <= 3 {
        assert s[i] == t[i + 1] && s[i - 1] == t[i];
      }
    }
  }

  lemma {:induction false} FoldAscending(prev: int, s: seq<int>)
    ensures Fold(Ascending(prev), s).Some? <==> Rising([prev] + s)
    decreases |s|
  {
    if |s| > 0 {
      FoldAscending(s[0], s[1..]);
      assert [s[0]] + s[1..] == s;
      RisingCons(prev, s);
    }
  }

  lemma {:induction false} FoldDescending(prev: int, s: seq<int>)
    ensures Fold(Descending(prev), s).Some? <==> Falling([prev] + s)
    decreases |s|
  {
    if |s| > 0 {
      FoldDescending(s[0], s[1..]);
      assert [s[0]] + s[1..] == s;
      FallingCons(prev, s);
    }
  }

  /** The fold accepts exactly the gradual reports. */
  lemma SafeIffGradual(report: seq<int>)
    ensures IsSafe(report) <==> Gradual(report)
  {
    if |report| < 2 {
      ShortReportsAreSafe(report);
    } else {
      var a, b := report[0], report[1];
      var rest := report[2..];
      assert report[1..][1..] == rest;
      assert Fold(Uninitialized, report) == Fold(Unknown(a), report[1..]);
      assert [b] + rest == report[1..];
      assert report == [a] + report[1..];
      if -3 <= a - b <= -1 {
        FoldAscending(b, rest);
        FoldAscending(a, report[1..]);
        assert !Falling(report) by { assert 1 <= report[1] - report[0]; }
      } else if 1 <= a - b <= 3 {
        FoldDescending(b, rest);
        FoldDescending(a, report[1..]);
        assert !Rising(report) by { assert 1 <= report[0] - report[1]; }
      } else {
        assert !Rising(report) && !Falling(report) by {
          assert report[1] - report[0] == b - a;
        }
      }
    }
  }

  /** Reports of zero or one level never reach a failing step. */
  lemma ShortReportsAreSafe(report: seq<int>)
    requires |report| <= 1
    ensures IsSafe(report)
  {
    if |report| == 1 {
      assert report[1..] == [];
    }
  }

  /** An equal adjacent pair, or a step larger than 3, makes a report
      unsafe, wherever it occurs. */
  lemma BadStepIsUnsafe(report: seq<int>, i: nat)
    requires 0 < i < |report|
    requires Distance(report[i - 1], report[i]) == 0 || Distance(report[i - 1], report[i]) > 3
    ensures !IsSafe(report)
  {
    SafeIffGradual(report);
  }

  // ---------------------------------------------------------------------
  // Part 2: tolerating one bad level
  // ---------------------------------------------------------------------

  /** `Vec::remove(i)` on a clone of the report. */
  function Without(report: seq<int>, i: nat): (r: seq<int>)
    requires i < |report|
    ensures |r| == |report| - 1
    ensures forall k :: 0 <= k < |r| ==> r[k] == if k < i then report[k] else report[k + 1]
  {
    report[..i] + report[i + 1..]
  }

  /** Part 2's filter, as the puzzle states it: removing some single level
      leaves a safe report. */
  predicate Tolerant(report: seq<int>) {
    exists i :: 0 <= i < |report| && IsSafe(Without(report, i))
  }

  /** The removal loop of `part2_naive`: try every index in order and stop
      at the first removal that is safe. */
  method TolerantLoop(report: seq<int>) returns (ok: bool)
    ensures ok <==> Tolerant(report)
  {
    var i := 0;
    while i < |report|
      invariant 0 <= i <= |report|
      invariant forall k :: 0 <= k < i ==> !IsSafe(Without(report, k))
    {
      var r := Without(report, i);
      if Fold(Uninitialized, r).Some? {
        return true;
      }
      i := i + 1;
    }
    return false;
  }

  /** An empty report has no level to remove, so part 2 does not count it
      although part 1 does. */
  lemma EmptyReport()
    ensures IsSafe([]) && !Tolerant([])
  {
  }

  /** Dropping the first level of a gradual report keeps it gradual. */
  lemma GradualTail(report: seq<int>)
    requires |report| > 0 && Gradual(report)
    ensures Gradual(report[1..])
  {
    var t := report[1..];
    assert forall i :: 0 < i < |t| ==> t[i] == report[i + 1] && t[i - 1] == report[i];
  }

  /** Every non-empty safe report is also tolerant: remove its first level. */
  lemma SafeIsTolerant(report: seq<int>)
    requires |report| > 0 && IsSafe(report)
    ensures Tolerant(report)
  {
    SafeIffGradual(report);
    GradualTail(report);
    assert Without(report, 0) == report[1..];
    SafeIffGradual(report[1..]);
  }

  // ---------------------------------------------------------------------
  // Parsing and the two answers
  // ---------------------------------------------------------------------

  /** One report: the whitespace-separated levels of a line. */
  function ParseReport(line: Bytes): (r: Result<seq<int>>)
    ensures r.Ok? ==> |r.value| == |Tokens(line)|
    ensures r.Ok? ==> forall i :: 0 <= i < |r.value| ==>
                        ParseI64(Tokens(line)[i]).Ok? && r.value[i] == ParseI64(Tokens(line)[i]).value
    ensures r.Err? ==> exists i :: 0 <= i < |Tokens(line)| && ParseI64(Tokens(line)[i]).Err?
    ensures r.Err? ==> r.error == ParseIntError
  {
    CollectAll(ParseI64, Tokens(line))
  }

  /** `parse`: one report per line; a token that is not an integer fails
      the whole input. */
  function Parse(input: Bytes): (r: Result<seq<seq<int>>>)
    ensures r.Ok? <==> forall i :: 0 <= i < |Lines(input)| ==> ParseReport(Lines(input)[i]).Ok?
    ensures r.Ok? ==> |r.value| == |Lines(input)|
    ensures r.Ok? ==> forall i :: 0 <= i < |r.value| ==> r.value[i] == ParseReport(Lines(input)[i]).value
    ensures r.Err? ==> r.error == ParseIntError
  {
    CollectAll(ParseReport, Lines(input))
  }

  /** A line holding a token that is not an integer fails the parse. */
  lemma BadTokenFails(input: Bytes, i: nat, j: nat)
    requires i < |Lines(input)| && j < |Tokens(Lines(input)[i])|
    requires !ParseI64(Tokens(Lines(input)[i])[j]).Ok?
    ensures Parse(input) == Err(ParseIntError)
  {
  }

  /** The number of reports satisfying `p`. */
  function CountWhere(p: seq<int> -> bool, reports: seq<seq<int>>): (n: nat)
    ensures n <= |reports|
  {
    if |reports| == 0 then 0
    else (if p(reports[0]) then 1 else 0) + CountWhere(p, reports[1..])
  }

  /** `part1_naive`: the number of lines whose levels are all rising or
      all falling by 1 to 3 per step. */
  function Part1Naive(input: Bytes): (r: Result<nat>)
    ensures r.Err? <==> Parse(input).Err?
    ensures r.Ok? ==> r.value <= |Lines(input)|
    ensures r.Ok? ==> r.value == CountWhere(Gradual, Parse(input).value)
  {
    var reports :- Parse(input);
    CountSafeIsCountGradual(reports);
    Ok(CountWhere(IsSafe, reports))
  }

  /** Counting by the fold and by the reference definition agree. */
  lemma {:induction false} CountSafeIsCountGradual(reports: seq<seq<int>>)
    ensures CountWhere(IsSafe, reports) == CountWhere(Gradual, reports)
    decreases |reports|
  {
    if |reports| > 0 {
      SafeIffGradual(reports[0]);
      CountSafeIsCountGradual(reports[1..]);
    }
  }

  /** `part2_naive`: the removal loop for each report, counting those for
      which it succeeds. */
  method Part2Naive(input: Bytes) returns (r: Result<nat>)
    ensures r.Err? <==> Parse(input).Err?
    ensures r.Ok? ==> r.value == CountWhere(Tolerant, Parse(input).value)
  {
    var reports :- Parse(input);
    var count := 0;
    var i := 0;
    while i < |reports|
      invariant 0 <= i <= |reports|
      invariant count + CountWhere(Tolerant, reports[i..]) == CountWhere(Tolerant, reports)
    {
      var ok := TolerantLoop(reports[i]);
      assert reports[i..][1..] == reports[i + 1..];
      if ok {
        count := count + 1;
      }
      i := i + 1;
    }
    return Ok(count);
  }

  /** Part 2 counts every report part 1 counts, except the empty ones. */
  lemma {:induction false} Part2CoversPart1(reports: seq<seq<int>>)
    ensures CountWhere(IsSafe, reports)
            <= CountWhere(Tolerant, reports) + CountWhere(IsEmpty, reports)
    decreases |reports|
  {
    if |reports| > 0 {
      Part2CoversPart1(reports[1..]);
      if |reports[0]| > 0 && IsSafe(reports[0]) {
        SafeIsTolerant(reports[0]);
      }
    }
  }

  predicate IsEmpty(report: seq<int>) {
    |report| == 0
  }
}
