/** Day 5: page-ordering rules and the updates that must respect them.
    The input is a block of rule lines `ll|rr`, a blank line, then update
    lines of comma-separated two-digit page numbers. Nothing is split into
    lines: rules are read at a fixed stride of six bytes and updates by
    walking byte positions. */
module Day5 {
  import opened Results
  import opened Bytes

  const RANGE_PANIC: string := "range end index out of range for slice"

  /** The page number a two-byte field denotes: the digit macro of the
      solver decodes tens and units from their ASCII codes. */
  function Decode2(d1: byte, d2: byte): int {
    10 * (d1 as int - '0' as int) + (d2 as int - '0' as int)
  }

  predicate IsPage(n: int) {
    0 <= n < 100
  }

  /** The two digits of a page number, as a rule or update line spells it. */
  function Two(n: int): (b: Bytes)
    requires IsPage(n)
    ensures |b| == 2 && IsDigit(b[0]) && IsDigit(b[1])
    ensures Decode2(b[0], b[1]) == n
  {
    [DigitByte(n / 10), DigitByte(n % 10)]
  }

  /** `left` must be printed before `right`. */
  datatype Rule = Rule(left: int, right: int)

  // ---------------------------------------------------------------------
  // Parsing the rules
  // ---------------------------------------------------------------------

  /** `parse` from byte `i`: while the five bytes at `i` have `|` in the
      middle, they form a rule and the next one starts six bytes on.
      Returns the rules in input order and the index of the first window
      that is not a rule; a window running past the input panics. */
  function ParseRules(input: Bytes, i: nat): (r: Result<(seq<Rule>, nat)>)
    ensures r.Ok? ==> r.value.1 == i + 6 * |r.value.0|
    ensures r.Ok? ==> r.value.1 + 5 <= |input| && input[r.value.1 + 2] != '|'
    ensures r.Ok? ==> forall k :: 0 <= k < |r.value.0| ==> RuleAt(input, i + 6 * k, r.value.0[k])
    ensures r.Err? ==> r.error == Panic(RANGE_PANIC)
    decreases |input| - i
  {
    if i + 5 > |input| then Err(Panic(RANGE_PANIC))
    else if input[i + 2] != '|' then Ok(([], i))
    else
      var rule := Rule(Decode2(input[i], input[i + 1]), Decode2(input[i + 3], input[i + 4]));
      match ParseRules(input, i + 6)
      case Err(e) => Err(e)
      case Ok((rules, stop)) =>
        assert forall k :: 0 < k <= |rules| ==> RuleAt(input, i + 6 * k, ([rule] + rules)[k]) by {
          forall k | 0 < k <= |rules| ensures RuleAt(input, i + 6 * k, ([rule] + rules)[k]) {
            assert ([rule] + rules)[k] == rules[k - 1];
            assert i + 6 * k == (i + 6) + 6 * (k - 1);
          }
        }
        Ok(([rule] + rules, stop))
  }

  /** The window at `j` spells `rule`: `|` in its middle and the two page
      numbers around it. */
  predicate RuleAt(input: Bytes, j: nat, rule: Rule) {
    && j + 5 <= |input| && input[j + 2] == '|'
    && rule == Rule(Decode2(input[j], input[j + 1]), Decode2(input[j + 3], input[j + 4]))
  }

  predicate IsRuleOfPages(rule: Rule) {
    IsPage(rule.left) && IsPage(rule.right)
  }

  /** One rule line, `ll|rr` and a line feed. */
  function RuleLine(rule: Rule): (b: Bytes)
    requires IsRuleOfPages(rule)
    ensures |b| == 6
  {
    Two(rule.left) + ['|'] + Two(rule.right) + ['\n']
  }

  function RenderRules(rules: seq<Rule>): (b: Bytes)
    requires forall k :: 0 <= k < |rules| ==> IsRuleOfPages(rules[k])
    ensures |b| == 6 * |rules|
  {
    if |rules| == 0 then [] else RuleLine(rules[0]) + RenderRules(rules[1..])
  }

  /** One round of the rule loop on a matching window. */
  lemma ParseRulesStep(input: Bytes, i: nat)
    requires i + 5 <= |input| && input[i + 2] == '|' && ParseRules(input, i + 6).Ok?
    ensures ParseRules(input, i) == Ok((
      [Rule(Decode2(input[i], input[i + 1]), Decode2(input[i + 3], input[i + 4]))] + ParseRules(input, i + 6).value.0,
      ParseRules(input, i + 6).value.1))
  {
  }

  /** The bytes of one rule line at `pos`: the separator, both page
      numbers, and what follows six bytes on. */
  lemma RuleLineAt(s: Bytes, pos: nat, rule: Rule, rest: Bytes)
    requires IsRuleOfPages(rule)
    requires pos <= |s| && s[pos..] == RuleLine(rule) + rest
    ensures pos + 6 <= |s| && s[pos + 2] == '|' && s[pos + 6..] == rest
    ensures Decode2(s[pos], s[pos + 1]) == rule.left && Decode2(s[pos + 3], s[pos + 4]) == rule.right
  {
    var line := RuleLine(rule);
    assert s[pos] == line[0] && s[pos + 1] == line[1] && s[pos + 2] == line[2];
    assert s[pos + 3] == line[3] && s[pos + 4] == line[4];
    assert s[pos + 6..] == s[pos..][6..];
  }

  /** Rule lines followed by a window that is not a rule parse back to the
      same rules, stopping exactly at that window. */
  lemma {:induction false} ParseRulesOfRender(s: Bytes, pos: nat, rules: seq<Rule>, tail: Bytes)
    requires forall k :: 0 <= k < |rules| ==> IsRuleOfPages(rules[k])
    requires pos <= |s| && s[pos..] == RenderRules(rules) + tail
    requires |tail| >= 5 && tail[2] != '|'
    ensures ParseRules(s, pos) == Ok((rules, pos + 6 * |rules|))
    decreases |rules|
  {
    if |rules| == 0 {
      assert s[pos..][..5] == tail[..5];
    } else {
      assert s[pos..] == RuleLine(rules[0]) + (RenderRules(rules[1..]) + tail);
      RuleLineAt(s, pos, rules[0], RenderRules(rules[1..]) + tail);
      ParseRulesOfRender(s, pos + 6, rules[1..], tail);
      assert ParseRules(s, pos + 6) == Ok((rules[1..], pos + 6 * |rules|));
      assert Rule(Decode2(s[pos], s[pos + 1]), Decode2(s[pos + 3], s[pos + 4])) == rules[0];
      ParseRulesStep(s, pos);
      assert [rules[0]] + rules[1..] == rules;
    }
  }

  // ---------------------------------------------------------------------
  // Parsing one update
  // ---------------------------------------------------------------------

  /** One update from byte `i`: a two-byte page number, then another after
      each `,`. Returns the pages and the index of the last number; reading
      a number past the input panics. */
  function ParseUpdate(input: Bytes, i: nat): (r: Result<(seq<int>, nat)>)
    ensures r.Ok? ==> |r.value.0| >= 1 && i <= r.value.1 && r.value.1 + 2 <= |input|
    ensures r.Ok? ==> r.value.1 + 2 == |input| || input[r.value.1 + 2] != ','
    decreases |input| - i
  {
    if i + 2 > |input| then Err(Panic(RANGE_PANIC))
    else
      var n := Decode2(input[i], input[i + 1]);
      if i + 2 < |input| && input[i + 2] == ',' then
        match ParseUpdate(input, i + 3)
        case Err(e) => Err(e)
        case Ok((pages, last)) => Ok(([n] + pages, last))
      else Ok(([n], i))
  }

  /** Reading an update fails only by reading a number past the input,
      which it does at once when fewer than two bytes are left. */
  lemma {:induction false} ParseUpdatePanics(input: Bytes, i: nat)
    ensures ParseUpdate(input, i).Err? ==> ParseUpdate(input, i).error == Panic(RANGE_PANIC)
    ensures i + 2 > |input| ==> ParseUpdate(input, i).Err?
    decreases |input| - i
  {
    if i + 2 < |input| && input[i + 2] == ',' {
      ParseUpdatePanics(input, i + 3);
    }
  }

  predicate ArePages(pages: seq<int>) {
    forall k :: 0 <= k < |pages| ==> IsPage(pages[k])
  }

  /** An update line: the page numbers joined by `,`. */
  function RenderUpdate(pages: seq<int>): (b: Bytes)
    requires |pages| >= 1 && ArePages(pages)
    ensures |b| == 3 * |pages| - 1 && IsDigit(b[0]) && IsDigit(b[1])
    decreases |pages|
  {
    if |pages| == 1 then Two(pages[0]) else Two(pages[0]) + [','] + RenderUpdate(pages[1..])
  }

  /** An update line followed by anything but `,` parses back to its pages;
      the last number starts two bytes before the line's end. */
  lemma {:induction false} ParseUpdateOfRender(s: Bytes, pos: nat, pages: seq<int>, tail: Bytes)
    requires |pages| >= 1 && ArePages(pages)
    requires pos <= |s| && s[pos..] == RenderUpdate(pages) + tail
    requires |tail| == 0 || tail[0] != ','
    ensures ParseUpdate(s, pos) == Ok((pages, pos + 3 * |pages| - 3))
    decreases |pages|
  {
    var two := Two(pages[0]);
    if |pages| == 1 {
      assert s[pos..] == two + tail;
      assert s[pos] == two[0] && s[pos + 1] == two[1];
      assert pos + 2 < |s| ==> s[pos + 2] == s[pos..][2] == tail[0];
      assert pages == [pages[0]];
    } else {
      var rest := RenderUpdate(pages[1..]);
      assert s[pos..] == two + ([','] + (rest + tail));
      assert s[pos] == two[0] && s[pos + 1] == two[1];
      assert s[pos + 2] == s[pos..][2] == ',';
      assert s[pos + 3..] == s[pos..][3..] == rest + tail;
      ParseUpdateOfRender(s, pos + 3, pages[1..], tail);
      assert [pages[0]] + pages[1..] == pages;
    }
  }

  // ---------------------------------------------------------------------
  // The ordering check
  // ---------------------------------------------------------------------

  /** The check at page position `idx` for rule `j`: when the page there is
      the rule's right page, the left page does not occur from `idx` on
      (the position itself included). */
  predicate RespectsAt(buf: seq<int>, rules: seq<Rule>, idx: int, j: int)
    requires 0 <= idx < |buf| && 0 <= j < |rules|
  {
    buf[idx] == rules[j].right ==> rules[j].left !in buf[idx..]
  }

  /** The update passes every check. */
  predicate Respects(buf: seq<int>, rules: seq<Rule>) {
    forall idx, j :: 0 <= idx < |buf| && 0 <= j < |rules| ==> RespectsAt(buf, rules, idx, j)
  }

  /** The checking loops of `part1`: every page against every rule,
      clearing the flag on a violation. */
  method CheckUpdate(buf: seq<int>, rules: seq<Rule>) returns (correct: bool)
    ensures correct <==> Respects(buf, rules)
  {
    correct := true;
    for idx := 0 to |buf|
      invariant correct <==> forall k, j :: 0 <= k < idx && 0 <= j < |rules| ==> RespectsAt(buf, rules, k, j)
    {
      ghost var before := correct;
      for j := 0 to |rules|
        invariant correct <==> before && forall j' :: 0 <= j' < j ==> RespectsAt(buf, rules, idx, j')
      {
        if buf[idx] == rules[j].right {
          if rules[j].left in buf[idx..] {
            correct := false;
          }
        }
        assert RespectsAt(buf, rules, idx, j) || !correct;
      }
    }
  }

  /** The puzzle's meaning of a correct update: for every rule, each
      occurrence of its left page comes strictly before each occurrence of
      its right page. */
  predicate Ordered(buf: seq<int>, rules: seq<Rule>) {
    forall j, a, b ::
      (0 <= j < |rules| && 0 <= a < |buf| && 0 <= b < |buf|
       && buf[a] == rules[j].left && buf[b] == rules[j].right) ==> a < b
  }

  /** The check accepts an update exactly when it is ordered. */
  lemma RespectsIffOrdered(buf: seq<int>, rules: seq<Rule>)
    ensures Respects(buf, rules) <==> Ordered(buf, rules)
  {
    if Respects(buf, rules) {
      forall j, a, b | 0 <= j < |rules| && 0 <= a < |buf| && 0 <= b < |buf|
        && buf[a] == rules[j].left && buf[b] == rules[j].right
        ensures a < b
      {
        assert RespectsAt(buf, rules, b, j);
      }
    }
    if Ordered(buf, rules) {
      forall idx, j | 0 <= idx < |buf| && 0 <= j < |rules|
        ensures RespectsAt(buf, rules, idx, j)
      {
      }
    }
  }

  /** A rule `n|n` rejects every update that contains `n`, because the
      left-page search starts at the right page's own position. */
  lemma SelfRuleRejects(buf: seq<int>, rules: seq<Rule>, n: int)
    requires Rule(n, n) in rules && n in buf
    ensures !Respects(buf, rules)
  {
    var j :| 0 <= j < |rules| && rules[j] == Rule(n, n);
    var a :| 0 <= a < |buf| && buf[a] == n;
    RespectsIffOrdered(buf, rules);
  }

  /** Only the set of rules matters: their order and repetitions do not
      change the verdict. */
  lemma RespectsOrderFree(buf: seq<int>, rules: seq<Rule>, rules': seq<Rule>)
    requires forall rule :: rule in rules <==> rule in rules'
    ensures Respects(buf, rules) <==> Respects(buf, rules')
  {
    if Respects(buf, rules) {
      forall idx, j | 0 <= idx < |buf| && 0 <= j < |rules'| ensures RespectsAt(buf, rules', idx, j) {
        assert rules'[j] in rules;
        var i :| 0 <= i < |rules| && rules[i] == rules'[j];
        assert RespectsAt(buf, rules, idx, i);
      }
    }
    if Respects(buf, rules') {
      forall idx, j | 0 <= idx < |buf| && 0 <= j < |rules| ensures RespectsAt(buf, rules, idx, j) {
        assert rules[j] in rules';
        var i :| 0 <= i < |rules'| && rules'[i] == rules[j];
        assert RespectsAt(buf, rules', idx, i);
      }
    }
  }

  /** What an update adds: its middle page when correct, 0 otherwise. */
  function UpdateValue(buf: seq<int>, rules: seq<Rule>): int
    requires |buf| >= 1
  {
    if Respects(buf, rules) then buf[|buf| / 2] else 0
  }

  // ---------------------------------------------------------------------
  // part1
  // ---------------------------------------------------------------------

  /** The update loop of `part1` on the remaining input: read an update,
      add its value, and continue on the input from three bytes past its
      last number while that position is within the input. */
  function Updates(input: Bytes, rules: seq<Rule>): Result<int>
    decreases |input|
  {
    match ParseUpdate(input, 0)
    case Err(e) => Err(e)
    case Ok((buf, last)) =>
      AddTo(UpdateValue(buf, rules), if last + 3 <= |input| then Updates(input[last + 3..], rules) else Ok(0))
  }

  /** The only way the update loop fails is reading a number past the
      input, which it does at once on fewer than two bytes. */
  lemma {:induction false} UpdatesPanics(input: Bytes, rules: seq<Rule>)
    ensures Updates(input, rules).Err? ==> Updates(input, rules).error == Panic(RANGE_PANIC)
    ensures |input| < 2 ==> Updates(input, rules).Err?
    decreases |input|
  {
    ParseUpdatePanics(input, 0);
    match ParseUpdate(input, 0)
    case Err(e) =>
    case Ok((buf, last)) =>
      if last + 3 <= |input| {
        UpdatesPanics(input[last + 3..], rules);
      }
  }

  /** `v` added to the outcome of the remaining rounds. */
  function AddTo(v: int, r: Result<int>): Result<int> {
    match r
    case Err(e) => Err(e)
    case Ok(rest) => Ok(v + rest)
  }

  /** `part1`: the rules, then the updates from the byte after the
      blank line that ends them. */
  function Part1(input: Bytes): (r: Result<int>)
    ensures r.Err? ==> r.error == Panic(RANGE_PANIC)
    ensures ParseRules(input, 0).Err? ==> r.Err?
    ensures ParseRules(input, 0).Ok? ==>
              (r.Err? <==> Updates(input[ParseRules(input, 0).value.1 + 1..], ParseRules(input, 0).value.0).Err?)
  {
    match ParseRules(input, 0)
    case Err(e) => Err(e)
    case Ok((rules, stop)) =>
      UpdatesPanics(input[stop + 1..], rules);
      Updates(input[stop + 1..], rules)
  }

  predicate AreUpdates(us: seq<seq<int>>) {
    forall k :: 0 <= k < |us| ==> |us[k]| >= 1 && ArePages(us[k])
  }

  /** Update lines joined by line feeds, with none after the last. */
  function RenderUpdates(us: seq<seq<int>>): (b: Bytes)
    requires |us| >= 1 && AreUpdates(us)
    ensures |b| >= 2 && IsDigit(b[0]) && IsDigit(b[1])
    decreases |us|
  {
    if |us| == 1 then RenderUpdate(us[0]) else RenderUpdate(us[0]) + (['\n'] + RenderUpdates(us[1..]))
  }

  function SumValues(us: seq<seq<int>>, rules: seq<Rule>): int
    requires AreUpdates(us)
  {
    if |us| == 0 then 0 else UpdateValue(us[0], rules) + SumValues(us[1..], rules)
  }

  /** One round of the update loop, once the first update is read. */
  lemma UpdatesStep(input: Bytes, rules: seq<Rule>)
    requires ParseUpdate(input, 0).Ok?
    ensures ParseUpdate(input, 0).value.1 + 3 <= |input| ==>
      Updates(input, rules) == AddTo(UpdateValue(ParseUpdate(input, 0).value.0, rules),
                                     Updates(input[ParseUpdate(input, 0).value.1 + 3..], rules))
    ensures ParseUpdate(input, 0).value.1 + 3 > |input| ==>
      Updates(input, rules) == Ok(UpdateValue(ParseUpdate(input, 0).value.0, rules))
  {
  }

  /** The first update line of `s`, followed by a line feed and `rest`,
      is one round of the loop. */
  lemma UpdatesCons(s: Bytes, pages: seq<int>, rest: Bytes, rules: seq<Rule>)
    requires |pages| >= 1 && ArePages(pages)
    requires s == RenderUpdate(pages) + (['\n'] + rest)
    ensures Updates(s, rules) == AddTo(UpdateValue(pages, rules), Updates(rest, rules))
  {
    assert s[0..] == s;
    ParseUpdateOfRender(s, 0, pages, ['\n'] + rest);
    var last := 3 * |pages| - 3;
    assert ParseUpdate(s, 0).value.0 == pages && ParseUpdate(s, 0).value.1 == last;
    assert s[last + 3..] == rest;
    UpdatesStep(s, rules);
  }

  /** The last update line of `s`, with nothing after it, ends the loop. */
  lemma UpdatesLast(s: Bytes, pages: seq<int>, rules: seq<Rule>)
    requires |pages| >= 1 && ArePages(pages)
    requires s == RenderUpdate(pages)
    ensures Updates(s, rules) == Ok(UpdateValue(pages, rules))
  {
    assert s[0..] == s + [];
    ParseUpdateOfRender(s, 0, pages, []);
    UpdatesStep(s, rules);
  }

  /** Rendered updates with no trailing line feed are summed update by
      update. */
  lemma {:induction false} UpdatesOfRender(us: seq<seq<int>>, rules: seq<Rule>)
    requires |us| >= 1 && AreUpdates(us)
    ensures Updates(RenderUpdates(us), rules) == Ok(SumValues(us, rules))
    decreases |us|
  {
    if |us| == 1 {
      UpdatesLast(RenderUpdates(us), us[0], rules);
      assert SumValues(us, rules) == UpdateValue(us[0], rules) + SumValues([], rules);
    } else {
      UpdatesCons(RenderUpdates(us), us[0], RenderUpdates(us[1..]), rules);
      UpdatesOfRender(us[1..], rules);
      assert SumValues(us, rules) == UpdateValue(us[0], rules) + SumValues(us[1..], rules);
    }
  }

  /** A line feed after the last update makes the loop start one more
      update on an empty remainder, whose first number read panics. */
  lemma {:induction false} UpdatesTrailingNewline(us: seq<seq<int>>, rules: seq<Rule>)
    requires |us| >= 1 && AreUpdates(us)
    ensures Updates(RenderUpdates(us) + ['\n'], rules).Err?
    decreases |us|
  {
    var s := RenderUpdates(us) + ['\n'];
    if |us| == 1 {
      UpdatesCons(s, us[0], [], rules);
    } else {
      var rest := RenderUpdates(us[1..]);
      assert s == RenderUpdate(us[0]) + (['\n'] + (rest + ['\n']));
      UpdatesCons(s, us[0], rest + ['\n'], rules);
      UpdatesTrailingNewline(us[1..], rules);
    }
  }

  /** A puzzle input, as its rules, a blank line and its updates. */
  function RenderInput(rules: seq<Rule>, us: seq<seq<int>>): Bytes
    requires forall k :: 0 <= k < |rules| ==> IsRuleOfPages(rules[k])
    requires |us| >= 1 && AreUpdates(us)
  {
    RenderRules(rules) + (['\n'] + RenderUpdates(us))
  }

  /** `part1` once the rules are read. */
  lemma Part1Step(input: Bytes)
    requires ParseRules(input, 0).Ok?
    ensures Part1(input) == Updates(input[ParseRules(input, 0).value.1 + 1..], ParseRules(input, 0).value.0)
  {
  }

  /** Rule lines, a blank line, then any text that does not start a rule:
      the rules parse back and the text is what remains. */
  lemma RulesThen(rules: seq<Rule>, body: Bytes)
    requires forall k :: 0 <= k < |rules| ==> IsRuleOfPages(rules[k])
    requires |body| >= 4 && body[1] != '|'
    ensures ParseRules(RenderRules(rules) + (['\n'] + body), 0) == Ok((rules, 6 * |rules|))
  {
    var s := RenderRules(rules) + (['\n'] + body);
    assert s[0..] == s;
    ParseRulesOfRender(s, 0, rules, ['\n'] + body);
  }

  lemma AppendNewline(a: Bytes, b: Bytes)
    ensures a + (['\n'] + b) + ['\n'] == a + (['\n'] + (b + ['\n']))
  {
  }

  lemma AfterBlankLine(a: Bytes, body: Bytes)
    ensures (a + (['\n'] + body))[|a| + 1..] == body
  {
  }

  /** `part1` of a rendered input is the sum of the updates' values. The
      update text must be at least four bytes long, for the rule parser's
      last five-byte window reads into it. */
  lemma Part1OfRender(rules: seq<Rule>, us: seq<seq<int>>)
    requires forall k :: 0 <= k < |rules| ==> IsRuleOfPages(rules[k])
    requires |us| >= 1 && AreUpdates(us) && |RenderUpdates(us)| >= 4
    ensures Part1(RenderInput(rules, us)) == Ok(SumValues(us, rules))
  {
    RulesThen(rules, RenderUpdates(us));
    AfterBlankLine(RenderRules(rules), RenderUpdates(us));
    Part1Step(RenderInput(rules, us));
    UpdatesOfRender(us, rules);
  }

  /** The same input with a line feed after the last update panics. */
  lemma Part1TrailingNewlinePanics(rules: seq<Rule>, us: seq<seq<int>>)
    requires forall k :: 0 <= k < |rules| ==> IsRuleOfPages(rules[k])
    requires |us| >= 1 && AreUpdates(us) && |RenderUpdates(us)| >= 4
    ensures Part1(RenderInput(rules, us) + ['\n']).Err?
  {
    var body := RenderUpdates(us) + ['\n'];
    var s := RenderRules(rules) + (['\n'] + body);
    assert RenderInput(rules, us) + ['\n'] == s by {
      AppendNewline(RenderRules(rules), RenderUpdates(us));
    }
    var parsed := ParseRules(s, 0);
    assert parsed.Ok? && parsed.value.0 == rules && parsed.value.1 == |RenderRules(rules)| by {
      RulesThen(rules, body);
    }
    assert s[parsed.value.1 + 1..] == body by {
      AfterBlankLine(RenderRules(rules), body);
    }
    assert Updates(body, rules).Err? by {
      UpdatesTrailingNewline(us, rules);
    }
    Part1Step(s);
  }
}
