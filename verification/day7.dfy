/** Day 7, part 1 ("Bridge Repair"). Each input line reads
    `target: v0 v1 ... vk`; the line is worth `target` when some choice of
    `+` or `*` between the values, evaluated strictly left to right,
    produces `target`, and 0 otherwise. The solver tries every operator
    choice as the bits of a counter `mask < 2^k`: bit `idx` set means the
    operator before `v(idx+1)` is `*`. */
module Day7 {
  import opened Results
  import opened Bytes
  import opened Seqs
  import opened Parsers

  /** `values.len() - 1` on an empty list of values. */
  const SUB_PANIC := "attempt to subtract with overflow"
  /** `part1` unwraps the result of `part1_safe`. */
  const UNWRAP_PANIC := "called `Result::unwrap()` on an `Err` value"

  function Pow2(n: nat): (p: nat)
    ensures p >= 1
  {
    if n == 0 then 1 else 2 * Pow2(n - 1)
  }

  /** `mask & (1 << idx) != 0`: bit `idx` of `mask`. */
  predicate Bit(mask: nat, idx: nat) {
    if idx == 0 then mask % 2 == 1 else Bit(mask / 2, idx - 1)
  }

  // ---------------------------------------------------------------------
  // Evaluating one operator choice
  // ---------------------------------------------------------------------

  /** The `fold` over `values[1..].enumerate()`: the operand `xs[0]` sits
      at position `idx` and is joined by `*` when bit `idx` of `mask` is set. */
  function FoldMask(acc: nat, xs: seq<nat>, mask: nat, idx: nat): nat
    decreases |xs|
  {
    if |xs| == 0 then acc
    else FoldMask(if Bit(mask, idx) then acc * xs[0] else acc + xs[0], xs[1..], mask, idx + 1)
  }

  /** The value the operator choice `mask` gives the equation's values. */
  function Eval(values: seq<nat>, mask: nat): nat
    requires |values| >= 1
  {
    FoldMask(values[0], values[1..], mask, 0)
  }

  /** The puzzle's own reading: `ops[i]` is the operator between the
      running result and `xs[i]` (true for `*`, false for `+`). */
  function EvalOps(acc: nat, xs: seq<nat>, ops: seq<bool>): nat
    requires |ops| == |xs|
    decreases |xs|
  {
    if |xs| == 0 then acc
    else EvalOps(if ops[0] then acc * xs[0] else acc + xs[0], xs[1..], ops[1..])
  }

  /** The operators a mask selects for `n` positions starting at `idx`. */
  function OpsOf(mask: nat, idx: nat, n: nat): (ops: seq<bool>)
    ensures |ops| == n
  {
    seq(n, i requires 0 <= i < n => Bit(mask, idx + i))
  }

  /** The counter value whose bits are `ops`, lowest bit first. */
  function MaskOf(ops: seq<bool>): nat {
    if |ops| == 0 then 0 else (if ops[0] then 1 else 0) + 2 * MaskOf(ops[1..])
  }

  /** The fold over a mask applies exactly the operators its bits name. */
  lemma {:induction false} FoldMaskIsOps(acc: nat, xs: seq<nat>, mask: nat, idx: nat)
    ensures FoldMask(acc, xs, mask, idx) == EvalOps(acc, xs, OpsOf(mask, idx, |xs|))
    decreases |xs|
  {
    if |xs| > 0 {
      var ops := OpsOf(mask, idx, |xs|);
      var next := if Bit(mask, idx) then acc * xs[0] else acc + xs[0];
      assert ops[0] == Bit(mask, idx);
      assert ops[1..] == OpsOf(mask, idx + 1, |xs| - 1);
      FoldMaskIsOps(next, xs[1..], mask, idx + 1);
    }
  }

  /** Every mask below `2^n` stands for an operator choice ... */
  lemma {:induction false} MaskOfBound(ops: seq<bool>)
    ensures MaskOf(ops) < Pow2(|ops|)
    decreases |ops|
  {
    if |ops| > 0 {
      MaskOfBound(ops[1..]);
    }
  }

  /** The lowest bit of `b + 2 * k` is `b`; the rest are those of `k`. */
  lemma LowBit(b: nat, k: nat)
    requires b < 2
    ensures (b + 2 * k) % 2 == b && (b + 2 * k) / 2 == k
  {
  }

  /** ... and every operator choice has a mask whose bits are exactly its operators. */
  lemma {:induction false} MaskOfBits(ops: seq<bool>, i: nat)
    requires i < |ops|
    ensures Bit(MaskOf(ops), i) == ops[i]
    decreases i
  {
    LowBit(if ops[0] then 1 else 0, MaskOf(ops[1..]));
    if i > 0 {
      MaskOfBits(ops[1..], i - 1);
    }
  }

  lemma OpsOfMaskOf(ops: seq<bool>)
    ensures OpsOf(MaskOf(ops), 0, |ops|) == ops
  {
    forall i | 0 <= i < |ops| ensures OpsOf(MaskOf(ops), 0, |ops|)[i] == ops[i] {
      MaskOfBits(ops, i);
    }
  }

  // ---------------------------------------------------------------------
  // Whether an equation can be made true
  // ---------------------------------------------------------------------

  /** Some choice of `+` and `*` between the values produces `target`. */
  ghost predicate Solvable(target: nat, values: seq<nat>) {
    |values| >= 1
    && exists ops: seq<bool> :: |ops| == |values| - 1 && EvalOps(values[0], values[1..], ops) == target
  }

  /** The `for i in lo..hi` search with its early return: `target` as soon
      as one mask evaluates to it, 0 when none does. */
  function Search(target: nat, values: seq<nat>, lo: nat, hi: nat): (r: nat)
    requires |values| >= 1
    ensures r == target || r == 0
    decreases hi - lo
  {
    if lo >= hi then 0
    else if Eval(values, lo) == target then target
    else Search(target, values, lo + 1, hi)
  }

  /** The value one parsed line contributes. */
  function Calibration(target: nat, values: seq<nat>): (r: Result<nat>)
    ensures r.Err? <==> |values| == 0
    ensures r.Ok? ==> r.value == target || r.value == 0
  {
    if |values| == 0 then Err(Panic(SUB_PANIC))
    else Ok(Search(target, values, 0, Pow2(|values| - 1)))
  }

  /** The search reports `target` exactly when some mask in range hits it. */
  lemma {:induction false} SearchFinds(target: nat, values: seq<nat>, lo: nat, hi: nat)
    requires |values| >= 1
    ensures Search(target, values, lo, hi)
            == if exists mask :: lo <= mask < hi && Eval(values, mask) == target then target else 0
    decreases hi - lo
  {
    if lo < hi && Eval(values, lo) != target {
      SearchFinds(target, values, lo + 1, hi);
      if exists mask :: lo <= mask < hi && Eval(values, mask) == target {
        var mask :| lo <= mask < hi && Eval(values, mask) == target;
        assert lo + 1 <= mask;
      }
    }
  }

  /** Enumerating the masks below `2^(k-1)` covers exactly the operator
      choices of an equation with `k` values. */
  lemma MasksCoverChoices(target: nat, values: seq<nat>)
    requires |values| >= 1
    ensures (exists mask :: 0 <= mask < Pow2(|values| - 1) && Eval(values, mask) == target)
            <==> Solvable(target, values)
  {
    var xs := values[1..];
    if exists mask :: 0 <= mask < Pow2(|values| - 1) && Eval(values, mask) == target {
      var mask :| 0 <= mask < Pow2(|values| - 1) && Eval(values, mask) == target;
      FoldMaskIsOps(values[0], xs, mask, 0);
      assert EvalOps(values[0], xs, OpsOf(mask, 0, |xs|)) == target;
    }
    if Solvable(target, values) {
      var ops :| |ops| == |values| - 1 && EvalOps(values[0], xs, ops) == target;
      MaskOfBound(ops);
      OpsOfMaskOf(ops);
      FoldMaskIsOps(values[0], xs, MaskOf(ops), 0);
      assert Eval(values, MaskOf(ops)) == target;
    }
  }

  /** A line is worth its target exactly when the equation can be made true. */
  lemma CalibrationSolves(target: nat, values: seq<nat>)
    requires |values| >= 1
    ensures Calibration(target, values) == Ok(if Solvable(target, values) then target else 0)
  {
    SearchFinds(target, values, 0, Pow2(|values| - 1));
    MasksCoverChoices(target, values);
  }

  /** With no values the solver panics before trying any mask. */
  lemma CalibrationNoValues(target: nat)
    ensures Calibration(target, []).Err?
  {
  }

  /** A lone value has no operator to choose: it counts iff it is the target. */
  lemma CalibrationSingle(target: nat, v: nat)
    ensures Calibration(target, [v]) == Ok(if v == target then target else 0)
  {
    CalibrationSolves(target, [v]);
    if v == target {
      assert EvalOps(v, [], []) == target;
    }
  }

  // ---------------------------------------------------------------------
  // The two extreme masks: all `+` and all `*`
  // ---------------------------------------------------------------------

  lemma {:induction false} FoldAllPlus(acc: nat, xs: seq<nat>, idx: nat)
    ensures FoldMask(acc, xs, 0, idx) == acc + SumOf(x => x, xs)
    decreases |xs|
  {
    if |xs| > 0 {
      NoBitOfZero(idx);
      FoldAllPlus(acc + xs[0], xs[1..], idx + 1);
    }
  }

  lemma {:induction false} NoBitOfZero(idx: nat)
    ensures !Bit(0, idx)
    decreases idx
  {
    if idx > 0 {
      NoBitOfZero(idx - 1);
    }
  }

  function Product(xs: seq<nat>): nat {
    if |xs| == 0 then 1 else xs[0] * Product(xs[1..])
  }

  /** Multiplying every value is the choice with `*` in every position. */
  lemma {:induction false} EvalOpsAllTimes(acc: nat, xs: seq<nat>, ops: seq<bool>)
    requires |ops| == |xs| && forall i :: 0 <= i < |ops| ==> ops[i]
    ensures EvalOps(acc, xs, ops) == Product([acc] + xs)
    decreases |xs|
  {
    if |xs| > 0 {
      EvalOpsAllTimes(acc * xs[0], xs[1..], ops[1..]);
      assert ([acc] + xs)[1..] == xs && ([acc * xs[0]] + xs[1..])[1..] == xs[1..];
      assert Product([acc] + xs) == acc * (xs[0] * Product(xs[1..]));
    }
  }

  /** `*` in each of `n` positions. */
  function AllTimes(n: nat): (ops: seq<bool>)
    ensures |ops| == n && forall i :: 0 <= i < n ==> ops[i]
  {
    seq(n, i => true)
  }

  /** The counter for "`*` everywhere" is the largest one, `2^n - 1`. */
  lemma {:induction false} AllTimesMask(n: nat)
    ensures MaskOf(AllTimes(n)) == Pow2(n) - 1
    decreases n
  {
    if n > 0 {
      assert AllTimes(n)[1..] == AllTimes(n - 1);
      AllTimesMask(n - 1);
    }
  }

  /** Mask 0, the first one tried, adds every value up. */
  lemma FirstMaskSums(values: seq<nat>)
    requires |values| >= 1
    ensures Eval(values, 0) == SumOf(x => x, values)
  {
    FoldAllPlus(values[0], values[1..], 0);
  }

  /** The last mask tried, `2^(k-1) - 1`, multiplies every value. */
  lemma LastMaskMultiplies(values: seq<nat>, last: nat)
    requires |values| >= 1 && last + 1 == Pow2(|values| - 1)
    ensures Eval(values, last) == Product(values)
  {
    var xs := values[1..];
    var ops := AllTimes(|xs|);
    assert MaskOf(ops) == last by { AllTimesMask(|xs|); }
    assert OpsOf(last, 0, |xs|) == ops by { OpsOfMaskOf(ops); }
    assert Eval(values, last) == EvalOps(values[0], xs, ops) by {
      FoldMaskIsOps(values[0], xs, last, 0);
    }
    assert EvalOps(values[0], xs, ops) == Product(values) by {
      EvalOpsAllTimes(values[0], xs, ops);
      assert [values[0]] + xs == values;
    }
  }

  // ---------------------------------------------------------------------
  // Parsing a line
  // ---------------------------------------------------------------------

  /** `split_once(':')`, `res.parse::<u64>()` and the whitespace-separated
      values each parsed with `parse::<u64>()`. */
  function ParseEquation(line: Bytes): (r: Result<(nat, seq<nat>)>)
    ensures ':' !in line ==> r == Err(InvalidInputFormat)
    ensures r.Err? && ':' in line ==> r.error == ParseIntError
  {
    match Find(line, ':')
    case None => Err(InvalidInputFormat)
    case Some(k) =>
      match ParseU64(line[..k])
      case Err(e) => Err(e)
      case Ok(target) =>
        match CollectAll(ParseU64, Tokens(line[k + 1..]))
        case Err(e) => Err(e)
        case Ok(values) => Ok((target, values))
  }

  /** What one line adds to the total, or the error it stops the solver with. */
  function LineValue(line: Bytes): Result<nat> {
    match ParseEquation(line)
    case Err(e) => Err(e)
    case Ok((target, values)) => Calibration(target, values)
  }

  /** The text of an equation as the puzzle writes it. */
  function RenderEquation(target: nat, values: seq<nat>): Bytes {
    Render(target) + [':'] + RenderValues(values)
  }

  function RenderValues(values: seq<nat>): Bytes {
    if |values| == 0 then [] else [' '] + Render(values[0]) + RenderValues(values[1..])
  }

  /** Tokens of a rendered value list are the renderings of the values. */
  lemma {:induction false} TokensOfValues(values: seq<nat>)
    ensures Tokens(RenderValues(values)) == seq(|values|, i requires 0 <= i < |values| => Render(values[i]))
    decreases |values|
  {
    if |values| > 0 {
      TokensOfValuesStep(values);
      TokensOfValues(values[1..]);
      var tail := values[1..];
      assert seq(|values|, i requires 0 <= i < |values| => Render(values[i]))
          == [Render(values[0])] + seq(|tail|, i requires 0 <= i < |tail| => Render(tail[i]));
    }
  }

  /** The first rendered value is the first token. */
  lemma TokensOfValuesStep(values: seq<nat>)
    requires |values| > 0
    ensures Tokens(RenderValues(values)) == [Render(values[0])] + Tokens(RenderValues(values[1..]))
  {
    var d := Render(values[0]);
    var rest := RenderValues(values[1..]);
    assert RenderValues(values) == [' '] + (d + rest);
    assert IsToken(d);
    assert |rest| == 0 || IsAsciiWhitespace(rest[0]);
    TokensAfterSpace(d, rest);
  }

  lemma TokensAfterSpace(d: Bytes, rest: Bytes)
    requires IsToken(d)
    requires |rest| == 0 || IsAsciiWhitespace(rest[0])
    ensures Tokens([' '] + (d + rest)) == [d] + Tokens(rest)
  {
    TokensSkipGap([' '], d + rest);
    TokensCons(d, rest);
  }

  /** Parsing a rendered equation gives back its target and values. */
  lemma ParseOfRender(target: nat, values: seq<nat>)
    ensures ParseEquation(RenderEquation(target, values)) == Ok((target, values))
  {
    var line := RenderEquation(target, values);
    var t := Render(target);
    assert line[|t|] == ':' && line[..|t|] == t;
    FindFirst(line, ':', |t|);
    assert line[|t| + 1..] == RenderValues(values);
    ParseRenderRoundTrip(target);
    TokensOfValues(values);
    var tokens := Tokens(RenderValues(values));
    forall i | 0 <= i < |tokens| ensures ParseU64(tokens[i]) == Ok(values[i]) {
      ParseRenderRoundTrip(values[i]);
    }
    var parsed := CollectAll(ParseU64, tokens);
    assert parsed.value == values;
  }

  /** A line that is a well-formed equation is worth its target exactly
      when the equation can be made true. */
  lemma LineValueOfRender(target: nat, values: seq<nat>)
    requires |values| >= 1
    ensures LineValue(RenderEquation(target, values)) == Ok(if Solvable(target, values) then target else 0)
  {
    ParseOfRender(target, values);
    CalibrationSolves(target, values);
  }

  // ---------------------------------------------------------------------
  // The whole input
  // ---------------------------------------------------------------------

  /** `values.sum()` over per-line results: the sum when every line
      succeeds, otherwise the error of the first line that fails. */
  function Total(value: Bytes -> Result<nat>, lines: seq<Bytes>): Result<nat>
    decreases |lines|
  {
    if |lines| == 0 then Ok(0)
    else match value(lines[0])
      case Err(e) => Err(e)
      case Ok(v) =>
        match Total(value, lines[1..])
        case Err(e) => Err(e)
        case Ok(rest) => Ok(v + rest)
  }

  /** `part1_safe`. */
  function Part1Safe(input: Bytes): (r: Result<nat>)
    ensures r.Ok? <==> AllOk(LineValue, Lines(input))
    ensures r.Ok? ==> r.value == SumOf(LineWorth(LineValue), Lines(input))
  {
    var lines := Lines(input);
    TotalSums(LineValue, lines);
    Total(LineValue, lines)
  }

  /** `part1`: the same, unwrapped. A panic inside `part1_safe` unwinds
      through `part1` unchanged; an error it returns becomes the panic of
      `unwrap`. */
  function Part1(input: Bytes): (r: Result<nat>)
    ensures r.Ok? <==> Part1Safe(input).Ok?
    ensures r.Ok? ==> r == Part1Safe(input)
    ensures Part1Safe(input).Err? && Part1Safe(input).error.Panic? ==> r == Part1Safe(input)
    ensures Part1Safe(input).Err? && !Part1Safe(input).error.Panic? ==> r == Err(Panic(UNWRAP_PANIC))
  {
    if Part1Safe(input).Ok? || Part1Safe(input).error.Panic? then Part1Safe(input)
    else Err(Panic(UNWRAP_PANIC))
  }

  /** What each line adds to the sum under `value`. */
  function LineWorth(value: Bytes -> Result<nat>): Bytes -> int {
    l => OrZero(value(l))
  }

  /** What a result adds to a sum: its value, or 0 for an error. */
  function OrZero(r: Result<nat>): int {
    if r.Ok? then r.value else 0
  }

  predicate AllOk(value: Bytes -> Result<nat>, lines: seq<Bytes>) {
    forall i :: 0 <= i < |lines| ==> value(lines[i]).Ok?
  }

  /** Line `i` is the first whose result is an error. */
  predicate FirstFailure(value: Bytes -> Result<nat>, lines: seq<Bytes>, i: nat) {
    && i < |lines| && value(lines[i]).Err?
    && forall j :: 0 <= j < i ==> value(lines[j]).Ok?
  }

  /** The total succeeds exactly when every line does, and is then the sum
      of the line values. */
  lemma {:induction false} TotalSums(value: Bytes -> Result<nat>, lines: seq<Bytes>)
    ensures Total(value, lines).Ok? <==> AllOk(value, lines)
    ensures Total(value, lines).Ok? ==> Total(value, lines).value == SumOf(LineWorth(value), lines)
    decreases |lines|
  {
    if |lines| > 0 {
      TotalSums(value, lines[1..]);
      assert forall i :: 1 <= i < |lines| ==> lines[1..][i - 1] == lines[i];
    }
  }

  /** A failing total carries the error of the first line that fails. */
  lemma {:induction false} TotalFirstError(value: Bytes -> Result<nat>, lines: seq<Bytes>)
    ensures Total(value, lines).Err?
            ==> exists i: nat :: FirstFailure(value, lines, i) && Total(value, lines).error == value(lines[i]).error
    decreases |lines|
  {
    if |lines| > 0 && value(lines[0]).Ok? && Total(value, lines[1..]).Err? {
      var rest := lines[1..];
      TotalFirstError(value, rest);
      var k: nat :| FirstFailure(value, rest, k) && Total(value, rest).error == value(rest[k]).error;
      forall j | 0 <= j < k + 1 ensures value(lines[j]).Ok? {
        if j > 0 {
          assert lines[j] == rest[j - 1];
        }
      }
      assert lines[k + 1] == rest[k];
      assert FirstFailure(value, lines, k + 1);
    } else if |lines| > 0 && value(lines[0]).Err? {
      assert FirstFailure(value, lines, 0);
    }
  }

  /** The lines may be processed in any order (the solver spreads them over
      threads): whether the total succeeds, and its value, do not depend on it. */
  lemma TotalOrderFree(value: Bytes -> Result<nat>, lines: seq<Bytes>, lines': seq<Bytes>)
    requires multiset(lines) == multiset(lines')
    ensures Total(value, lines).Ok? <==> Total(value, lines').Ok?
    ensures Total(value, lines).Ok? ==> Total(value, lines).value == Total(value, lines').value
  {
    TotalSums(value, lines);
    TotalSums(value, lines');
    if AllOk(value, lines) {
      forall j | 0 <= j < |lines'| ensures value(lines'[j]).Ok? {
        assert lines'[j] in multiset(lines);
      }
    }
    if AllOk(value, lines') {
      forall i | 0 <= i < |lines| ensures value(lines[i]).Ok? {
        assert lines[i] in multiset(lines');
      }
    }
    SumOfPermutation(LineWorth(value), lines, lines');
  }

  // ---------------------------------------------------------------------
  // Whole inputs made of well-formed equations
  // ---------------------------------------------------------------------

  /** What an equation is worth: its target when it can be made true. */
  ghost function Worth(eq: (nat, seq<nat>)): nat {
    if Solvable(eq.0, eq.1) then eq.0 else 0
  }

  /** The sum of the targets of the equations that can be made true. */
  ghost function SolvedTotal(eqs: seq<(nat, seq<nat>)>): nat {
    if |eqs| == 0 then 0 else Worth(eqs[0]) + SolvedTotal(eqs[1..])
  }

  /** Line `i` of an input listing `eqs`; `trailing` says whether the
      last line also ends in a line feed. */
  function EquationLine(eqs: seq<(nat, seq<nat>)>, i: nat, trailing: bool): Bytes
    requires i < |eqs|
  {
    RenderEquation(eqs[i].0, eqs[i].1) + (if i + 1 < |eqs| || trailing then [NEWLINE] else [])
  }

  function RenderInput(eqs: seq<(nat, seq<nat>)>, trailing: bool): Bytes {
    Concat(seq(|eqs|, i requires 0 <= i < |eqs| => EquationLine(eqs, i, trailing)))
  }

  lemma {:induction false} ValuesShape(values: seq<nat>)
    ensures NEWLINE !in RenderValues(values) && '\r' !in RenderValues(values)
    decreases |values|
  {
    if |values| > 0 {
      ValuesShape(values[1..]);
    }
  }

  /** A rendered equation is one line, and it does not end in '\r'. */
  lemma EquationShape(target: nat, values: seq<nat>)
    ensures var e := RenderEquation(target, values);
            |e| > 0 && NEWLINE !in e && e[|e| - 1] != '\r'
  {
    ValuesShape(values);
    var e := RenderEquation(target, values);
    assert e[|e| - 1] in e;
  }

  lemma LineShape(eqs: seq<(nat, seq<nat>)>, i: nat, trailing: bool)
    requires i < |eqs|
    ensures var p := EquationLine(eqs, i, trailing);
            && |p| > 0 && NEWLINE !in p[..|p| - 1]
            && (i < |eqs| - 1 ==> p[|p| - 1] == NEWLINE)
            && StripLineEnding(p) == RenderEquation(eqs[i].0, eqs[i].1)
  {
    var p := EquationLine(eqs, i, trailing);
    var e := RenderEquation(eqs[i].0, eqs[i].1);
    EquationShape(eqs[i].0, eqs[i].1);
    if i + 1 < |eqs| || trailing {
      assert p == e + [NEWLINE];
      assert p[..|p| - 1] == e;
    } else {
      assert p[..|p| - 1] <= e;
    }
  }

  /** `lines()` of such an input gives back the rendered equations. */
  lemma LinesOfInput(eqs: seq<(nat, seq<nat>)>, trailing: bool)
    ensures Lines(RenderInput(eqs, trailing))
            == seq(|eqs|, i requires 0 <= i < |eqs| => RenderEquation(eqs[i].0, eqs[i].1))
  {
    var pieces := seq(|eqs|, i requires 0 <= i < |eqs| => EquationLine(eqs, i, trailing));
    forall i | 0 <= i < |eqs|
      ensures |pieces[i]| > 0 && NEWLINE !in pieces[i][..|pieces[i]| - 1]
      ensures i < |eqs| - 1 ==> pieces[i][|pieces[i]| - 1] == NEWLINE
      ensures StripLineEnding(pieces[i]) == RenderEquation(eqs[i].0, eqs[i].1)
    {
      LineShape(eqs, i, trailing);
    }
    SplitInclusiveConcat(pieces, NEWLINE);
  }

  /** The total over lines each worth what its equation is worth. */
  lemma {:induction false} TotalOfWorths(value: Bytes -> Result<nat>, lines: seq<Bytes>, eqs: seq<(nat, seq<nat>)>)
    requires |lines| == |eqs|
    requires forall i :: 0 <= i < |eqs| ==> value(lines[i]) == Ok(Worth(eqs[i]))
    ensures Total(value, lines).Ok? && Total(value, lines).value == SolvedTotal(eqs)
    decreases |eqs|
  {
    if |eqs| > 0 {
      assert forall i :: 0 <= i < |eqs| - 1 ==> eqs[1..][i] == eqs[i + 1] && lines[1..][i] == lines[i + 1];
      TotalOfWorths(value, lines[1..], eqs[1..]);
      TotalCons(value, lines);
    }
  }

  lemma TotalCons(value: Bytes -> Result<nat>, lines: seq<Bytes>)
    requires |lines| > 0 && value(lines[0]).Ok? && Total(value, lines[1..]).Ok?
    ensures Total(value, lines).Ok?
    ensures Total(value, lines).value == value(lines[0]).value + Total(value, lines[1..]).value
  {
  }

  /** The answer for an input of well-formed equations, with or without a
      final line feed: the sum of the targets that can be made true. */
  lemma Part1OfRender(eqs: seq<(nat, seq<nat>)>, trailing: bool)
    requires forall i :: 0 <= i < |eqs| ==> |eqs[i].1| >= 1
    ensures Part1Safe(RenderInput(eqs, trailing)) == Ok(SolvedTotal(eqs))
  {
    LinesOfInput(eqs, trailing);
    var lines := Lines(RenderInput(eqs, trailing));
    forall i | 0 <= i < |eqs| ensures LineValue(lines[i]) == Ok(Worth(eqs[i])) {
      LineValueOfRender(eqs[i].0, eqs[i].1);
    }
    TotalOfWorths(LineValue, lines, eqs);
  }

  /** The lines the example counts, each with the first mask that hits its target. */
  lemma ExampleSolved()
    ensures Solvable(190, [10, 19])
    ensures Solvable(3267, [81, 40, 27])
    ensures Solvable(292, [11, 6, 16, 20])
  {
    assert Pow2(1) == 2;
    assert Eval([10, 19], 1) == 190;
    assert Search(190, [10, 19], 1, 2) == 190;
    assert Eval([10, 19], 0) == 29;
    assert Search(190, [10, 19], 0, 2) == 190;
    assert Pow2(2) == 4;
    assert Eval([81, 40, 27], 1) == 3267;
    assert Search(3267, [81, 40, 27], 1, 4) == 3267;
    assert Eval([81, 40, 27], 0) == 148;
    assert Search(3267, [81, 40, 27], 0, 4) == 3267;
    assert Pow2(3) == 8;
    assert Eval([11, 6, 16, 20], 2) == 292;
    assert Search(292, [11, 6, 16, 20], 2, 8) == 292;
    assert Eval([11, 6, 16, 20], 1) == 102;
    assert Search(292, [11, 6, 16, 20], 1, 8) == 292;
    assert Eval([11, 6, 16, 20], 0) == 53;
    assert Search(292, [11, 6, 16, 20], 0, 8) == 292;
    CalibrationSolves(190, [10, 19]);
    CalibrationSolves(3267, [81, 40, 27]);
    CalibrationSolves(292, [11, 6, 16, 20]);
  }

  /** Two- and three-value lines of the example that no mask solves. */
  lemma ExampleShortMisses()
    ensures !Solvable(83, [17, 5])
    ensures !Solvable(156, [15, 6])
    ensures !Solvable(161011, [16, 10, 13])
    ensures !Solvable(192, [17, 8, 14])
  {
    assert Pow2(1) == 2;
    assert Eval([17, 5], 1) == 85;
    assert Search(83, [17, 5], 1, 2) == 0;
    assert Eval([17, 5], 0) == 22;
    assert Search(83, [17, 5], 0, 2) == 0;
    assert Pow2(1) == 2;
    assert Eval([15, 6], 1) == 90;
    assert Search(156, [15, 6], 1, 2) == 0;
    assert Eval([15, 6], 0) == 21;
    assert Search(156, [15, 6], 0, 2) == 0;
    assert Pow2(2) == 4;
    assert Eval([16, 10, 13], 3) == 2080;
    assert Search(161011, [16, 10, 13], 3, 4) == 0;
    assert Eval([16, 10, 13], 2) == 338;
    assert Search(161011, [16, 10, 13], 2, 4) == 0;
    assert Eval([16, 10, 13], 1) == 173;
    assert Search(161011, [16, 10, 13], 1, 4) == 0;
    assert Eval([16, 10, 13], 0) == 39;
    assert Search(161011, [16, 10, 13], 0, 4) == 0;
    assert Pow2(2) == 4;
    assert Eval([17, 8, 14], 3) == 1904;
    assert Search(192, [17, 8, 14], 3, 4) == 0;
    assert Eval([17, 8, 14], 2) == 350;
    assert Search(192, [17, 8, 14], 2, 4) == 0;
    assert Eval([17, 8, 14], 1) == 150;
    assert Search(192, [17, 8, 14], 1, 4) == 0;
    assert Eval([17, 8, 14], 0) == 39;
    assert Search(192, [17, 8, 14], 0, 4) == 0;
    CalibrationSolves(83, [17, 5]);
    CalibrationSolves(156, [15, 6]);
    CalibrationSolves(161011, [16, 10, 13]);
    CalibrationSolves(192, [17, 8, 14]);
  }

  /** A four-value line of the example that no mask solves. */
  lemma ExampleMiss7290()
    ensures !Solvable(7290, [6, 8, 6, 15])
  {
    assert Pow2(3) == 8;
    assert Eval([6, 8, 6, 15], 7) == 4320;
    assert Search(7290, [6, 8, 6, 15], 7, 8) == 0;
    assert Eval([6, 8, 6, 15], 6) == 1260;
    assert Search(7290, [6, 8, 6, 15], 6, 8) == 0;
    assert Eval([6, 8, 6, 15], 5) == 810;
    assert Search(7290, [6, 8, 6, 15], 5, 8) == 0;
    assert Eval([6, 8, 6, 15], 4) == 300;
    assert Search(7290, [6, 8, 6, 15], 4, 8) == 0;
    assert Eval([6, 8, 6, 15], 3) == 303;
    assert Search(7290, [6, 8, 6, 15], 3, 8) == 0;
    assert Eval([6, 8, 6, 15], 2) == 99;
    assert Search(7290, [6, 8, 6, 15], 2, 8) == 0;
    assert Eval([6, 8, 6, 15], 1) == 69;
    assert Search(7290, [6, 8, 6, 15], 1, 8) == 0;
    assert Eval([6, 8, 6, 15], 0) == 35;
    assert Search(7290, [6, 8, 6, 15], 0, 8) == 0;
    CalibrationSolves(7290, [6, 8, 6, 15]);
  }

  /** Another four-value line of the example that no mask solves. */
  lemma ExampleMiss21037()
    ensures !Solvable(21037, [9, 7, 18, 13])
  {
    assert Pow2(3) == 8;
    assert Eval([9, 7, 18, 13], 7) == 14742;
    assert Search(21037, [9, 7, 18, 13], 7, 8) == 0;
    assert Eval([9, 7, 18, 13], 6) == 3744;
    assert Search(21037, [9, 7, 18, 13], 6, 8) == 0;
    assert Eval([9, 7, 18, 13], 5) == 1053;
    assert Search(21037, [9, 7, 18, 13], 5, 8) == 0;
    assert Eval([9, 7, 18, 13], 4) == 442;
    assert Search(21037, [9, 7, 18, 13], 4, 8) == 0;
    assert Eval([9, 7, 18, 13], 3) == 1147;
    assert Search(21037, [9, 7, 18, 13], 3, 8) == 0;
    assert Eval([9, 7, 18, 13], 2) == 301;
    assert Search(21037, [9, 7, 18, 13], 2, 8) == 0;
    assert Eval([9, 7, 18, 13], 1) == 94;
    assert Search(21037, [9, 7, 18, 13], 1, 8) == 0;
    assert Eval([9, 7, 18, 13], 0) == 47;
    assert Search(21037, [9, 7, 18, 13], 0, 8) == 0;
    CalibrationSolves(21037, [9, 7, 18, 13]);
  }

  /** The worked example: nine equations, written one per line with no
      final line feed. */
  predicate IsExample(eqs: seq<(nat, seq<nat>)>) {
    && |eqs| == 9
    && eqs[0] == (190, [10, 19]) && eqs[1] == (3267, [81, 40, 27]) && eqs[2] == (83, [17, 5])
    && eqs[3] == (156, [15, 6]) && eqs[4] == (7290, [6, 8, 6, 15]) && eqs[5] == (161011, [16, 10, 13])
    && eqs[6] == (192, [17, 8, 14]) && eqs[7] == (21037, [9, 7, 18, 13]) && eqs[8] == (292, [11, 6, 16, 20])
  }

  /** Only the first, second and last equations of the example can be
      made true: 190 + 3267 + 292 = 3749. */
  lemma ExampleSolvedTotal(eqs: seq<(nat, seq<nat>)>)
    requires IsExample(eqs)
    ensures SolvedTotal(eqs) == 3749
  {
    ExampleSolved();
    ExampleShortMisses();
    ExampleMiss7290();
    ExampleMiss21037();
    assert SolvedTotal(eqs[8..]) == 292;
    assert SolvedTotal(eqs[7..]) == 292;
    assert SolvedTotal(eqs[6..]) == 292;
    assert SolvedTotal(eqs[5..]) == 292;
    assert SolvedTotal(eqs[4..]) == 292;
    assert SolvedTotal(eqs[3..]) == 292;
    assert SolvedTotal(eqs[2..]) == 292;
    assert SolvedTotal(eqs[1..]) == 3559;
  }

  /** The example's answer is 3749. */
  lemma ExampleTotal(eqs: seq<(nat, seq<nat>)>)
    requires IsExample(eqs)
    ensures Part1Safe(RenderInput(eqs, false)) == Ok(3749)
  {
    ExampleSolvedTotal(eqs);
    Part1OfRender(eqs, false);
  }
}
