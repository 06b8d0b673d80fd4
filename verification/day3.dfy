/** Day 3 of `src/day3.rs`, the safe variant: a scanner over corrupted
    memory that recognises `mul(a,b)`, `do()` and `don't()` at every start
    position with at least 8 bytes left. Part 1 sums every product; part 2
    sums only the products met while enabled. */
module Day3 {
  import opened Results
  import opened Bytes
  import opened Parsers

  const MUL: Bytes := "mul("
  const DO: Bytes := "do()"
  const DONT: Bytes := "don't()"

  /** The safe loops stop once fewer than this many bytes remain. */
  const MIN_WINDOW: nat := 8
  /** `parse_mul` reads the argument window `expr[4..12]`. */
  const ARGS_END: nat := 12

  const SLICE_PANIC: string := "byte index 12 is out of range"
  const DIGIT_PANIC: string := "assertion failed: all bytes are ASCII digits"
  const BOUNDARY_PANIC: string := "byte index is not a char boundary"

  // ---------------------------------------------------------------------
  // `parse_mul`
  // ---------------------------------------------------------------------

  /** The operand texts of the argument window: the bytes before the first
      ',' and the bytes between that ',' and the first ')' after it. A
      missing ',' or ')' is no call at all. */
  function SplitArgs(args: Bytes): (r: Option<(Bytes, Bytes)>)
    ensures ',' !in args ==> r.None?
  {
    match Find(args, ',')
    case None => None
    case Some(sep) =>
      match Find(args[sep + 1..], ')')
      case None => None
      case Some(cp) => Some((args[..sep], args[sep + 1..sep + 1 + cp]))
  }

  /** The operands of "l,r)..." are l and r when l has no ',' and r no ')'. */
  lemma SplitArgsOfCall(l: Bytes, r: Bytes, rest: Bytes)
    requires ',' !in l && ')' !in r
    ensures SplitArgs(l + [','] + r + [')'] + rest) == Some((l, r))
  {
    var args := l + [','] + r + [')'] + rest;
    ArgsPieces(l, r, rest);
    SplitArgsAt(args, |l|, |r|);
  }

  /** A ',' at `sep` with none before it, and a ')' `cp` bytes after it with
      none in between, split the window there. */
  lemma SplitArgsAt(args: Bytes, sep: nat, cp: nat)
    requires sep + cp + 2 <= |args| && args[sep] == ',' && ',' !in args[..sep]
    requires args[sep + 1 + cp] == ')' && ')' !in args[sep + 1..sep + 1 + cp]
    ensures SplitArgs(args) == Some((args[..sep], args[sep + 1..sep + 1 + cp]))
  {
    assert Find(args, ',') == Some(sep) by { FindFirst(args, ',', sep); }
    assert Find(args[sep + 1..], ')') == Some(cp) by {
      assert args[sep + 1..][..cp] == args[sep + 1..sep + 1 + cp];
      assert args[sep + 1..][cp] == ')';
      FindFirst(args[sep + 1..], ')', cp);
    }
  }

  lemma ArgsPieces(l: Bytes, r: Bytes, rest: Bytes)
    ensures var args := l + [','] + r + [')'] + rest;
            && args[..|l|] == l && args[|l|] == ','
            && args[|l| + 1..] == r + [')'] + rest
            && args[|l| + 1..][..|r|] == r && args[|l| + 1..][|r|] == ')'
            && args[|l| + 1..|l| + 1 + |r|] == r
  {
    var args := l + [','] + r + [')'] + rest;
    assert args[|l| + 1..] == r + [')'] + rest;
  }

  /** Conversely, split operands are followed by the ',' and ')' they were
      split at. */
  lemma CallOfSplitArgs(args: Bytes, l: Bytes, r: Bytes)
    requires SplitArgs(args) == Some((l, r))
    ensures |l| + |r| + 2 <= |args| && ',' !in l && ')' !in r
    ensures args == l + [','] + r + [')'] + args[|l| + |r| + 2..]
  {
    var sep := Find(args, ',').value;
    var cp := Find(args[sep + 1..], ')').value;
    assert l == args[..sep] && r == args[sep + 1..sep + 1 + cp];
    assert ')' !in r && args[sep + 1 + cp] == ')' by {
      assert args[sep + 1..][cp] == args[sep + 1 + cp];
      assert r == args[sep + 1..][..cp];
    }
    Decompose(args, sep, cp);
  }

  /** Cutting a sequence around a ',' at `sep` and a ')' `cp` bytes later. */
  lemma Decompose(args: Bytes, sep: nat, cp: nat)
    requires sep + cp + 2 <= |args| && args[sep] == ',' && args[sep + 1 + cp] == ')'
    ensures args == args[..sep] + [','] + args[sep + 1..sep + 1 + cp] + [')'] + args[sep + cp + 2..]
  {
  }

  /** `parse_mul` on the eight argument bytes: both operands are asserted
      to be digits, and the value is the product of their decodings. */
  function ParseArgs(args: Bytes): (r: Result<Option<nat>>)
    ensures r.Err? ==> r.error == Panic(DIGIT_PANIC)
    ensures ',' !in args ==> r == Ok(None)
    ensures SplitArgs(args).None? ==> r == Ok(None)
  {
    match SplitArgs(args)
    case None => Ok(None)
    case Some((l, r)) =>
      if !AllDigits(l) || !AllDigits(r) then Err(Panic(DIGIT_PANIC))
      else Ok(Some(U64FromAscii(l) * U64FromAscii(r)))
  }

  /** The asserts reject exactly the windows with a non-digit operand. */
  lemma ParseArgsPanics(args: Bytes)
    ensures ParseArgs(args).Err? <==> BadOperands(args)
  {
  }

  /** The window splits into operands, and one of them holds a byte that
      is not a digit: the case the asserts reject. */
  predicate BadOperands(args: Bytes) {
    && SplitArgs(args).Some?
    && (!AllDigits(SplitArgs(args).value.0) || !AllDigits(SplitArgs(args).value.1))
  }

  /** An expression whose argument window `expr[4..12]` can be sliced: it
      starts with "mul(", has 12 bytes, and both ends of the window are
      char boundaries. */
  predicate WindowReadable(expr: Bytes) {
    && StartsWith(expr, MUL) && |expr| >= ARGS_END
    && IsCharBoundary(expr, |MUL|) && IsCharBoundary(expr, ARGS_END)
  }

  /** `parse_mul`: `None` unless the expression starts with "mul("; when
      it does, the slice `[4..12]` panics on fewer than 12 bytes and when
      either end of the window is not a char boundary. */
  function ParseMul(expr: Bytes): (r: Result<Option<nat>>)
    ensures !StartsWith(expr, MUL) ==> r == Ok(None)
    ensures StartsWith(expr, MUL) && |expr| < ARGS_END ==> r == Err(Panic(SLICE_PANIC))
    ensures StartsWith(expr, MUL) && |expr| >= ARGS_END ==>
              (r == Err(Panic(BOUNDARY_PANIC))
               <==> !IsCharBoundary(expr, |MUL|) || !IsCharBoundary(expr, ARGS_END))
    ensures r.Err? ==> StartsWith(expr, MUL)
    ensures r == Err(Panic(DIGIT_PANIC)) <==> WindowReadable(expr) && BadOperands(expr[|MUL|..ARGS_END])
    ensures r == Ok(None) <==>
              || !StartsWith(expr, MUL)
              || (WindowReadable(expr) && SplitArgs(expr[|MUL|..ARGS_END]).None?)
  {
    if !StartsWith(expr, MUL) then Ok(None)
    else if |expr| < ARGS_END then Err(Panic(SLICE_PANIC))
    else if !IsCharBoundary(expr, |MUL|) || !IsCharBoundary(expr, ARGS_END) then Err(Panic(BOUNDARY_PANIC))
    else
      ParseArgsPanics(expr[|MUL|..ARGS_END]);
      ParseArgs(expr[|MUL|..ARGS_END])
  }

  /** The text of a call: "mul(" l "," r ")" followed by anything. */
  function Call(l: Bytes, r: Bytes, rest: Bytes): Bytes {
    MUL + l + [','] + r + [')'] + rest
  }

  /** Digits decode to their positional value under `u64_from_ascii`. */
  lemma DigitsDecode(d: Bytes)
    requires AllDigits(d)
    ensures U64FromAscii(d) == DecimalValue(d)
  {
  }

  /** The argument window of a call: the operands, then whatever follows
      up to byte 12. */
  lemma WindowOfCall(l: Bytes, r: Bytes, rest: Bytes)
    requires |l| + |r| <= 6 && |Call(l, r, rest)| >= ARGS_END
    ensures StartsWith(Call(l, r, rest), MUL)
    ensures Call(l, r, rest)[|MUL|..ARGS_END]
            == l + [','] + r + [')'] + Call(l, r, rest)[|MUL| + |l| + |r| + 2..ARGS_END]
  {
    var e := Call(l, r, rest);
    assert e[..|MUL|] == MUL;
    assert e[|MUL|..] == l + [','] + r + [')'] + rest;
  }

  /** Every call whose operands are digit runs of at most six bytes in
      total, with at least 12 bytes in the expression, is decoded to the
      product of its operands, provided byte 12 does not continue a
      character. Operands may be empty: they decode to 0. */
  lemma ParseMulOfCall(l: Bytes, r: Bytes, rest: Bytes)
    requires AllDigits(l) && AllDigits(r) && |l| + |r| <= 6
    requires |Call(l, r, rest)| >= ARGS_END && IsCharBoundary(Call(l, r, rest), ARGS_END)
    ensures ParseMul(Call(l, r, rest)) == Ok(Some(DecimalValue(l) * DecimalValue(r)))
  {
    var e := Call(l, r, rest);
    WindowOfCall(l, r, rest);
    assert IsCharBoundary(e, |MUL|) by {
      if |l| > 0 { assert e[|MUL|] == l[0]; } else { assert e[|MUL|] == ','; }
    }
    assert ',' !in l && ')' !in r;
    SplitArgsOfCall(l, r, e[|MUL| + |l| + |r| + 2..ARGS_END]);
    DigitsDecode(l);
    DigitsDecode(r);
  }

  /** A call whose operands are not all digits trips the asserts, once
      its window can be sliced. */
  lemma ParseMulOfBadCall(l: Bytes, r: Bytes, rest: Bytes)
    requires ',' !in l && ')' !in r && |l| + |r| <= 6
    requires |Call(l, r, rest)| >= ARGS_END
    requires IsCharBoundary(Call(l, r, rest), |MUL|) && IsCharBoundary(Call(l, r, rest), ARGS_END)
    requires !AllDigits(l) || !AllDigits(r)
    ensures ParseMul(Call(l, r, rest)) == Err(Panic(DIGIT_PANIC))
  {
    var e := Call(l, r, rest);
    WindowOfCall(l, r, rest);
    SplitArgsOfCall(l, r, e[|MUL| + |l| + |r| + 2..ARGS_END]);
  }

  /** A ',' with no ')' after it in the window is no call. */
  lemma ParseMulUnclosed(l: Bytes, t: Bytes, rest: Bytes)
    requires ',' !in l && ')' !in t && |l| + 1 + |t| == ARGS_END - |MUL|
    requires IsCharBoundary(MUL + l + [','] + t + rest, |MUL|)
    requires IsCharBoundary(MUL + l + [','] + t + rest, ARGS_END)
    ensures ParseMul(MUL + l + [','] + t + rest) == Ok(None)
  {
    var e := MUL + l + [','] + t + rest;
    var args := e[|MUL|..ARGS_END];
    assert e[..|MUL|] == MUL;
    assert args == l + [','] + t;
    assert args[..|l|] == l && args[|l|] == ',';
    FindFirst(args, ',', |l|);
    assert args[|l| + 1..] == t;
  }

  /** Conversely, every product `parse_mul` returns comes from such a call. */
  lemma CallOfParseMul(expr: Bytes)
    requires ParseMul(expr).Ok? && ParseMul(expr).value.Some?
    ensures exists l: Bytes, r: Bytes, rest: Bytes ::
              && expr == Call(l, r, rest) && AllDigits(l) && AllDigits(r) && |l| + |r| <= 6
              && ParseMul(expr).value.value == DecimalValue(l) * DecimalValue(r)
  {
    var l, r, rest := CallWitness(expr);
  }

  lemma CallWitness(expr: Bytes) returns (l: Bytes, r: Bytes, rest: Bytes)
    requires ParseMul(expr).Ok? && ParseMul(expr).value.Some?
    ensures expr == Call(l, r, rest) && AllDigits(l) && AllDigits(r) && |l| + |r| <= 6
    ensures ParseMul(expr).value.value == DecimalValue(l) * DecimalValue(r)
  {
    var args := expr[|MUL|..ARGS_END];
    assert ParseMul(expr) == ParseArgs(args);
    l, r := SplitArgs(args).value.0, SplitArgs(args).value.1;
    CallOfSplitArgs(args, l, r);
    DigitsDecode(l);
    DigitsDecode(r);
    CallOfWindow(expr, l, r, args[|l| + |r| + 2..]);
    rest := args[|l| + |r| + 2..] + expr[ARGS_END..];
  }

  lemma CallOfWindow(expr: Bytes, l: Bytes, r: Bytes, t: Bytes)
    requires StartsWith(expr, MUL) && |expr| >= ARGS_END
    requires expr[|MUL|..ARGS_END] == l + [','] + r + [')'] + t
    ensures expr == Call(l, r, t + expr[ARGS_END..])
  {
    assert expr == expr[..|MUL|] + expr[|MUL|..ARGS_END] + expr[ARGS_END..];
  }

  // ---------------------------------------------------------------------
  // `parse_fn` and `Expr`
  // ---------------------------------------------------------------------

  /** `Expr`: `don't()`, `do()`, or a product. */
  datatype Expr = Stop | Start | Value(v: nat)

  /** `parse_fn`: "mul(" is tried before "do()", which is tried before
      "don't()"; the "mul(" branch is `parse_mul`. */
  function ParseFn(expr: Bytes): (r: Result<Option<Expr>>)
    ensures StartsWith(expr, MUL) ==>
              (r.Err? <==> ParseMul(expr).Err?)
              && (r.Ok? ==> (r.value.Some? <==> ParseMul(expr).value.Some?))
              && (r.Ok? && r.value.Some? ==> r.value.value == Value(ParseMul(expr).value.value))
    ensures !StartsWith(expr, MUL) ==> r.Ok?
    ensures !StartsWith(expr, MUL) && StartsWith(expr, DO) ==> r == Ok(Some(Start))
    ensures !StartsWith(expr, MUL) && !StartsWith(expr, DO) && StartsWith(expr, DONT) ==> r == Ok(Some(Stop))
    ensures !StartsWith(expr, MUL) && !StartsWith(expr, DO) && !StartsWith(expr, DONT) ==> r == Ok(None)
  {
    if StartsWith(expr, MUL) then
      var v :- ParseMul(expr);
      if v.Some? then Ok(Some(Value(v.value))) else Ok(None)
    else if StartsWith(expr, DO) then Ok(Some(Start))
    else if StartsWith(expr, DONT) then Ok(Some(Stop))
    else Ok(None)
  }

  /** No text starts with two of the three keywords. */
  lemma KeywordsExclusive(expr: Bytes)
    ensures !(StartsWith(expr, MUL) && StartsWith(expr, DO))
    ensures !(StartsWith(expr, MUL) && StartsWith(expr, DONT))
    ensures !(StartsWith(expr, DO) && StartsWith(expr, DONT))
  {
    if StartsWith(expr, DO) {
      assert expr[3] == DO[3] == ')';
    }
  }

  // ---------------------------------------------------------------------
  // The two safe loops
  // ---------------------------------------------------------------------

  function Contribution(v: Option<nat>): nat {
    if v.Some? then v.value else 0
  }

  /** `part1_safe`: `parse_mul` at every start position with at least 8
      bytes left, summing the products; the first panic aborts, whether it
      comes from `parse_mul` or from the step `&input[1..]` landing inside
      a character. */
  function Part1Safe(input: Bytes): (r: Result<nat>)
    ensures |input| < MIN_WINDOW ==> r == Ok(0)
    decreases |input|
  {
    if |input| < MIN_WINDOW then Ok(0)
    else
      var v :- ParseMul(input);
      if !IsCharBoundary(input, 1) then Err(Panic(BOUNDARY_PANIC))
      else
        var rest :- Part1Safe(input[1..]);
        Ok(Contribution(v) + rest)
  }

  /** One step of `part2_safe`'s state machine: what is added and whether
      the scanner is enabled afterwards. */
  function Transition(e: Option<Expr>, enabled: bool): (nat, bool) {
    match e
    case Some(Stop) => (0, false)
    case Some(Start) => (0, true)
    case Some(Value(v)) => (if enabled then v else 0, enabled)
    case None => (0, enabled)
  }

  /** `part2_safe` from a given enable state (it starts enabled). */
  function Part2SafeFrom(input: Bytes, enabled: bool): (r: Result<nat>)
    ensures |input| < MIN_WINDOW ==> r == Ok(0)
    decreases |input|
  {
    if |input| < MIN_WINDOW then Ok(0)
    else
      var e :- ParseFn(input);
      var (add, next) := Transition(e, enabled);
      if !IsCharBoundary(input, 1) then Err(Panic(BOUNDARY_PANIC))
      else
        var rest :- Part2SafeFrom(input[1..], next);
        Ok(add + rest)
  }

  function Part2Safe(input: Bytes): Result<nat> {
    Part2SafeFrom(input, true)
  }

  /** A position the safe loops look at: one with at least 8 bytes left. */
  predicate Examined(input: Bytes, p: nat) {
    p + MIN_WINDOW <= |input|
  }

  /** One step of `part1_safe` at the front of `expr` panics: in
      `parse_mul`, or in the slice `&input[1..]`. */
  predicate StepPanics(expr: Bytes)
    requires |expr| >= 1
  {
    ParseMul(expr).Err? || !IsCharBoundary(expr, 1)
  }

  /** What `parse_mul` adds at the front of `expr`; nothing where it
      panics. */
  function MulValue(expr: Bytes): nat {
    if ParseMul(expr).Ok? then Contribution(ParseMul(expr).value) else 0
  }

  /** The products found at the examined positions from `p` on. */
  function ExaminedSum(input: Bytes, p: nat): nat
    requires p <= |input|
    decreases |input| - p
  {
    if !Examined(input, p) then 0 else MulValue(input[p..]) + ExaminedSum(input, p + 1)
  }

  /** When part 1 does not panic, its answer is the sum of the products at
      all examined positions. */
  lemma Part1SafeValue(input: Bytes)
    ensures Part1Safe(input).Ok? ==> Part1Safe(input).value == ExaminedSum(input, 0)
  {
    assert input[0..] == input;
    Part1SafeValueFrom(input, 0);
  }

  lemma {:induction false} Part1SafeValueFrom(input: Bytes, p: nat)
    requires p <= |input|
    ensures Part1Safe(input[p..]).Ok? ==> Part1Safe(input[p..]).value == ExaminedSum(input, p)
    decreases |input| - p
  {
    if Examined(input, p) {
      var s := input[p..];
      Part1Unfold(s);
      assert s[1..] == input[p + 1..];
      Part1SafeValueFrom(input, p + 1);
    }
  }

  /** The enable state on reaching position `p`: set by the last "do()" or
      "don't()" at an examined position before `p`, and enabled when there
      is none. */
  function EnabledAt(input: Bytes, p: nat): bool
    requires p <= |input|
  {
    if p == 0 then true
    else if Examined(input, p - 1) && ParseFn(input[p - 1..]) == Ok(Some(Stop)) then false
    else if Examined(input, p - 1) && ParseFn(input[p - 1..]) == Ok(Some(Start)) then true
    else EnabledAt(input, p - 1)
  }

  /** The products found at the examined positions from `p` on where the
      scanner is enabled. */
  function EnabledSum(input: Bytes, p: nat): nat
    requires p <= |input|
    decreases |input| - p
  {
    if !Examined(input, p) then 0
    else (if EnabledAt(input, p) then MulValue(input[p..]) else 0) + EnabledSum(input, p + 1)
  }

  /** When part 2 does not panic, its answer is the sum of the products at
      the examined positions where the scanner is enabled. */
  lemma Part2SafeValue(input: Bytes)
    ensures Part2Safe(input).Ok? ==> Part2Safe(input).value == EnabledSum(input, 0)
  {
    assert input[0..] == input;
    Part2SafeValueFrom(input, 0);
  }

  lemma {:induction false} Part2SafeValueFrom(input: Bytes, p: nat)
    requires p <= |input|
    ensures Part2SafeFrom(input[p..], EnabledAt(input, p)).Ok? ==>
              Part2SafeFrom(input[p..], EnabledAt(input, p)).value == EnabledSum(input, p)
    decreases |input| - p
  {
    if Examined(input, p) {
      var s := input[p..];
      var en := EnabledAt(input, p);
      Part2Unfold(s, en);
      assert s[1..] == input[p + 1..];
      if ParseFn(s).Ok? {
        assert Transition(ParseFn(s).value, en).1 == EnabledAt(input, p + 1) by {
          assert input[p + 1 - 1..] == s;
        }
        assert Transition(ParseFn(s).value, en).0 == (if en then MulValue(s) else 0) by {
          KeywordsExclusive(s);
        }
        Part2SafeValueFrom(input, p + 1);
      }
    }
  }

  /** Part 1 panics exactly when its step panics at some examined
      position. */
  lemma {:induction false} Part1SafePanics(input: Bytes)
    ensures Part1Safe(input).Err? <==> exists p: nat :: Examined(input, p) && StepPanics(input[p..])
    decreases |input|
  {
    if |input| >= MIN_WINDOW {
      Part1SafePanics(input[1..]);
      assert forall p: nat :: Examined(input[1..], p) ==> input[1..][p..] == input[p + 1..];
      if StepPanics(input) {
        assert Examined(input, 0) && input[0..] == input;
      } else if Part1Safe(input[1..]).Err? {
        var p: nat :| Examined(input[1..], p) && StepPanics(input[1..][p..]);
        assert Examined(input, p + 1);
      } else {
        forall p: nat | Examined(input, p) ensures !StepPanics(input[p..]) {
          if p > 0 {
            assert Examined(input[1..], p - 1);
            assert input[1..][p - 1..] == input[p..];
          }
        }
      }
    }
  }

  /** An input that ends in a complete 8-byte call such as "mul(2,3)"
      panics: the loop still examines that position, but `parse_mul`
      slices 12 bytes. */
  lemma TrailingCallPanics(prefix: Bytes, call: Bytes)
    requires |call| == MIN_WINDOW && StartsWith(call, MUL)
    ensures Part1Safe(prefix + call).Err?
    ensures Part2Safe(prefix + call).Err?
  {
    var input := prefix + call;
    assert input[|prefix|..] == call;
    assert Examined(input, |prefix|);
    Part1SafePanics(input);
    Part1PanicsIffPart2Panics(input, true);
  }

  /** Both loops panic at the same positions, whatever the enable state. */
  lemma {:induction false} Part1PanicsIffPart2Panics(input: Bytes, enabled: bool)
    ensures Part1Safe(input).Err? <==> Part2SafeFrom(input, enabled).Err?
    decreases |input|
  {
    if |input| >= MIN_WINDOW {
      KeywordsExclusive(input);
      var e := ParseFn(input);
      if e.Ok? {
        Part1PanicsIffPart2Panics(input[1..], Transition(e.value, enabled).1);
        Part1PanicsIffPart2Panics(input[1..], enabled);
      }
    }
  }

  /** Part 2 never exceeds part 1: it adds a subset of the same products. */
  lemma {:induction false} Part2AtMostPart1(input: Bytes, enabled: bool)
    requires Part1Safe(input).Ok?
    ensures Part2SafeFrom(input, enabled).Ok?
    ensures Part2SafeFrom(input, enabled).value <= Part1Safe(input).value
    decreases |input|
  {
    Part1PanicsIffPart2Panics(input, enabled);
    if |input| >= MIN_WINDOW {
      KeywordsExclusive(input);
      var e := ParseFn(input).value;
      Part2AtMostPart1(input[1..], Transition(e, enabled).1);
    }
  }

  /** No "don't()" starts anywhere in the text. */
  predicate NoDont(input: Bytes) {
    forall p :: 0 <= p < |input| ==> !StartsWith(input[p..], DONT)
  }

  /** Without "don't()" the scanner is never disabled, so part 2 equals
      part 1. */
  lemma {:induction false} Part2WithoutDont(input: Bytes)
    requires NoDont(input)
    ensures Part2Safe(input) == Part1Safe(input)
    decreases |input|
  {
    if |input| >= MIN_WINDOW {
      NoDontTail(input);
      Part2WithoutDont(input[1..]);
      EnabledStepAgrees(input);
    }
  }

  /** Away from "don't()", an enabled step of part 2 agrees with a step of
      part 1 whenever the rest of the two loops agree. */
  lemma EnabledStepAgrees(input: Bytes)
    requires |input| >= MIN_WINDOW && !StartsWith(input, DONT)
    requires Part2SafeFrom(input[1..], true) == Part1Safe(input[1..])
    ensures Part2SafeFrom(input, true) == Part1Safe(input)
  {
    EnabledStep(input);
    if ParseMul(input).Err? {
      // both loops stop at the same parse panic
      Part1Unfold(input);
      Part2Unfold(input, true);
    } else if !IsCharBoundary(input, 1) {
      // both loops stop at the same slice panic
      Part1Unfold(input);
      Part2Unfold(input, true);
    } else {
      assert Transition(ParseFn(input).value, true).1;
      Part1Unfold(input);
      Part2Unfold(input, true);
      if Part1Safe(input).Ok? {
        SameOk(Part2SafeFrom(input, true), Part1Safe(input));
      }
    }
  }

  /** Two successes with the same value are the same result. */
  lemma SameOk(a: Result<nat>, b: Result<nat>)
    requires a.Ok? && b.Ok? && a.value == b.value
    ensures a == b
  {
  }

  /** One step of `part1_safe`: the panic of `parse_mul` here comes first,
      then any panic further on, otherwise the product is added. */
  lemma Part1Unfold(input: Bytes)
    requires |input| >= MIN_WINDOW
    ensures ParseMul(input).Err? ==> Part1Safe(input) == Err(ParseMul(input).error)
    ensures ParseMul(input).Ok? && !IsCharBoundary(input, 1) ==>
              Part1Safe(input) == Err(Panic(BOUNDARY_PANIC))
    ensures ParseMul(input).Ok? && IsCharBoundary(input, 1) && Part1Safe(input[1..]).Err? ==>
              Part1Safe(input) == Err(Part1Safe(input[1..]).error)
    ensures ParseMul(input).Ok? && IsCharBoundary(input, 1) && Part1Safe(input[1..]).Ok? ==>
              Part1Safe(input).Ok? &&
              Part1Safe(input).value == Contribution(ParseMul(input).value) + Part1Safe(input[1..]).value
  {
  }

  /** One step of `part2_safe`, in the same order. */
  lemma Part2Unfold(input: Bytes, enabled: bool)
    requires |input| >= MIN_WINDOW
    ensures ParseFn(input).Err? ==> Part2SafeFrom(input, enabled) == Err(ParseFn(input).error)
    ensures ParseFn(input).Ok? && !IsCharBoundary(input, 1) ==>
              Part2SafeFrom(input, enabled) == Err(Panic(BOUNDARY_PANIC))
    ensures ParseFn(input).Ok? && IsCharBoundary(input, 1)
            && Part2SafeFrom(input[1..], Transition(ParseFn(input).value, enabled).1).Err? ==>
              Part2SafeFrom(input, enabled) == Err(Part2SafeFrom(input[1..], Transition(ParseFn(input).value, enabled).1).error)
    ensures ParseFn(input).Ok? && IsCharBoundary(input, 1)
            && Part2SafeFrom(input[1..], Transition(ParseFn(input).value, enabled).1).Ok? ==>
              Part2SafeFrom(input, enabled).Ok? &&
              Part2SafeFrom(input, enabled).value
              == Transition(ParseFn(input).value, enabled).0
                 + Part2SafeFrom(input[1..], Transition(ParseFn(input).value, enabled).1).value
  {
  }

  /** While enabled and away from "don't()", one step of part 2 adds what
      part 1 adds and stays enabled. */
  lemma EnabledStep(input: Bytes)
    requires |input| >= MIN_WINDOW && !StartsWith(input, DONT)
    ensures ParseFn(input).Err? <==> ParseMul(input).Err?
    ensures ParseFn(input).Err? ==> ParseFn(input).error == ParseMul(input).error
    ensures ParseFn(input).Ok? ==>
              Transition(ParseFn(input).value, true) == (Contribution(ParseMul(input).value), true)
  {
    KeywordsExclusive(input);
  }

  lemma NoDontTail(input: Bytes)
    requires NoDont(input) && |input| > 0
    ensures NoDont(input[1..]) && !StartsWith(input, DONT)
  {
    assert input[0..] == input;
    forall p | 0 <= p < |input[1..]| ensures !StartsWith(input[1..][p..], DONT) {
      assert input[1..][p..] == input[p + 1..];
    }
  }
}
