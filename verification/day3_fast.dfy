/** Day 3 of `src/day3.rs`, the fast variant: the scanner jumps to the
    next 'm' (or 'd' in part 2), matches the call text against nine fixed
    operand shapes, and skips past what it recognised. */
module Day3Fast {
  import opened Results
  import opened Bytes
  import opened Parsers
  import Day3

  // ---------------------------------------------------------------------
  // `parse_mul_args`: the nine slice patterns
  // ---------------------------------------------------------------------

  /** `b'0' as u64`. */
  const ZERO: int := 48

  /** The bytes after "mul(" fit the pattern with `a` left and `b` right
      bytes: a ',' after the left operand and a ')' after the right one.
      The operand bytes themselves are wildcards. */
  predicate Fits(t: Bytes, a: nat, b: nat) {
    a + b + 2 <= |t| && t[a] == ',' && t[a + 1 + b] == ')'
  }

  /** The nine patterns have operand widths 1..3 on either side. */
  predicate IsShape(a: nat, b: nat) {
    1 <= a <= 3 && 1 <= b <= 3
  }

  /** The source lists its patterns by left width, then right width:
      (1,1), (1,2), (1,3), (2,1), ..., (3,3). */
  predicate TriedBefore(a: nat, b: nat, c: nat, d: nat) {
    a < c || (a == c && b < d)
  }

  /** Position of a shape in that list. */
  function Rank(a: nat, b: nat): nat
    requires IsShape(a, b)
  {
    3 * (a - 1) + (b - 1)
  }

  /** The first shape, from (a, b) on in the source's order, that `t` fits. */
  function FirstFit(t: Bytes, a: nat, b: nat): (r: Option<(nat, nat)>)
    requires IsShape(a, b)
    ensures r.Some? ==> IsShape(r.value.0, r.value.1) && Fits(t, r.value.0, r.value.1)
    decreases 8 - Rank(a, b)
  {
    if Fits(t, a, b) then Some((a, b))
    else if b < 3 then FirstFit(t, a, b + 1)
    else if a < 3 then FirstFit(t, a + 1, 1)
    else None
  }

  /** No shape from (a, b) on, in the source's order, fits `t`. */
  ghost predicate NoFitFrom(t: Bytes, a: nat, b: nat) {
    forall c: nat, d: nat :: IsShape(c, d) && !TriedBefore(c, d, a, b) ==> !Fits(t, c, d)
  }

  /** No shape from (a, b) on and before (e, f) fits `t`. */
  ghost predicate NoFitBetween(t: Bytes, a: nat, b: nat, e: nat, f: nat) {
    forall c: nat, d: nat ::
      IsShape(c, d) && !TriedBefore(c, d, a, b) && TriedBefore(c, d, e, f) ==> !Fits(t, c, d)
  }

  /** The shapes from (a, b) on are (a, b) itself followed by the shapes
      from its successor (a2, b2). */
  lemma NextShape(t: Bytes, a: nat, b: nat, a2: nat, b2: nat, e: nat, f: nat)
    requires IsShape(a, b) && IsShape(a2, b2)
    requires (b < 3 && a2 == a && b2 == b + 1) || (b == 3 && a2 == a + 1 && b2 == 1)
    ensures NoFitFrom(t, a, b) <==> !Fits(t, a, b) && NoFitFrom(t, a2, b2)
    ensures !Fits(t, a, b) && NoFitBetween(t, a2, b2, e, f) ==> NoFitBetween(t, a, b, e, f)
  {
  }

  /** `FirstFit` skips only shapes that do not fit, and reports none only
      when no remaining shape fits. */
  lemma {:induction false} FirstFitEarliest(t: Bytes, a: nat, b: nat)
    requires IsShape(a, b)
    ensures var r := FirstFit(t, a, b);
            r.Some? ==> !TriedBefore(r.value.0, r.value.1, a, b) && NoFitBetween(t, a, b, r.value.0, r.value.1)
    ensures FirstFit(t, a, b).None? <==> NoFitFrom(t, a, b)
    decreases 8 - Rank(a, b)
  {
    var r := FirstFit(t, a, b);
    var (e, f) := if r.Some? then r.value else (a, b);
    if Fits(t, a, b) {
      assert !NoFitFrom(t, a, b);
    } else if b < 3 {
      FirstFitEarliest(t, a, b + 1);
      NextShape(t, a, b, a, b + 1, e, f);
    } else if a < 3 {
      FirstFitEarliest(t, a + 1, 1);
      NextShape(t, a, b, a + 1, 1, e, f);
    }
  }

  /** The operand texts the first fitting pattern captures. */
  function MatchArgs(args: Bytes): (m: Option<(Bytes, Bytes)>)
    requires |args| >= 4
    ensures m.Some? ==> var (l, r) := m.value;
              && IsShape(|l|, |r|) && Fits(args[4..], |l|, |r|)
              && args[4..4 + |l|] == l && args[5 + |l|..5 + |l| + |r|] == r
  {
    var t := args[4..];
    match FirstFit(t, 1, 1)
    case None => None
    case Some((a, b)) =>
      assert args[4..4 + a] == t[..a];
      assert args[5 + a..5 + a + b] == t[a + 1..a + 1 + b];
      Some((t[..a], t[a + 1..a + 1 + b]))
  }

  /** The match is the first of the nine patterns that fits, and there is
      no match exactly when none fits. */
  lemma MatchArgsEarliest(args: Bytes)
    requires |args| >= 4
    ensures var m := MatchArgs(args);
            m.Some? ==> forall c: nat, d: nat ::
              IsShape(c, d) && TriedBefore(c, d, |m.value.0|, |m.value.1|) ==> !Fits(args[4..], c, d)
    ensures MatchArgs(args).None? <==> forall c: nat, d: nat :: IsShape(c, d) ==> !Fits(args[4..], c, d)
  {
    FirstFitEarliest(args[4..], 1, 1);
  }

  /** Bytes past the call text: "mul(", the operands, ',' and ')'. */
  function CallLength(l: Bytes, r: Bytes): nat {
    |Day3.MUL| + |l| + |r| + 2
  }

  // ---------------------------------------------------------------------
  // Operand arithmetic
  // ---------------------------------------------------------------------

  /** `l1 as u64 * 100 + l2 as u64 * 10 + l3 as u64`: positional value of
      the raw byte codes. */
  function Raw(s: Bytes): int {
    if |s| == 0 then 0 else (s[0] as int) * Pow10(|s| - 1) + Raw(s[1..])
  }

  /** The positional value of the bytes read as digits, `b - b'0'` each. */
  function Decoded(s: Bytes): int {
    if |s| == 0 then 0 else (s[0] as int - ZERO) * Pow10(|s| - 1) + Decoded(s[1..])
  }

  /** The repunits 1, 11, 111 the source multiplies `ZERO` by. */
  function Ones(n: nat): nat {
    if n == 0 then 0 else Pow10(n - 1) + Ones(n - 1)
  }

  /** Raw codes carry an extra `ZERO` in every position. */
  lemma {:induction false} RawIsDecodedPlusZeros(s: Bytes)
    ensures Raw(s) == Decoded(s) + ZERO * Ones(|s|)
    decreases |s|
  {
    if |s| > 0 {
      RawIsDecodedPlusZeros(s[1..]);
    }
  }

  /** On digits, the decoding is the positional value of the numeral. */
  lemma {:induction false} DecodedDigits(s: Bytes)
    requires AllDigits(s)
    ensures Decoded(s) == DecimalValue(s)
    decreases |s|
  {
    if |s| > 0 {
      DecodedDigits(s[1..]);
    }
  }

  /** `parse_mul_args` as written: the product of the raw operands minus
      `ZERO * ZERO` scaled by both repunits. It matches, and skips, exactly
      as the corrected parse does; only the value differs. */
  function ParseMulArgsAsWritten(args: Bytes): (res: (nat, Option<int>))
    requires |args| >= 4
    ensures res.0 == ParseMulArgs(args).0
    ensures res.1.None? <==> MatchArgs(args).None?
  {
    match MatchArgs(args)
    case None => (4, None)
    case Some((l, r)) =>
      (CallLength(l, r), Some(Raw(l) * Raw(r) - Ones(|l|) * ZERO * Ones(|r|) * ZERO))
  }

  /** `parse_mul_args` with the evidently intended value: the product of
      the decoded operands. The offset is that of the source. */
  function ParseMulArgs(args: Bytes): (res: (nat, Option<int>))
    requires |args| >= 4
    ensures res.1.None? <==> MatchArgs(args).None?
    ensures res.1.None? ==> res.0 == 4
    ensures res.1.Some? ==> 8 <= res.0 <= |args| && res.0 <= ARGS_LIMIT
    ensures res.1.Some? ==> res.0 == CallLength(MatchArgs(args).value.0, MatchArgs(args).value.1)
  {
    match MatchArgs(args)
    case None => (4, None)
    case Some((l, r)) => (CallLength(l, r), Some(Decoded(l) * Decoded(r)))
  }

  /** The longest call text the patterns accept: "mul(123,456)". */
  const ARGS_LIMIT: nat := 12

  /** The as-written value exceeds the decoded product by `ZERO` times the
      cross terms: `ZERO * (ones(|l|) * r + ones(|r|) * l)`. */
  lemma AsWrittenExcess(args: Bytes)
    requires |args| >= 4 && MatchArgs(args).Some?
    ensures var (l, r) := MatchArgs(args).value;
            ParseMulArgsAsWritten(args).1.value - ParseMulArgs(args).1.value
            == ZERO * (Ones(|l|) * Decoded(r) + Ones(|r|) * Decoded(l))
  {
    var (l, r) := MatchArgs(args).value;
    RawIsDecodedPlusZeros(l);
    RawIsDecodedPlusZeros(r);
    CrossTerms(Decoded(l), Decoded(r), Ones(|l|), Ones(|r|));
  }

  lemma CrossTerms(dl: int, dr: int, ol: int, or: int)
    ensures (dl + ZERO * ol) * (dr + ZERO * or) - ol * ZERO * or * ZERO
            == dl * dr + ZERO * (ol * dr + or * dl)
  {
    calc {
      (dl + ZERO * ol) * (dr + ZERO * or);
      dl * dr + dl * (ZERO * or) + (ZERO * ol) * dr + (ZERO * ol) * (ZERO * or);
      dl * dr + ZERO * (ol * dr + or * dl) + ol * ZERO * or * ZERO;
    }
  }

  /** "mul(1,1)" is decoded to 97 as written, and to 1 as intended. */
  lemma MulOneOne()
    ensures ParseMulArgsAsWritten("mul(1,1)") == (8, Some(97))
    ensures ParseMulArgs("mul(1,1)") == (8, Some(1))
  {
    var args: Bytes := "mul(1,1)";
    var t := args[4..];
    assert t == "1,1)";
    assert Fits(t, 1, 1);
    assert FirstFit(t, 1, 1) == Some((1, 1));
    assert t[..1] == "1" && t[2..3] == "1";
    assert MatchArgs(args) == Some(("1", "1"));
    assert Raw("1") == 49 && Decoded("1") == 1 && Ones(1) == 1;
  }

  /** A call with operands of one to three bytes, no ',' in the left and no
      ')' in the right operand, is matched with exactly those operands. */
  lemma MatchArgsOfCall(l: Bytes, r: Bytes, rest: Bytes)
    requires IsShape(|l|, |r|) && ',' !in l && ')' !in r
    ensures MatchArgs(Day3.Call(l, r, rest)) == Some((l, r))
  {
    var e := Day3.Call(l, r, rest);
    var t := e[4..];
    assert t == l + [','] + r + [')'] + rest;
    assert Fits(t, |l|, |r|);
    forall a: nat, b: nat | IsShape(a, b) && TriedBefore(a, b, |l|, |r|)
      ensures !Fits(t, a, b)
    {
      if a < |l| {
        assert t[a] == l[a];
      } else {
        assert t[a + 1 + b] == r[b];
      }
    }
    MatchArgsEarliest(e);
    var m := MatchArgs(e);
    assert m.Some?;
    var (l', r') := m.value;
    assert l' == t[..|l|] == l;
    assert r' == t[|l| + 1..|l| + 1 + |r|] == r;
  }

  /** On a call with digit operands the fast parser and `parse_mul` agree:
      both yield the product of the decoded operands, as long as the safe
      window of 12 bytes exists and ends on a char boundary. */
  lemma FastAgreesWithSafe(l: Bytes, r: Bytes, rest: Bytes)
    requires IsShape(|l|, |r|) && AllDigits(l) && AllDigits(r)
    ensures ParseMulArgs(Day3.Call(l, r, rest))
            == (CallLength(l, r), Some(DecimalValue(l) * DecimalValue(r) as int))
    ensures |Day3.Call(l, r, rest)| >= Day3.ARGS_END && IsCharBoundary(Day3.Call(l, r, rest), Day3.ARGS_END) ==>
              Day3.ParseMul(Day3.Call(l, r, rest)) == Ok(Some(DecimalValue(l) * DecimalValue(r)))
  {
    assert ',' !in l && ')' !in r;
    MatchArgsOfCall(l, r, rest);
    DecodedDigits(l);
    DecodedDigits(r);
    if |Day3.Call(l, r, rest)| >= Day3.ARGS_END && IsCharBoundary(Day3.Call(l, r, rest), Day3.ARGS_END) {
      Day3.ParseMulOfCall(l, r, rest);
    }
  }

  // ---------------------------------------------------------------------
  // `parse_ascii_mul`, `parse_enabled`
  // ---------------------------------------------------------------------

  /** `parse_ascii_mul`: the pattern match after "mul(", otherwise one
      byte of progress. */
  function ParseAsciiMul(expr: Bytes): (res: (nat, Option<int>))
    ensures !StartsWith(expr, Day3.MUL) ==> res == (1, None)
    ensures |expr| > 0 ==> 1 <= res.0 <= |expr|
  {
    if StartsWith(expr, Day3.MUL) then ParseMulArgs(expr) else (1, None)
  }

  /** `parse_enabled`: like `parse_ascii_mul`, except that "don't()"
      skips seven bytes and disables the scanner. */
  function ParseEnabled(expr: Bytes): (res: (nat, bool, Option<int>))
    ensures |expr| > 0 ==> 1 <= res.0 <= |expr|
  {
    if StartsWith(expr, Day3.MUL) then
      var (offset, v) := ParseMulArgs(expr);
      (offset, true, v)
    else if StartsWith(expr, Day3.DONT) then (|Day3.DONT|, false, None)
    else (1, true, None)
  }

  /** Only "don't()", not preceded by a match of "mul(", disables; it
      yields nothing and skips its seven bytes. Otherwise the step is that
      of part 1. */
  lemma EnabledSpec(expr: Bytes)
    ensures var res := ParseEnabled(expr);
            && (!res.1 <==> !StartsWith(expr, Day3.MUL) && StartsWith(expr, Day3.DONT))
            && (!res.1 ==> res.0 == |Day3.DONT| && res.2.None?)
            && (res.1 ==> (res.0, res.2) == ParseAsciiMul(expr))
  {
  }

  // ---------------------------------------------------------------------
  // The two fast loops
  // ---------------------------------------------------------------------

  function Value(v: Option<int>): int {
    if v.Some? then v.value else 0
  }

  /** `position(|c| c == a || c == b)`, with `|s|` standing for "none". */
  function FirstOf(s: Bytes, a: byte, b: byte): (k: nat)
    ensures k <= |s| && (k < |s| ==> s[k] == a || s[k] == b)
  {
    if |s| == 0 || s[0] == a || s[0] == b then 0 else 1 + FirstOf(s[1..], a, b)
  }

  /** The first index holding `a` or `b` is the one `FirstOf` reports. */
  lemma {:induction false} FirstOfIs(s: Bytes, a: byte, b: byte, k: nat)
    requires k <= |s| && (k < |s| ==> s[k] == a || s[k] == b)
    requires forall j :: 0 <= j < k ==> s[j] != a && s[j] != b
    ensures FirstOf(s, a, b) == k
    decreases k
  {
    if k > 0 {
      FirstOfIs(s[1..], a, b, k - 1);
    }
  }

  /** Filler without `a` or `b` only shifts the position found after it. */
  lemma {:induction false} FirstOfAfter(filler: Bytes, rest: Bytes, a: byte, b: byte)
    requires a !in filler && b !in filler
    ensures FirstOf(filler + rest, a, b) == |filler| + FirstOf(rest, a, b)
    decreases |filler|
  {
    if |filler| == 0 {
      assert filler + rest == rest;
    } else {
      assert (filler + rest)[1..] == filler[1..] + rest;
      assert filler[0] in filler;
      FirstOfAfter(filler[1..], rest, a, b);
    }
  }

  /** `part1`: jump to the next 'm' and parse there. */
  function Part1Fast(input: Bytes): (r: int)
    ensures 'm' !in input ==> r == 0
    decreases |input|, 1
  {
    var pos := FirstOf(input, 'm', 'm');
    if pos == |input| then 0 else Part1At(input[pos..])
  }

  /** One turn of part 1's loop at an 'm': add the parsed value, skip the
      offset. */
  function Part1At(t: Bytes): int
    requires |t| > 0
    decreases |t|, 0
  {
    var step := ParseAsciiMul(t);
    Value(step.1) + Part1Fast(t[step.0..])
  }

  /** `part2`: the loop's `enabled` flag selects one of two scanners. */
  function Part2Fast(input: Bytes, enabled: bool): (r: int)
    ensures enabled && 'm' !in input && 'd' !in input ==> r == 0
    decreases |input|, 2
  {
    if enabled then Part2Enabled(input) else Part2Disabled(input)
  }

  /** Enabled: jump to the next 'm' or 'd' and parse there. */
  function Part2Enabled(input: Bytes): int
    decreases |input|, 1
  {
    var pos := FirstOf(input, 'm', 'd');
    if pos == |input| then 0 else Part2At(input[pos..])
  }

  /** One turn of the enabled scanner at an 'm' or 'd'. */
  function Part2At(t: Bytes): int
    requires |t| > 0
    decreases |t|, 0
  {
    var step := ParseEnabled(t);
    Value(step.2) + Part2Fast(t[step.0..], step.1)
  }

  /** Disabled: jump past the next "do()", or stop when there is none. */
  function Part2Disabled(input: Bytes): int
    decreases |input|, 1
  {
    match FindSeq(input, Day3.DO)
    case None => 0
    case Some(pos) => Part2Fast(input[pos + |Day3.DO|..], true)
  }

  // ---------------------------------------------------------------------
  // The fast loops over a stream of calls and filler
  // ---------------------------------------------------------------------

  /** Text without 'm' is skipped by part 1. */
  lemma Part1SkipsFiller(filler: Bytes, rest: Bytes)
    requires 'm' !in filler
    ensures Part1Fast(filler + rest) == Part1Fast(rest)
  {
    var s := filler + rest;
    FirstOfAfter(filler, rest, 'm', 'm');
    var k := FirstOf(rest, 'm', 'm');
    assert s[|filler| + k..] == rest[k..];
    Part1SameFromM(s, rest);
  }

  /** Two texts that agree from their first 'm' on have the same part 1. */
  lemma Part1SameFromM(a: Bytes, b: Bytes)
    requires a[FirstOf(a, 'm', 'm')..] == b[FirstOf(b, 'm', 'm')..]
    ensures Part1Fast(a) == Part1Fast(b)
  {
    Part1SkipsToM(a);
    Part1SkipsToM(b);
  }

  /** Part 1 starts at its first 'm'. */
  lemma Part1SkipsToM(s: Bytes)
    ensures Part1Fast(s) == Part1Fast(s[FirstOf(s, 'm', 'm')..])
  {
    var pos := FirstOf(s, 'm', 'm');
    if pos < |s| {
      var t := s[pos..];
      FirstOfIs(t, 'm', 'm', 0);
      assert t[0..] == t;
    }
  }

  /** A call with digit operands adds its product and resumes right after
      its ')'. */
  lemma Part1OfCall(l: Bytes, r: Bytes, rest: Bytes)
    requires IsShape(|l|, |r|) && AllDigits(l) && AllDigits(r)
    ensures Part1Fast(Day3.Call(l, r, rest)) == DecimalValue(l) * DecimalValue(r) + Part1Fast(rest)
  {
    var e := Day3.Call(l, r, rest);
    FastAgreesWithSafe(l, r, rest);
    FirstOfIs(e, 'm', 'm', 0);
    assert e[0..] == e;
    assert e[CallLength(l, r)..] == rest;
  }

  /** While enabled, text without 'm' or 'd' is skipped by part 2. */
  lemma Part2SkipsFiller(filler: Bytes, rest: Bytes)
    requires 'm' !in filler && 'd' !in filler
    ensures Part2Fast(filler + rest, true) == Part2Fast(rest, true)
  {
    var s := filler + rest;
    FirstOfAfter(filler, rest, 'm', 'd');
    var k := FirstOf(rest, 'm', 'd');
    assert s[|filler| + k..] == rest[k..];
    Part2SameFromKeyword(s, rest);
  }

  /** Two texts that agree from their first 'm' or 'd' on have the same
      part 2. */
  lemma Part2SameFromKeyword(a: Bytes, b: Bytes)
    requires a[FirstOf(a, 'm', 'd')..] == b[FirstOf(b, 'm', 'd')..]
    ensures Part2Fast(a, true) == Part2Fast(b, true)
  {
    Part2SkipsToKeyword(a);
    Part2SkipsToKeyword(b);
  }

  /** While enabled, part 2 starts at its first 'm' or 'd'. */
  lemma Part2SkipsToKeyword(s: Bytes)
    ensures Part2Fast(s, true) == Part2Fast(s[FirstOf(s, 'm', 'd')..], true)
  {
    var pos := FirstOf(s, 'm', 'd');
    if pos < |s| {
      var t := s[pos..];
      FirstOfIs(t, 'm', 'd', 0);
      assert t[0..] == t;
    } else {
      Part2NoKeyword(s);
      Part2NoKeyword(s[pos..]);
    }
  }

  lemma Part2NoKeyword(s: Bytes)
    requires FirstOf(s, 'm', 'd') == |s|
    ensures Part2Fast(s, true) == 0
  {
  }

  /** While enabled, a call with digit operands adds its product. */
  lemma Part2OfCall(l: Bytes, r: Bytes, rest: Bytes)
    requires IsShape(|l|, |r|) && AllDigits(l) && AllDigits(r)
    ensures Part2Fast(Day3.Call(l, r, rest), true) == DecimalValue(l) * DecimalValue(r) + Part2Fast(rest, true)
  {
    var e := Day3.Call(l, r, rest);
    FastAgreesWithSafe(l, r, rest);
    FirstOfIs(e, 'm', 'd', 0);
    assert e[0..] == e;
    assert Part2Fast(e, true) == Part2At(e);
    assert e[CallLength(l, r)..] == rest;
  }

  /** "don't()" disables the scanner. */
  lemma Part2OfDont(rest: Bytes)
    ensures Part2Fast(Day3.DONT + rest, true) == Part2Fast(rest, false)
  {
    var e := Day3.DONT + rest;
    FirstOfIs(e, 'm', 'd', 0);
    assert e[0..] == e;
    assert Part2Fast(e, true) == Part2At(e);
    assert StartsWith(e, Day3.DONT) && !StartsWith(e, Day3.MUL);
    assert e[|Day3.DONT|..] == rest;
  }

  /** While disabled, everything up to and including the next "do()" is
      skipped, products and all. */
  lemma Part2OfDo(filler: Bytes, rest: Bytes)
    requires forall j :: 0 <= j < |filler| ==> !StartsWith((filler + Day3.DO)[j..], Day3.DO)
    ensures Part2Fast(filler + Day3.DO + rest, false) == Part2Fast(rest, true)
  {
    var s := filler + Day3.DO + rest;
    var w := filler + Day3.DO;
    assert s[|filler|..][..|Day3.DO|] == Day3.DO;
    forall j | 0 <= j < |filler| ensures !StartsWith(s[j..], Day3.DO) {
      assert s[j..][..|Day3.DO|] == w[j..][..|Day3.DO|];
    }
    FindSeqFirst(s, Day3.DO, |filler|);
    assert s[|filler| + |Day3.DO|..] == rest;
  }

  /** Without any 'd' nothing disables the scanner, and part 2 equals part 1. */
  lemma {:induction false} Part2WithoutD(input: Bytes)
    requires 'd' !in input
    ensures Part2Fast(input, true) == Part1Fast(input)
    decreases |input|
  {
    var pos := FirstOf(input, 'm', 'm');
    FirstOfSame(input, pos);
    if pos < |input| {
      var expr := input[pos..];
      EnabledSpec(expr);
      assert !StartsWith(expr, Day3.DONT) by {
        assert expr[0] == 'm' && Day3.DONT[0] == 'd';
      }
      var step := ParseAsciiMul(expr);
      assert ParseEnabled(expr) == (step.0, true, step.1);
      assert expr[step.0..] == input[pos + step.0..];
      assert Part1Fast(input) == Value(step.1) + Part1Fast(input[pos + step.0..]);
      assert Part2Fast(input, true) == Part2At(expr);
      DropKeepsAbsent(input, pos + step.0, 'd');
      Part2WithoutD(input[pos + step.0..]);
    }
  }

  lemma DropKeepsAbsent(s: Bytes, k: nat, b: byte)
    requires k <= |s| && b !in s
    ensures b !in s[k..]
  {

  }

  /** Without 'd', looking for 'm' or 'd' finds the next 'm'. */
  lemma {:induction false} FirstOfSame(input: Bytes, pos: nat)
    requires 'd' !in input && FirstOf(input, 'm', 'm') == pos
    ensures FirstOf(input, 'm', 'd') == pos
    decreases |input|
  {
    if |input| > 0 && input[0] != 'm' {
      assert input[0] != 'd';
      FirstOfSame(input[1..], pos - 1);
    }
  }
}
