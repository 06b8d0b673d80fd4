/** The shared parsing helpers of `src/parsers.rs`, plus the slices of the
    Rust standard library the solvers lean on (`split_inclusive`, `split`,
    `str::lines`, `split_ascii_whitespace`, integer `parse`). */
module Parsers {
  import opened Results
  import opened Bytes

  // ---------------------------------------------------------------------
  // Decimal decoding
  // ---------------------------------------------------------------------

  function Pow10(n: nat): (p: nat)
    ensures p >= 1
  {
    if n == 0 then 1 else 10 * Pow10(n - 1)
  }

  /** The digit bytes of `s`, in order (the `filter` of `u64_from_ascii`). */
  function Digits(s: Bytes): (d: Bytes)
    ensures |d| <= |s|
    ensures forall i :: 0 <= i < |d| ==> IsDigit(d[i])
    ensures (forall i :: 0 <= i < |s| ==> IsDigit(s[i])) ==> d == s
  {
    if |s| == 0 then []
    else (if IsDigit(s[0]) then [s[0]] else []) + Digits(s[1..])
  }

  /** Positional value of a run of digits: the sum of d[i] * 10^(|d|-1-i).
      This is the reference meaning of a decimal numeral. */
  function DecimalValue(d: Bytes): nat
    requires forall i :: 0 <= i < |d| ==> IsDigit(d[i])
  {
    if |d| == 0 then 0 else DigitValue(d[0]) * Pow10(|d| - 1) + DecimalValue(d[1..])
  }

  /** The left fold `acc * 10 + (d - b'0')` over a run of digits. */
  function FoldDecimal(acc: nat, d: Bytes): nat
    requires forall i :: 0 <= i < |d| ==> IsDigit(d[i])
    decreases |d|
  {
    if |d| == 0 then acc else FoldDecimal(acc * 10 + DigitValue(d[0]), d[1..])
  }

  lemma {:induction false} FoldIsPositional(acc: nat, d: Bytes)
    requires forall i :: 0 <= i < |d| ==> IsDigit(d[i])
    ensures FoldDecimal(acc, d) == acc * Pow10(|d|) + DecimalValue(d)
    decreases |d|
  {
    if |d| > 0 {
      var p := Pow10(|d| - 1);
      var v := DigitValue(d[0]);
      FoldIsPositional(acc * 10 + v, d[1..]);
      assert Pow10(|d|) == 10 * p;
      assert DecimalValue(d) == v * p + DecimalValue(d[1..]);
      ShiftDigit(acc, v, p);
    }
  }

  /** Shifting a digit onto an accumulator, in positional terms. */
  lemma ShiftDigit(acc: int, v: int, p: int)
    ensures (acc * 10 + v) * p == acc * (10 * p) + v * p
  {
  }

  /** `u64_from_ascii`: non-digit bytes are skipped, the rest are folded
      left to right. The result is the positional value of the digit
      subsequence, and a digit-free input decodes to 0. */
  function U64FromAscii(s: Bytes): (n: nat)
    ensures n == DecimalValue(Digits(s))
    ensures (forall i :: 0 <= i < |s| ==> !IsDigit(s[i])) ==> n == 0
  {
    DigitsOfDigitFree(s);
    FoldIsPositional(0, Digits(s));
    FoldDecimal(0, Digits(s))
  }

  lemma {:induction false} DigitsOfDigitFree(s: Bytes)
    ensures (forall i :: 0 <= i < |s| ==> !IsDigit(s[i])) ==> Digits(s) == []
    decreases |s|
  {
    if |s| > 0 {
      DigitsOfDigitFree(s[1..]);
    }
  }

  lemma {:induction false} DigitsAppend(s: Bytes, b: byte)
    ensures Digits(s + [b]) == Digits(s) + (if IsDigit(b) then [b] else [])
    decreases |s|
  {
    if |s| == 0 {
      assert Digits([b]) == (if IsDigit(b) then [b] else []) + Digits([]);
    } else {
      assert (s + [b])[1..] == s[1..] + [b];
      DigitsAppend(s[1..], b);
    }
  }

  lemma {:induction false} FoldAppend(acc: nat, d: Bytes, b: byte)
    requires forall i :: 0 <= i < |d| ==> IsDigit(d[i])
    requires IsDigit(b)
    ensures FoldDecimal(acc, d + [b]) == 10 * FoldDecimal(acc, d) + DigitValue(b)
    decreases |d|
  {
    if |d| > 0 {
      assert (d + [b])[1..] == d[1..] + [b];
      FoldAppend(acc * 10 + DigitValue(d[0]), d[1..], b);
    }
  }

  /** Appending a digit shifts the value one decimal place; appending any
      other byte changes nothing. */
  lemma AppendByte(s: Bytes, b: byte)
    ensures IsDigit(b) ==> U64FromAscii(s + [b]) == 10 * U64FromAscii(s) + DigitValue(b)
    ensures !IsDigit(b) ==> U64FromAscii(s + [b]) == U64FromAscii(s)
  {
    DigitsAppend(s, b);
    if IsDigit(b) {
      FoldAppend(0, Digits(s), b);
    } else {
      assert Digits(s + [b]) == Digits(s) + [];
      assert Digits(s) + [] == Digits(s);
    }
  }

  /** Decimal rendering of a natural number, without leading zeros. */
  function Render(n: nat): (s: Bytes)
    ensures |s| > 0
    ensures forall i :: 0 <= i < |s| ==> IsDigit(s[i])
    ensures n > 0 ==> s[0] != '0'
  {
    if n < 10 then [DigitByte(n)] else Render(n / 10) + [DigitByte(n % 10)]
  }

  /** Decoding the rendering of `n` gives back `n`. */
  lemma {:induction false} RenderRoundTrip(n: nat)
    ensures U64FromAscii(Render(n)) == n
  {
    if n < 10 {
      AppendByte([], DigitByte(n));
      assert [] + [DigitByte(n)] == Render(n);
    } else {
      RenderRoundTrip(n / 10);
      AppendByte(Render(n / 10), DigitByte(n % 10));
    }
  }

  /** `k` bytes '0'. */
  function Zeros(k: nat): (z: Bytes)
    ensures |z| == k
    ensures forall i :: 0 <= i < k ==> z[i] == '0'
  {
    if k == 0 then [] else ['0'] + Zeros(k - 1)
  }

  /** Leading '0' bytes do not change the decoded value. */
  lemma LeadingZeros(k: nat, s: Bytes)
    ensures U64FromAscii(Zeros(k) + s) == U64FromAscii(s)
  {
    DigitsPrefixZeros(k, s);
    FoldZeros(k, Digits(s));
  }

  lemma {:induction false} DigitsPrefixZeros(k: nat, s: Bytes)
    ensures Digits(Zeros(k) + s) == Zeros(k) + Digits(s)
    decreases k
  {
    if k > 0 {
      var t := Zeros(k) + s;
      assert t == ['0'] + (Zeros(k - 1) + s);
      assert t[0] == '0' && t[1..] == Zeros(k - 1) + s;
      DigitsPrefixZeros(k - 1, s);
      assert Digits(t) == ['0'] + Digits(t[1..]);
      assert Zeros(k) + Digits(s) == ['0'] + (Zeros(k - 1) + Digits(s));
    } else {
      assert Zeros(k) + s == s && Zeros(k) + Digits(s) == Digits(s);
    }
  }

  lemma {:induction false} FoldZeros(k: nat, d: Bytes)
    requires forall i :: 0 <= i < |d| ==> IsDigit(d[i])
    ensures FoldDecimal(0, Zeros(k) + d) == FoldDecimal(0, d)
    decreases k
  {
    if k > 0 {
      var t := Zeros(k) + d;
      assert t == ['0'] + (Zeros(k - 1) + d);
      assert t[0] == '0' && t[1..] == Zeros(k - 1) + d;
      FoldZeros(k - 1, d);
    } else {
      assert Zeros(k) + d == d;
    }
  }

  // ---------------------------------------------------------------------
  // Splitting
  // ---------------------------------------------------------------------

  function Concat(pieces: seq<Bytes>): Bytes {
    if |pieces| == 0 then [] else pieces[0] + Concat(pieces[1..])
  }

  /** The shape `split_inclusive(sep)` produces: non-empty pieces, `sep`
      closing every piece but the last and appearing nowhere else. */
  predicate InclusivePieces(pieces: seq<Bytes>, sep: byte) {
    && (forall i :: 0 <= i < |pieces| ==> |pieces[i]| > 0)
    && (forall i :: 0 <= i < |pieces| - 1 ==> pieces[i][|pieces[i]| - 1] == sep)
    && (forall i :: 0 <= i < |pieces| ==> sep !in pieces[i][..|pieces[i]| - 1])
  }

  /** `<[u8]>::split_inclusive(|&c| c == sep)` (`ascii_lines` with sep = '\n'):
      an empty input has no pieces, and a trailing separator closes the
      last piece instead of opening an empty one. */
  function SplitInclusive(s: Bytes, sep: byte): (pieces: seq<Bytes>)
    ensures Concat(pieces) == s
    decreases |s|
  {
    if |s| == 0 then []
    else match Find(s, sep)
      case None => [s]
      case Some(k) =>
        var rest := SplitInclusive(s[k + 1..], sep);
        assert s[..k + 1] + s[k + 1..] == s;
        [s[..k + 1]] + rest
  }

  /** The pieces of `split_inclusive` are well shaped. */
  lemma {:induction false} SplitInclusiveShape(s: Bytes, sep: byte)
    ensures InclusivePieces(SplitInclusive(s, sep), sep)
    decreases |s|
  {
    if |s| > 0 {
      match Find(s, sep)
      case None =>
        assert SplitInclusive(s, sep) == [s];
      case Some(k) =>
        var piece := s[..k + 1];
        var rest := SplitInclusive(s[k + 1..], sep);
        assert SplitInclusive(s, sep) == [piece] + rest;
        assert piece[..k] == s[..k];
        SplitInclusiveShape(s[k + 1..], sep);
        InclusivePiecesCons(piece, rest, sep);
    }
  }

  /** A piece closed by `sep`, with no other `sep`, may lead well-shaped
      pieces. */
  lemma InclusivePiecesCons(p: Bytes, rest: seq<Bytes>, sep: byte)
    requires |p| > 0 && p[|p| - 1] == sep && sep !in p[..|p| - 1]
    requires InclusivePieces(rest, sep)
    ensures InclusivePieces([p] + rest, sep)
  {
    var all := [p] + rest;
    assert forall i :: 0 < i < |all| ==> all[i] == rest[i - 1];
  }

  /** The first `sep` of `p + t` is the head of `t` when `p` has none. */
  lemma FindAfterFree(p: Bytes, t: Bytes, sep: byte)
    requires sep !in p && |t| > 0 && t[0] == sep
    ensures Find(p + t, sep) == Some(|p|)
  {
    var s := p + t;
    assert s[|p|] == sep;
    assert s[..|p|] == p;
  }

  lemma InclusivePiecesTail(pieces: seq<Bytes>, sep: byte)
    requires |pieces| > 0 && InclusivePieces(pieces, sep)
    ensures InclusivePieces(pieces[1..], sep)
  {
    var t := pieces[1..];
    assert forall i :: 0 <= i < |t| ==> t[i] == pieces[i + 1];
  }

  /** One well-shaped piece in front of `rest` splits off as itself. */
  lemma SplitInclusiveCons(p: Bytes, rest: Bytes, sep: byte)
    requires |p| > 0 && sep !in p[..|p| - 1]
    requires p[|p| - 1] == sep || rest == []
    ensures SplitInclusive(p + rest, sep) == [p] + SplitInclusive(rest, sep)
  {
    var body := p[..|p| - 1];
    var s := p + rest;
    assert p == body + [p[|p| - 1]];
    if p[|p| - 1] == sep {
      assert s == body + ([sep] + rest);
      FindAfterFree(body, [sep] + rest, sep);
      assert s[..|p|] == p;
      assert s[|p|..] == rest;
    } else {
      assert s == p;
      assert sep !in s;
    }
  }

  /** Splitting the concatenation of well-shaped pieces returns them. */
  lemma {:induction false} SplitInclusiveConcat(pieces: seq<Bytes>, sep: byte)
    requires InclusivePieces(pieces, sep)
    ensures SplitInclusive(Concat(pieces), sep) == pieces
    decreases |pieces|
  {
    if |pieces| > 0 {
      var p := pieces[0];
      InclusivePiecesTail(pieces, sep);
      SplitInclusiveConcat(pieces[1..], sep);
      assert |pieces| == 1 ==> Concat(pieces[1..]) == [];
      SplitInclusiveCons(p, Concat(pieces[1..]), sep);
    }
  }

  /** Pieces joined back with one `sep` between neighbours. */
  function Join(pieces: seq<Bytes>, sep: byte): Bytes {
    if |pieces| == 0 then []
    else if |pieces| == 1 then pieces[0]
    else pieces[0] + [sep] + Join(pieces[1..], sep)
  }

  /** `<[u8]>::split(|&c| c == sep)` (`ascii_words` with sep = ' '): every
      separator ends one piece and starts the next, so there is always one
      more piece than separators, and joining them restores the input. */
  function Split(s: Bytes, sep: byte): (pieces: seq<Bytes>)
    ensures |pieces| == Count(s, sep) + 1
    ensures forall i :: 0 <= i < |pieces| ==> sep !in pieces[i]
    ensures Join(pieces, sep) == s
    decreases |s|
  {
    match Find(s, sep)
    case None => [s]
    case Some(k) =>
      var rest := Split(s[k + 1..], sep);
      assert s == s[..k] + [sep] + s[k + 1..];
      assert multiset(s) == multiset(s[..k]) + multiset([sep]) + multiset(s[k + 1..]);
      [s[..k]] + rest
  }

  /** Splitting a join of separator-free pieces returns them. */
  lemma {:induction false} SplitJoin(pieces: seq<Bytes>, sep: byte)
    requires |pieces| > 0
    requires forall i :: 0 <= i < |pieces| ==> sep !in pieces[i]
    ensures Split(Join(pieces, sep), sep) == pieces
    decreases |pieces|
  {
    var p := pieces[0];
    var s := Join(pieces, sep);
    if |pieces| == 1 {
      assert s == p;
      assert Find(s, sep) == None;
    } else {
      var rest := Join(pieces[1..], sep);
      assert forall i :: 0 <= i < |pieces| - 1 ==> pieces[1..][i] == pieces[i + 1];
      SplitJoin(pieces[1..], sep);
      assert s == p + ([sep] + rest);
      FindAfterFree(p, [sep] + rest, sep);
      assert s[..|p|] == p;
      assert s[|p| + 1..] == rest;
    }
  }

  /** `str::lines`: `split_inclusive('\n')` with the line ending ("\n" or
      "\r\n") removed from each piece. */
  function Lines(s: Bytes): (lines: seq<Bytes>)
    ensures |lines| == |SplitInclusive(s, NEWLINE)|
    ensures forall i :: 0 <= i < |lines| ==> NEWLINE !in lines[i]
  {
    var pieces := SplitInclusive(s, NEWLINE);
    SplitInclusiveShape(s, NEWLINE);
    seq(|pieces|, i requires 0 <= i < |pieces| => StripLineEnding(pieces[i]))
  }

  function StripLineEnding(piece: Bytes): (line: Bytes)
    requires |piece| > 0 && NEWLINE !in piece[..|piece| - 1]
    ensures NEWLINE !in line
  {
    if piece[|piece| - 1] != NEWLINE then piece
    else
      var body := piece[..|piece| - 1];
      if |body| > 0 && body[|body| - 1] == '\r' then body[..|body| - 1] else body
  }

  /** `split_ascii_whitespace`: the maximal runs of non-whitespace bytes. */
  function Tokens(s: Bytes): (tokens: seq<Bytes>)
    ensures forall i :: 0 <= i < |tokens| ==> IsToken(tokens[i])
    ensures Concat(tokens) == NonWhitespace(s)
    decreases |s|
  {
    if |s| == 0 then []
    else if IsAsciiWhitespace(s[0]) then Tokens(s[1..])
    else
      var k := TokenLength(s);
      var rest := Tokens(s[k..]);
      assert IsToken(s[..k]);
      assert ([s[..k]] + rest)[1..] == rest;
      NonWhitespaceSplit(s, k);
      [s[..k]] + rest
  }

  /** A token: a non-empty run of bytes that are not ASCII whitespace. */
  predicate IsToken(t: Bytes) {
    |t| > 0 && forall j :: 0 <= j < |t| ==> !IsAsciiWhitespace(t[j])
  }

  /** The bytes of `s` that are not ASCII whitespace, in order. */
  function NonWhitespace(s: Bytes): Bytes {
    if |s| == 0 then []
    else (if IsAsciiWhitespace(s[0]) then [] else [s[0]]) + NonWhitespace(s[1..])
  }

  function TokenLength(s: Bytes): (k: nat)
    ensures k <= |s|
    ensures forall j :: 0 <= j < k ==> !IsAsciiWhitespace(s[j])
    ensures k < |s| ==> IsAsciiWhitespace(s[k])
    ensures |s| > 0 && !IsAsciiWhitespace(s[0]) ==> k > 0
  {
    if |s| == 0 || IsAsciiWhitespace(s[0]) then 0 else 1 + TokenLength(s[1..])
  }

  lemma {:induction false} NonWhitespaceSplit(s: Bytes, k: nat)
    requires k <= |s|
    requires forall j :: 0 <= j < k ==> !IsAsciiWhitespace(s[j])
    ensures NonWhitespace(s) == s[..k] + NonWhitespace(s[k..])
    decreases k
  {
    if k > 0 {
      NonWhitespaceSplit(s[1..], k - 1);
      assert s[1..][k - 1..] == s[k..];
      assert s[..k] == [s[0]] + s[1..][..k - 1];
    }
  }

  /** A run of ASCII whitespace, possibly empty. */
  predicate IsGap(w: Bytes) {
    forall j :: 0 <= j < |w| ==> IsAsciiWhitespace(w[j])
  }

  /** Tokens `ts` laid out between the gaps `gaps`: `gaps[0] + ts[0] +
      gaps[1] + ... + ts[n-1] + gaps[n]`. */
  function Interleave(gaps: seq<Bytes>, ts: seq<Bytes>): Bytes
    requires |gaps| == |ts| + 1
    decreases |ts|
  {
    if |ts| == 0 then gaps[0] else gaps[0] + ts[0] + Interleave(gaps[1..], ts[1..])
  }

  /** Leading whitespace yields no token. */
  lemma {:induction false} TokensSkipGap(w: Bytes, s: Bytes)
    requires IsGap(w)
    ensures Tokens(w + s) == Tokens(s)
    decreases |w|
  {
    if |w| > 0 {
      assert (w + s)[0] == w[0];
      assert (w + s)[1..] == w[1..] + s;
      TokensSkipGap(w[1..], s);
    } else {
      assert w + s == s;
    }
  }

  /** A token runs up to the next whitespace byte or to the end. */
  lemma {:induction false} TokenLengthOfToken(t: Bytes, rest: Bytes)
    requires IsToken(t)
    requires |rest| == 0 || IsAsciiWhitespace(rest[0])
    ensures TokenLength(t + rest) == |t|
    decreases |t|
  {
    if |t| > 1 {
      assert (t + rest)[1..] == t[1..] + rest;
      TokenLengthOfToken(t[1..], rest);
    }
  }

  /** A token followed by whitespace or by nothing is the first token. */
  lemma TokensCons(t: Bytes, rest: Bytes)
    requires IsToken(t)
    requires |rest| == 0 || IsAsciiWhitespace(rest[0])
    ensures Tokens(t + rest) == [t] + Tokens(rest)
  {
    TokenLengthOfToken(t, rest);
    assert (t + rest)[0] == t[0];
    assert (t + rest)[..|t|] == t && (t + rest)[|t|..] == rest;
  }

  /** Maximality: tokens separated by whitespace come back one by one,
      neither merged with their neighbours nor split, whatever the gaps
      around them (the inner ones non-empty). */
  lemma {:induction false} TokensOfInterleave(gaps: seq<Bytes>, ts: seq<Bytes>)
    requires |gaps| == |ts| + 1
    requires forall i :: 0 <= i < |gaps| ==> IsGap(gaps[i])
    requires forall i :: 0 < i < |ts| ==> |gaps[i]| > 0
    requires forall i :: 0 <= i < |ts| ==> IsToken(ts[i])
    ensures Tokens(Interleave(gaps, ts)) == ts
    decreases |ts|
  {
    if |ts| == 0 {
      TokensSkipGap(gaps[0], []);
      assert gaps[0] + [] == gaps[0];
    } else {
      var rest := Interleave(gaps[1..], ts[1..]);
      assert Interleave(gaps, ts) == gaps[0] + (ts[0] + rest);
      TokensSkipGap(gaps[0], ts[0] + rest);
      InterleaveStart(gaps[1..], ts[1..]);
      TokensCons(ts[0], rest);
      TokensOfInterleave(gaps[1..], ts[1..]);
    }
  }

  /** An interleaving starts with whitespace or is empty when its first
      gap is a non-empty gap or it holds no token. */
  lemma InterleaveStart(gaps: seq<Bytes>, ts: seq<Bytes>)
    requires |gaps| == |ts| + 1 && IsGap(gaps[0])
    requires |ts| > 0 ==> |gaps[0]| > 0
    ensures var s := Interleave(gaps, ts); |s| == 0 || IsAsciiWhitespace(s[0])
  {
    if |ts| > 0 {
      assert Interleave(gaps, ts)[0] == gaps[0][0];
    } else if |gaps[0]| > 0 {
      assert Interleave(gaps, ts)[0] == gaps[0][0];
    }
  }

  /** Collecting parsed items into a `Result<Vec<_>>`: every value in
      order, or the error of the first item that fails. */
  function CollectAll<T>(parse: Bytes -> Result<T>, items: seq<Bytes>): (r: Result<seq<T>>)
    ensures r.Ok? <==> forall i :: 0 <= i < |items| ==> parse(items[i]).Ok?
    ensures r.Ok? ==> |r.value| == |items|
    ensures r.Ok? ==> forall i :: 0 <= i < |items| ==> r.value[i] == parse(items[i]).value
    ensures r.Err? ==> exists i :: 0 <= i < |items| && parse(items[i]).Err? && r.error == parse(items[i]).error
                                   && forall j :: 0 <= j < i ==> parse(items[j]).Ok?
    decreases |items|
  {
    if |items| == 0 then Ok([])
    else
      var head := parse(items[0]);
      var tail := CollectAll(parse, items[1..]);
      assert forall i :: 1 <= i < |items| ==> items[1..][i - 1] == items[i];
      if head.Err? then Err(head.error)
      else if tail.Err? then
        var k :| 0 <= k < |items[1..]| && parse(items[1..][k]).Err? && tail.error == parse(items[1..][k]).error
                 && forall j :: 0 <= j < k ==> parse(items[1..][j]).Ok?;
        assert forall j :: 0 <= j < k + 1 ==> parse(items[j]).Ok? by {
          forall j | 0 <= j < k + 1 ensures parse(items[j]).Ok? {
            if j > 0 { assert items[j] == items[1..][j - 1]; }
          }
        }
        Err(tail.error)
      else Ok([head.value] + tail.value)
  }

  // ---------------------------------------------------------------------
  // `str::parse` for the integer types
  // ---------------------------------------------------------------------

  predicate AllDigits(s: Bytes) {
    forall i :: 0 <= i < |s| ==> IsDigit(s[i])
  }

  /** `u64::from_str`: an optional '+', then one or more digits. */
  function ParseU64(s: Bytes): (r: Result<nat>)
    ensures r.Ok? <==> (|s| > 0 && s[0] == '+' && |s| > 1 && AllDigits(s[1..]))
                       || (|s| > 0 && AllDigits(s))
    ensures r.Ok? && s[0] != '+' ==> r.value == DecimalValue(s)
    ensures r.Ok? && s[0] == '+' ==> r.value == DecimalValue(s[1..])
    ensures r.Err? ==> r.error == ParseIntError
  {
    if |s| == 0 then Err(ParseIntError)
    else
      var digits := if s[0] == '+' then s[1..] else s;
      if |digits| > 0 && AllDigits(digits) then Ok(U64FromAscii(digits)) else Err(ParseIntError)
  }

  /** `i64::from_str`: an optional '+' or '-', then one or more digits. */
  function ParseI64(s: Bytes): (r: Result<int>)
    ensures r.Ok? <==> (|s| > 1 && (s[0] == '+' || s[0] == '-') && AllDigits(s[1..]))
                       || (|s| > 0 && AllDigits(s))
    ensures r.Ok? && s[0] == '-' ==> r.value == -(DecimalValue(s[1..]) as int)
    ensures r.Ok? && s[0] == '+' ==> r.value == DecimalValue(s[1..])
    ensures r.Ok? && s[0] != '-' && s[0] != '+' ==> r.value == DecimalValue(s)
    ensures r.Err? ==> r.error == ParseIntError
  {
    if |s| == 0 then Err(ParseIntError)
    else
      var digits := if s[0] == '+' || s[0] == '-' then s[1..] else s;
      if |digits| == 0 || !AllDigits(digits) then Err(ParseIntError)
      else if s[0] == '-' then Ok(-(U64FromAscii(digits) as int))
      else Ok(U64FromAscii(digits))
  }

  /** Parsing the rendering of `n` gives back `n`. */
  lemma ParseRenderRoundTrip(n: nat)
    ensures ParseU64(Render(n)) == Ok(n)
    ensures ParseI64(Render(n)) == Ok(n)
  {
    RenderRoundTrip(n);
  }
}
