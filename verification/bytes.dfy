/** Byte strings and the small search helpers the solvers share.
    Every input is the UTF-8 encoding of a Rust `&str`; a `byte` is a
    `char` whose code fits in eight bits, so ASCII literals stay readable.
    Where the source slices the `&str` itself, the slice must end on a
    char boundary (`IsCharBoundary`). */
module Bytes {
  import opened Results

  type byte = c: char | c as int < 256
  type Bytes = seq<byte>

  const NEWLINE: byte := '\n'
  const SPACE: byte := ' '

  predicate IsDigit(b: byte) {
    '0' <= b <= '9'
  }

  function DigitValue(b: byte): (d: nat)
    requires IsDigit(b)
    ensures d < 10
  {
    b as int - '0' as int
  }

  function DigitByte(d: nat): (b: byte)
    requires d < 10
    ensures IsDigit(b) && DigitValue(b) == d
  {
    ('0' as int + d) as char
  }

  /** A UTF-8 continuation byte, 0x80 to 0xBF: never the first byte of a
      character. */
  predicate IsContinuation(b: byte) {
    0x80 <= b as int < 0xC0
  }

  /** `str::is_char_boundary` for an index within the text: both ends are
      boundaries, and so is every byte that does not continue a character. */
  predicate IsCharBoundary(s: Bytes, i: nat)
    requires i <= |s|
  {
    i == 0 || i == |s| || !IsContinuation(s[i])
  }

  /** `u8::is_ascii_whitespace`: space, tab, line feed, form feed, carriage return. */
  predicate IsAsciiWhitespace(b: byte) {
    b == ' ' || b == '\t' || b == '\n' || b as int == 12 || b == '\r'
  }

  predicate StartsWith(s: Bytes, prefix: Bytes) {
    |prefix| <= |s| && s[..|prefix|] == prefix
  }

  /** Number of occurrences of `b` in `s`. */
  function Count(s: Bytes, b: byte): nat {
    multiset(s)[b]
  }

  /** `iter().position(|&c| c == b)`: the first index holding `b`. */
  function Find(s: Bytes, b: byte): (r: Option<nat>)
    ensures r.Some? ==> r.value < |s| && s[r.value] == b && b !in s[..r.value]
    ensures r.None? <==> b !in s
  {
    if |s| == 0 then None
    else if s[0] == b then Some(0)
    else match Find(s[1..], b)
      case None => None
      case Some(k) =>
        assert s[..k + 1] == [s[0]] + s[1..][..k];
        Some(k + 1)
  }

  /** The index of the first `b` is the one `Find` reports. */
  lemma FindFirst(s: Bytes, b: byte, k: nat)
    requires k < |s| && s[k] == b && b !in s[..k]
    ensures Find(s, b) == Some(k)
  {
    assert b in s;
  }

  /** `str::find`: the first index at which `pat` occurs. */
  function FindSeq(s: Bytes, pat: Bytes): (r: Option<nat>)
    ensures r.Some? ==> r.value + |pat| <= |s| && StartsWith(s[r.value..], pat)
    decreases |s|
  {
    if StartsWith(s, pat) then Some(0)
    else if |s| == 0 then None
    else match FindSeq(s[1..], pat)
      case None => None
      case Some(k) => Some(k + 1)
  }

  /** The first occurrence is the one `FindSeq` reports. */
  lemma {:induction false} FindSeqFirst(s: Bytes, pat: Bytes, k: nat)
    requires k <= |s| && StartsWith(s[k..], pat)
    requires forall j :: 0 <= j < k ==> !StartsWith(s[j..], pat)
    ensures FindSeq(s, pat) == Some(k)
    decreases k
  {
    if k > 0 {
      assert !StartsWith(s[0..], pat) && s[0..] == s;
      forall j | 0 <= j < k - 1 ensures !StartsWith(s[1..][j..], pat) {
        assert s[1..][j..] == s[j + 1..];
      }
      assert s[1..][k - 1..] == s[k..];
      FindSeqFirst(s[1..], pat, k - 1);
    }
  }

  /** With no occurrence at all, `FindSeq` reports none. */
  lemma {:induction false} FindSeqAbsent(s: Bytes, pat: Bytes)
    requires forall j :: 0 <= j <= |s| ==> !StartsWith(s[j..], pat)
    ensures FindSeq(s, pat) == None
    decreases |s|
  {
    assert s[0..] == s;
    if |s| > 0 {
      forall j | 0 <= j <= |s| - 1 ensures !StartsWith(s[1..][j..], pat) {
        assert s[1..][j..] == s[j + 1..];
      }
      FindSeqAbsent(s[1..], pat);
    }
  }

  /** Length of the run of ASCII whitespace that `s` starts with. */
  function LeadingWhitespace(s: Bytes): (k: nat)
    ensures k <= |s|
    ensures forall i :: 0 <= i < k ==> IsAsciiWhitespace(s[i])
    ensures k < |s| ==> !IsAsciiWhitespace(s[k])
  {
    if |s| > 0 && IsAsciiWhitespace(s[0]) then 1 + LeadingWhitespace(s[1..]) else 0
  }

  /** Length of the run of ASCII whitespace that `s` ends with. */
  function TrailingWhitespace(s: Bytes): (k: nat)
    ensures k <= |s|
    ensures forall i :: |s| - k <= i < |s| ==> IsAsciiWhitespace(s[i])
    ensures k < |s| ==> !IsAsciiWhitespace(s[|s| - k - 1])
  {
    if |s| > 0 && IsAsciiWhitespace(s[|s| - 1]) then 1 + TrailingWhitespace(s[..|s| - 1]) else 0
  }

  /** `trim_ascii_start`. */
  function TrimStart(s: Bytes): Bytes {
    s[LeadingWhitespace(s)..]
  }

  /** `trim_ascii_end`. */
  function TrimEnd(s: Bytes): Bytes {
    s[..|s| - TrailingWhitespace(s)]
  }

  /** `trim_ascii`. */
  function Trim(s: Bytes): Bytes {
    TrimEnd(TrimStart(s))
  }
}
