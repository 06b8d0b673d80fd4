/** Day 4: the XMAS word search on a fixed 140 x 140 letter grid.
    The input is read as one flat byte string of 140 lines (`HEIGHT`),
    each of 140 letters followed by a line feed, so a line takes 141 bytes
    (`WIDTH`) and grid cell (row, col) sits at flat index `row * 141 + col`.
    The solvers never split lines; they step through the flat string and
    rely on the line feed column to stop a word from wrapping onto the
    next line.

    Formulas spell the two dimensions out as the literals 141 and 140
    rather than through `WIDTH` and `HEIGHT`, so that every index is a
    linear expression the solver handles directly. */
module Day4 {
  import opened Results
  import opened Bytes

  const WIDTH: int := 141
  const HEIGHT: int := 140
  /** Bytes the solvers rely on: every line but the last must end in a
      line feed, so the last letter sits at `GRID_LEN - 2`. */
  const GRID_LEN: int := WIDTH * HEIGHT

  const X: byte := 'X'
  const M: byte := 'M'
  const A: byte := 'A'
  const S: byte := 'S'

  const INDEX_PANIC: string := "index out of bounds"
  const UNWRAP_PANIC: string := "called `Option::unwrap()` on a `None` value"

  /** `slice::get` at an index computed with wrapping `usize` arithmetic:
      a negative index wraps to a huge one, so both miss the slice. */
  function Get(input: Bytes, i: int): (r: Option<byte>)
    ensures r.Some? <==> 0 <= i < |input|
  {
    if 0 <= i < |input| then Some(input[i]) else None
  }

  predicate IsLetter(b: byte) {
    b == X || b == M || b == A || b == S
  }

  /** A step between neighbouring cells: row and column deltas. */
  datatype Dir = Dir(dr: int, dc: int)

  predicate IsDirection(d: Dir) {
    -1 <= d.dr <= 1 && -1 <= d.dc <= 1 && d != Dir(0, 0)
  }

  /** The eight directions in the order the scan tries them: left, right,
      the three upward ones, then the three downward ones. */
  const DIRECTIONS: seq<Dir> :=
    [Dir(0, -1), Dir(0, 1), Dir(-1, -1), Dir(-1, 0), Dir(-1, 1), Dir(1, -1), Dir(1, 0), Dir(1, 1)]

  /** The flat-index step that moves one cell in direction `d`. */
  function Offset(d: Dir): int {
    d.dr * 141 + d.dc
  }

  // ---------------------------------------------------------------------
  // Part 1 as written: a flat scan
  // ---------------------------------------------------------------------

  /** The `X` at flat index `x` is followed by `M`, `A`, `S` at flat steps
      of `step`. Only the `S` index is bounds-checked, with `get`; the `M`
      and `A` bytes are indexed directly, which cannot panic because they
      lie between two in-range indices. */
  predicate FlatMatch(input: Bytes, x: int, step: int)
    requires 0 <= x < |input|
  {
    Get(input, x + 3 * step) == Some(S) && input[x + 2 * step] == A && input[x + step] == M
  }

  /** Number of the directions `ds` along which XMAS starts at `x`. */
  function FlatCount(input: Bytes, x: int, ds: seq<Dir>): nat
    requires 0 <= x < |input|
  {
    if |ds| == 0 then 0
    else (if FlatMatch(input, x, Offset(ds[0])) then 1 else 0) + FlatCount(input, x, ds[1..])
  }

  /** What the scan adds at flat index `x`. */
  function CellScore(input: Bytes, x: int): nat
    requires 0 <= x < |input|
  {
    if input[x] == X then FlatCount(input, x, DIRECTIONS) else 0
  }

  /** The scan of the letter columns `col..140` of line `row`. */
  function ScanCols(input: Bytes, row: int, col: int): nat
    requires |input| >= GRID_LEN - 1
    requires 0 <= row < 140 && 0 <= col <= 141 - 1
    decreases 141 - col
  {
    if col == 141 - 1 then 0
    else CellScore(input, row * 141 + col) + ScanCols(input, row, col + 1)
  }

  /** The scan of lines `row..140`. */
  function ScanRows(input: Bytes, row: int): nat
    requires |input| >= GRID_LEN - 1
    requires 0 <= row <= 140
    decreases 140 - row
  {
    if row == 140 then 0 else ScanCols(input, row, 0) + ScanRows(input, row + 1)
  }

  /** `part1`: every letter cell holding `X` adds the
      number of directions along which it starts XMAS. The last cell read
      directly is at `GRID_LEN - 2`; a shorter input panics there. */
  method Part1(input: Bytes) returns (r: Result<nat>)
    ensures r.Err? <==> |input| < GRID_LEN - 1
    ensures r.Ok? ==> r.value == ScanRows(input, 0)
  {
    if |input| < GRID_LEN - 1 {
      return Err(Panic(INDEX_PANIC));
    }
    var res := 0;
    var row := 0;
    while row < 140
      invariant 0 <= row <= 140
      invariant res + ScanRows(input, row) == ScanRows(input, 0)
    {
      var n := ScanLine(input, row);
      res := res + n;
      row := row + 1;
    }
    return Ok(res);
  }

  /** One line of the scan. */
  method ScanLine(input: Bytes, row: int) returns (n: nat)
    requires |input| >= GRID_LEN - 1 && 0 <= row < 140
    ensures n == ScanCols(input, row, 0)
  {
    n := 0;
    var col := 0;
    while col < 141 - 1
      invariant 0 <= col <= 141 - 1
      invariant n + ScanCols(input, row, col) == ScanCols(input, row, 0)
    {
      var k := ScanCell(input, row * 141 + col);
      n := n + k;
      col := col + 1;
    }
  }

  /** One cell of the scan: the eight direction checks of an `X`. */
  method ScanCell(input: Bytes, x: int) returns (n: nat)
    requires 0 <= x < |input|
    ensures n == CellScore(input, x)
  {
    n := 0;
    if input[x] == X {
      var i := 0;
      while i < |DIRECTIONS|
        invariant 0 <= i <= |DIRECTIONS|
        invariant n + FlatCount(input, x, DIRECTIONS[i..]) == FlatCount(input, x, DIRECTIONS)
      {
        if FlatMatch(input, x, Offset(DIRECTIONS[i])) {
          n := n + 1;
        }
        i := i + 1;
      }
    }
  }

  // ---------------------------------------------------------------------
  // The same count on an explicit two-dimensional grid
  // ---------------------------------------------------------------------

  /** A letter cell: the line feed column 140 is not part of the grid. */
  predicate InGrid(row: int, col: int) {
    0 <= row < 140 && 0 <= col < 141 - 1
  }

  function Cell(input: Bytes, row: int, col: int): byte
    requires |input| >= GRID_LEN - 1 && InGrid(row, col)
  {
    input[row * 141 + col]
  }

  /** XMAS starts at grid cell (row, col) and runs in direction `d`
      without leaving the grid. */
  predicate GridMatch(input: Bytes, row: int, col: int, d: Dir)
    requires |input| >= GRID_LEN - 1 && InGrid(row, col)
  {
    InGrid(row + 3 * d.dr, col + 3 * d.dc)
    && Cell(input, row + d.dr, col + d.dc) == M
    && Cell(input, row + 2 * d.dr, col + 2 * d.dc) == A
    && Cell(input, row + 3 * d.dr, col + 3 * d.dc) == S
  }

  function GridCount(input: Bytes, row: int, col: int, ds: seq<Dir>): nat
    requires |input| >= GRID_LEN - 1 && InGrid(row, col)
  {
    if |ds| == 0 then 0
    else (if GridMatch(input, row, col, ds[0]) then 1 else 0) + GridCount(input, row, col, ds[1..])
  }

  function GridScore(input: Bytes, row: int, col: int): nat
    requires |input| >= GRID_LEN - 1 && InGrid(row, col)
  {
    if Cell(input, row, col) == X then GridCount(input, row, col, DIRECTIONS) else 0
  }

  function GridCols(input: Bytes, row: int, col: int): nat
    requires |input| >= GRID_LEN - 1
    requires 0 <= row < 140 && 0 <= col <= 141 - 1
    decreases 141 - col
  {
    if col == 141 - 1 then 0 else GridScore(input, row, col) + GridCols(input, row, col + 1)
  }

  /** The number of XMAS occurrences in the grid, in all eight directions. */
  function GridRows(input: Bytes, row: int): nat
    requires |input| >= GRID_LEN - 1
    requires 0 <= row <= 140
    decreases 140 - row
  {
    if row == 140 then 0 else GridCols(input, row, 0) + GridRows(input, row + 1)
  }

  /** Line `row` ends in a line feed (the last line may omit it). */
  predicate LineEnds(input: Bytes, row: int) {
    0 <= row * 141 + 141 - 1 < |input| ==> input[row * 141 + 141 - 1] == '\n'
  }

  /** Grid cell (row, col) holds one of the four letters. */
  predicate LetterAt(input: Bytes, row: int, col: int)
    requires |input| >= GRID_LEN - 1 && InGrid(row, col)
  {
    IsLetter(Cell(input, row, col))
  }

  /** The puzzle input: 140 lines of 140 letters, each line
      ended by a line feed, the final one optionally. */
  ghost predicate WellFormed(input: Bytes) {
    (|input| == GRID_LEN - 1 || |input| == GRID_LEN)
    && (forall row :: 0 <= row < 140 ==> LineEnds(input, row))
    && (forall row, col :: InGrid(row, col) ==> LetterAt(input, row, col))
  }

  /** A byte strictly between two in-range flat indices on a line feed
      column is a line feed. */
  lemma NewlineBetween(input: Bytes, x: int, step: int, k: int, row: int)
    requires WellFormed(input)
    requires 0 <= x < |input| && 0 <= x + 3 * step < |input|
    requires 1 <= k <= 3 && x + k * step == row * 141 + 141 - 1
    ensures input[x + k * step] == '\n'
  {
    assert 0 <= row < 140;
    assert LineEnds(input, row);
  }

  /** On a well-formed grid the flat test along `Offset(d)` finds XMAS
      exactly when the word fits in the grid in direction `d`: a word that
      would leave a line runs into its line feed, and one that would leave
      the grid has its `S` index outside the input. */
  lemma FlatIffGrid(input: Bytes, row: int, col: int, d: Dir)
    requires WellFormed(input) && InGrid(row, col) && IsDirection(d)
    ensures FlatMatch(input, row * 141 + col, Offset(d)) <==> GridMatch(input, row, col, d)
  {
    var x := row * 141 + col;
    var step := Offset(d);
    if FlatMatch(input, x, step) {
      if d.dc == 1 && col == 141 - 2 {
        NewlineBetween(input, x, step, 1, row + d.dr);
      } else if d.dc == 1 && col == 141 - 3 {
        NewlineBetween(input, x, step, 2, row + 2 * d.dr);
      } else if d.dc == 1 && col == 141 - 4 {
        NewlineBetween(input, x, step, 3, row + 3 * d.dr);
      } else if d.dc == -1 && col == 0 {
        NewlineBetween(input, x, step, 1, row + d.dr - 1);
      } else if d.dc == -1 && col == 1 {
        NewlineBetween(input, x, step, 2, row + 2 * d.dr - 1);
      } else if d.dc == -1 && col == 2 {
        NewlineBetween(input, x, step, 3, row + 3 * d.dr - 1);
      } else {
        assert 0 <= col + 3 * d.dc < 141 - 1;
      }
    }
  }

  lemma {:induction false} CountsAgree(input: Bytes, row: int, col: int, ds: seq<Dir>)
    requires WellFormed(input) && InGrid(row, col)
    requires forall i :: 0 <= i < |ds| ==> IsDirection(ds[i])
    ensures FlatCount(input, row * 141 + col, ds) == GridCount(input, row, col, ds)
  {
    if |ds| > 0 {
      FlatIffGrid(input, row, col, ds[0]);
      CountsAgree(input, row, col, ds[1..]);
    }
  }

  /** The scan and the grid count agree cell by cell. */
  lemma CellsAgree(input: Bytes, row: int, col: int)
    requires WellFormed(input) && InGrid(row, col)
    ensures CellScore(input, row * 141 + col) == GridScore(input, row, col)
  {
    CountsAgree(input, row, col, DIRECTIONS);
  }

  lemma {:induction false} ColsAgree(input: Bytes, row: int, col: int)
    requires |input| >= GRID_LEN - 1 && 0 <= row < 140 && 0 <= col <= 141 - 1
    requires forall c :: col <= c < 141 - 1 ==> CellScore(input, row * 141 + c) == GridScore(input, row, c)
    ensures ScanCols(input, row, col) == GridCols(input, row, col)
    decreases 141 - col
  {
    if col < 141 - 1 {
      ColsAgree(input, row, col + 1);
      assert ScanCols(input, row, col) == CellScore(input, row * 141 + col) + ScanCols(input, row, col + 1);
    }
  }

  lemma {:induction false} RowsAgree(input: Bytes, row: int)
    requires |input| >= GRID_LEN - 1 && 0 <= row <= 140
    requires forall r :: row <= r < 140 ==> ScanCols(input, r, 0) == GridCols(input, r, 0)
    ensures ScanRows(input, row) == GridRows(input, row)
    decreases 140 - row
  {
    if row < 140 {
      RowsAgree(input, row + 1);
    }
  }

  /** On a well-formed input the flat scan counts exactly the XMAS words
      of the two-dimensional grid: none is lost and none wraps a line. */
  lemma Part1CountsGridWords(input: Bytes)
    requires WellFormed(input)
    ensures ScanRows(input, 0) == GridRows(input, 0)
  {
    forall row | 0 <= row < 140
      ensures ScanCols(input, row, 0) == GridCols(input, row, 0)
    {
      forall col | 0 <= col < 141 - 1
        ensures CellScore(input, row * 141 + col) == GridScore(input, row, col)
      {
        CellsAgree(input, row, col);
      }
      ColsAgree(input, row, 0);
    }
    RowsAgree(input, 0);
  }

  // ---------------------------------------------------------------------
  // Part 2: crossed MAS, by a byte-sum test
  // ---------------------------------------------------------------------

  /** The byte sum of the four corners of a crossed MAS: two `M` and two `S`. */
  const X_MAS_SUM: int := 2 * M as int + 2 * S as int

  /** The corner test both solvers use: the corner codes add up to
      `X_MAS_SUM` and the top-left differs from the bottom-right. */
  predicate CornerTest(tl: byte, tr: byte, bl: byte, br: byte) {
    tl as int + tr as int + bl as int + br as int == X_MAS_SUM && tl != br
  }

  /** One diagonal of the cross reads MAS or SAM through its centre. */
  predicate IsMas(a: byte, b: byte) {
    (a == M && b == S) || (a == S && b == M)
  }

  /** Over the four letters the sum test accepts exactly the crosses:
      `M + M + S + S` is the only way to reach the sum, and the
      inequality rules out two equal letters on one diagonal. */
  lemma CornerTestIsCross(tl: byte, tr: byte, bl: byte, br: byte)
    requires IsLetter(tl) && IsLetter(tr) && IsLetter(bl) && IsLetter(br)
    ensures CornerTest(tl, tr, bl, br) <==> IsMas(tl, br) && IsMas(tr, bl)
  {
  }

  /** What a centre at flat index `i` adds: 1 when it holds `A` and its
      corners pass the test. */
  function CentreScore(input: Bytes, i: int): nat
    requires 141 + 1 <= i && i + 141 + 1 < |input|
  {
    if input[i] == A
       && CornerTest(input[i - 141 - 1], input[i - 141 + 1], input[i + 141 - 1], input[i + 141 + 1])
    then 1 else 0
  }

  /** Centre scores of the flat indices `lo..hi`. */
  function CentreSum(input: Bytes, lo: int, hi: int): nat
    requires 141 + 1 <= lo <= hi && hi + 141 < |input|
    decreases hi - lo
  {
    if lo == hi then 0 else CentreScore(input, lo) + CentreSum(input, lo + 1, hi)
  }

  /** Lines `row..139`, each over the centre columns `1..139`. */
  function CentreRows(input: Bytes, row: int): nat
    requires |input| >= GRID_LEN - 1
    requires 1 <= row <= 140 - 1
    decreases 140 - row
  {
    if row == 140 - 1 then 0
    else CentreSum(input, row * 141 + 1, row * 141 + 141 - 2) + CentreRows(input, row + 1)
  }

  /** `part2`: the `unwrap` of the byte at `GRID_LEN - 2` panics on a
      shorter input; otherwise every row but the first and last is scanned
      with the rows above and below it, over the columns that have both
      neighbours inside the letters. */
  function Part2(input: Bytes): (r: Result<nat>)
    ensures r.Err? <==> |input| < GRID_LEN - 1
  {
    if |input| < GRID_LEN - 1 then Err(Panic(UNWRAP_PANIC)) else Ok(CentreRows(input, 1))
  }

  /** `part2_original`: the same test at every flat index from the second
      cell of row 1 up to the third-to-last cell of row `140 - 2`, line
      feed columns included. */
  function Part2Original(input: Bytes): (r: Result<nat>)
    ensures r.Err? <==> |input| < GRID_LEN - 1
  {
    if |input| < GRID_LEN - 1 then Err(Panic(UNWRAP_PANIC))
    else Ok(CentreSum(input, 141 + 1, 141 * (140 - 1) - 2))
  }

  /** A crossed MAS centred on grid cell (row, col). */
  predicate CrossAt(input: Bytes, row: int, col: int)
    requires |input| >= GRID_LEN - 1
    requires 1 <= row < 140 - 1 && 1 <= col < 141 - 2
  {
    Cell(input, row, col) == A
    && IsMas(Cell(input, row - 1, col - 1), Cell(input, row + 1, col + 1))
    && IsMas(Cell(input, row - 1, col + 1), Cell(input, row + 1, col - 1))
  }

  function CrossCols(input: Bytes, row: int, col: int): nat
    requires |input| >= GRID_LEN - 1
    requires 1 <= row < 140 - 1 && 1 <= col <= 141 - 2
    decreases 141 - col
  {
    if col == 141 - 2 then 0 else (if CrossAt(input, row, col) then 1 else 0) + CrossCols(input, row, col + 1)
  }

  /** The number of crossed MAS in the grid. */
  function CrossRows(input: Bytes, row: int): nat
    requires |input| >= GRID_LEN - 1
    requires 1 <= row <= 140 - 1
    decreases 140 - row
  {
    if row == 140 - 1 then 0 else CrossCols(input, row, 1) + CrossRows(input, row + 1)
  }

  lemma CentreIsCross(input: Bytes, row: int, col: int)
    requires WellFormed(input)
    requires 1 <= row < 140 - 1 && 1 <= col < 141 - 2
    ensures CentreScore(input, row * 141 + col) == if CrossAt(input, row, col) then 1 else 0
  {
    assert LetterAt(input, row - 1, col - 1) && LetterAt(input, row - 1, col + 1);
    assert LetterAt(input, row + 1, col - 1) && LetterAt(input, row + 1, col + 1);
    CornerTestIsCross(Cell(input, row - 1, col - 1), Cell(input, row - 1, col + 1),
                      Cell(input, row + 1, col - 1), Cell(input, row + 1, col + 1));
  }

  lemma {:induction false} CrossColsAgree(input: Bytes, row: int, col: int)
    requires |input| >= GRID_LEN - 1
    requires 1 <= row < 140 - 1 && 1 <= col <= 141 - 2
    requires forall c :: col <= c < 141 - 2 ==>
      CentreScore(input, row * 141 + c) == if CrossAt(input, row, c) then 1 else 0
    ensures CentreSum(input, row * 141 + col, row * 141 + 141 - 2) == CrossCols(input, row, col)
    decreases 141 - col
  {
    if col < 141 - 2 {
      CrossColsAgree(input, row, col + 1);
    }
  }

  lemma {:induction false} CrossRowsAgree(input: Bytes, row: int)
    requires |input| >= GRID_LEN - 1
    requires 1 <= row <= 140 - 1
    requires forall r :: row <= r < 140 - 1 ==>
      CentreSum(input, r * 141 + 1, r * 141 + 141 - 2) == CrossCols(input, r, 1)
    ensures CentreRows(input, row) == CrossRows(input, row)
    decreases 140 - row
  {
    if row < 140 - 1 {
      CrossRowsAgree(input, row + 1);
    }
  }

  /** On a well-formed input `part2` counts exactly the crossed MAS. */
  lemma Part2CountsCrosses(input: Bytes)
    requires WellFormed(input)
    ensures Part2(input) == Ok(CrossRows(input, 1))
  {
    forall row | 1 <= row < 140 - 1
      ensures CentreSum(input, row * 141 + 1, row * 141 + 141 - 2) == CrossCols(input, row, 1)
    {
      forall col | 1 <= col < 141 - 2
        ensures CentreScore(input, row * 141 + col) == if CrossAt(input, row, col) then 1 else 0
      {
        CentreIsCross(input, row, col);
      }
      CrossColsAgree(input, row, 1);
    }
    CrossRowsAgree(input, 1);
  }

  // ---------------------------------------------------------------------
  // part2_original agrees with part2
  // ---------------------------------------------------------------------

  lemma {:induction false} CentreSumSplit(input: Bytes, lo: int, mid: int, hi: int)
    requires 141 + 1 <= lo <= mid <= hi && hi + 141 < |input|
    ensures CentreSum(input, lo, hi) == CentreSum(input, lo, mid) + CentreSum(input, mid, hi)
    decreases mid - lo
  {
    if lo < mid {
      CentreSumSplit(input, lo + 1, mid, hi);
    }
  }

  /** Every byte of a well-formed input is a letter or a line feed, so
      none exceeds `X`. */
  lemma ByteBound(input: Bytes, row: int, col: int)
    requires WellFormed(input)
    requires 0 <= row < 140 && 0 <= col < 141 && row * 141 + col < |input|
    ensures input[row * 141 + col] as int <= X as int
  {
    if col == 141 - 1 {
      assert LineEnds(input, row);
    } else {
      assert LetterAt(input, row, col);
    }
  }

  /** A flat index on a line's first, second-to-last or line feed column
      never scores: the line feed is not `A`, and a line feed among the
      corners keeps the sum below `X_MAS_SUM`. */
  lemma EdgeScoresZero(input: Bytes, row: int, col: int)
    requires WellFormed(input)
    requires 1 <= row < 140 - 1 && (col == 0 || col == 141 - 2 || col == 141 - 1)
    requires 141 + 1 <= row * 141 + col && row * 141 + col + 141 + 1 < |input|
    ensures CentreScore(input, row * 141 + col) == 0
  {
    var i := row * 141 + col;
    if col == 141 - 1 {
      assert LineEnds(input, row);
    } else if input[i] == A {
      if col == 0 {
        assert LineEnds(input, row - 2);
        ByteBound(input, row - 1, 1);
        ByteBound(input, row, 141 - 1);
        ByteBound(input, row + 1, 1);
      } else {
        assert LineEnds(input, row - 1);
        ByteBound(input, row - 1, 141 - 3);
        ByteBound(input, row + 1, 141 - 3);
        ByteBound(input, row + 1, 141 - 1);
      }
    }
  }

  /** From the centre column 1 of line `row` on, the flat sum of
      `part2_original` equals the row sums of `part2`. */
  lemma {:induction false} OriginalRows(input: Bytes, row: int)
    requires WellFormed(input)
    requires 1 <= row <= 140 - 2
    ensures CentreSum(input, row * 141 + 1, 141 * (140 - 1) - 2) == CentreRows(input, row)
    decreases 140 - row
  {
    var lineEnd := row * 141 + 141 - 2;
    if row == 140 - 2 {
      assert lineEnd == 141 * (140 - 1) - 2;
    } else {
      var next := (row + 1) * 141 + 1;
      CentreSumSplit(input, row * 141 + 1, lineEnd, 141 * (140 - 1) - 2);
      CentreSumSplit(input, lineEnd, next, 141 * (140 - 1) - 2);
      EdgeScoresZero(input, row, 141 - 2);
      EdgeScoresZero(input, row, 141 - 1);
      EdgeScoresZero(input, row + 1, 0);
      assert CentreSum(input, lineEnd + 2, next) == 0;
      assert CentreSum(input, lineEnd + 1, next) == 0;
      assert CentreSum(input, lineEnd, next) == 0;
      OriginalRows(input, row + 1);
    }
  }

  /** `part2_original` and `part2` give the same answer, panic included,
      on every well-formed input. */
  lemma Part2OriginalAgrees(input: Bytes)
    requires WellFormed(input)
    ensures Part2Original(input) == Part2(input)
  {
    OriginalRows(input, 1);
  }
}
