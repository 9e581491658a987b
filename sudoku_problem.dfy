/** The Sudoku `Problem` of the exhaustive solvers: candidate filtering under
    row, column and block constraints, the first-empty-cell locator, the
    one-cell board update and the sum-based goal test. BFS_Sudoku.py and
    DFS_Sudoku.py carry the same code for these; it is modelled once here.

    A board of size n (the source's `type`) is n rows of n cells, 0 marking an
    empty cell. Blocks are `Height(n) = n / 3` rows high and always 3 columns
    wide, as the source hard-codes them; the model requires n % 3 == 0. */
module SudokuProblem {
  import opened Common

  type Grid = seq<seq<int>>

  predicate IsGrid(g: Grid, n: int)
  {
    |g| == n && forall r :: 0 <= r < n ==> |g[r]| == n
  }

  /** `int(type / 3)`, the number of rows of a block. */
  function Height(n: nat): nat
  {
    n / 3
  }

  /** `int(row / height) * height`, the top row of the block holding `row`. */
  function RowStart(n: nat, row: nat): nat
    requires n >= 3
  {
    row / Height(n) * Height(n)
  }

  /** `int(column / 3) * 3`, the left column of the block holding `column`. */
  function ColumnStart(column: nat): nat
  {
    column / 3 * 3
  }

  // ---------------------------------------------------------------------
  // Block arithmetic

  lemma MulMono(a: int, b: int, h: nat)
    requires a <= b
    ensures a * h <= b * h
  {
  }

  lemma DivUnique(x: nat, h: nat, q: nat)
    requires h > 0
    requires q * h <= x < q * h + h
    ensures x / h == q
  {
    var d := x / h;
    assert x == d * h + x % h;
    if d > q {
      MulMono(q + 1, d, h);
    } else if d < q {
      MulMono(d + 1, q, h);
    }
  }

  /** Position k = 3 * dr + dc of a block's cell list is row dr, column dc of the block. */
  lemma SplitIndex(dr: nat, dc: nat)
    requires dc < 3
    ensures (3 * dr + dc) / 3 == dr && (3 * dr + dc) % 3 == dc
  {
    DivUnique(3 * dr + dc, 3, dr);
  }

  /** The block holding (row, column) lies inside the board. */
  lemma BlockBounds(n: nat, row: nat, column: nat)
    requires n % 3 == 0 && row < n && column < n
    ensures n >= 3
    ensures RowStart(n, row) <= row < RowStart(n, row) + Height(n) <= n
    ensures ColumnStart(column) <= column < ColumnStart(column) + 3 <= n
  {
    var h := Height(n);
    var q := row / h;
    assert row == q * h + row % h;
    if q >= 3 {
      MulMono(3, q, h);
    }
    MulMono(q + 1, 3, h);
  }

  predicate SameBlock(n: nat, r1: nat, c1: nat, r2: nat, c2: nat)
    requires n >= 3
  {
    r1 / Height(n) == r2 / Height(n) && c1 / 3 == c2 / 3
  }

  /** A cell shares the block of (row, column) exactly when it lies in the
      Height(n) x 3 rectangle that starts at (RowStart, ColumnStart). */
  lemma BlockCells(n: nat, row: nat, column: nat, x: nat, y: nat)
    requires n % 3 == 0 && row < n && column < n
    ensures n >= 3
    ensures SameBlock(n, x, y, row, column) <==>
      RowStart(n, row) <= x < RowStart(n, row) + Height(n) &&
      ColumnStart(column) <= y < ColumnStart(column) + 3
  {
    BlockBounds(n, row, column);
    var h := Height(n);
    assert x == x / h * h + x % h;
    assert y == y / 3 * 3 + y % 3;
    if RowStart(n, row) <= x < RowStart(n, row) + h {
      DivUnique(x, h, row / h);
    }
    if ColumnStart(column) <= y < ColumnStart(column) + 3 {
      DivUnique(y, 3, column / 3);
    }
  }

  // ---------------------------------------------------------------------
  // What a legal move is

  ghost predicate RowHas(g: Grid, n: nat, row: nat, v: int)
    requires IsGrid(g, n) && row < n
  {
    exists k :: 0 <= k < n && g[row][k] == v
  }

  ghost predicate ColumnHas(g: Grid, n: nat, column: nat, v: int)
    requires IsGrid(g, n) && column < n
  {
    exists k :: 0 <= k < n && g[k][column] == v
  }

  /** Some cell of the block holding (row, column) has value v (empty cells
      included, as the source's `in_block` list includes them). */
  ghost predicate BlockHas(g: Grid, n: nat, row: nat, column: nat, v: int)
    requires IsGrid(g, n) && n % 3 == 0 && row < n && column < n
  {
    BlockBounds(n, row, column);
    v in Block(g, n, RowStart(n, row), ColumnStart(column))
  }

  /** v may be written at (row, column): it is a digit 1..n that occurs
      nowhere in that row, that column or that block. */
  ghost predicate Legal(g: Grid, n: nat, row: nat, column: nat, v: int)
    requires IsGrid(g, n) && n % 3 == 0 && row < n && column < n
  {
    1 <= v <= n && !RowHas(g, n, row, v) && !ColumnHas(g, n, column, v) &&
    !BlockHas(g, n, row, column, v)
  }

  /** The legal values v, v+1, ..., n, in increasing order: the reference
      the filter chain of `actions` is proved against. */
  ghost function LegalFrom(g: Grid, n: nat, row: nat, column: nat, v: int): (r: seq<int>)
    requires IsGrid(g, n) && n % 3 == 0 && row < n && column < n
    decreases n + 1 - v
    ensures StrictlyIncreasing(r)
    ensures forall x :: x in r <==> v <= x && Legal(g, n, row, column, x)
  {
    if v > n then []
    else
      var rest := LegalFrom(g, n, row, column, v + 1);
      if Legal(g, n, row, column, v) then
        ConsIncreasing(v, rest);
        [v] + rest
      else rest
  }

  ghost function LegalValues(g: Grid, n: nat, row: nat, column: nat): (r: seq<int>)
    requires IsGrid(g, n) && n % 3 == 0 && row < n && column < n
  {
    LegalFrom(g, n, row, column, 1)
  }

  /** There are at most n legal values, each a digit 1..n occurring once. */
  lemma LegalValuesBound(g: Grid, n: nat, row: nat, column: nat)
    requires IsGrid(g, n) && n % 3 == 0 && row < n && column < n
    ensures |LegalValues(g, n, row, column)| <= n
    ensures StrictlyIncreasing(LegalValues(g, n, row, column))
    ensures forall v :: v in LegalValues(g, n, row, column) <==> Legal(g, n, row, column, v)
  {
    var r := LegalValues(g, n, row, column);
    IncreasingIsDistinct(r);
    forall i | 0 <= i < |r| ensures 1 <= r[i] <= n {
      assert r[i] in r;
    }
    DistinctWithinBound(r, n);
  }

  // ---------------------------------------------------------------------
  // The candidate filter

  /** `filter_values`: `[number for number in values if number not in used]`. */
  function FilterValues(values: seq<int>, used: seq<int>): (r: seq<int>)
    ensures forall x :: x in r <==> x in values && x !in used
    ensures IsSubsequence(r, values)
  {
    if values == [] then []
    else if values[0] in used then FilterValues(values[1..], used)
    else [values[0]] + FilterValues(values[1..], used)
  }

  /** `[number for number in s if number != 0]` */
  function NonZero(s: seq<int>): (r: seq<int>)
    ensures forall x :: x in r <==> x in s && x != 0
  {
    if s == [] then []
    else (if s[0] != 0 then [s[0]] else []) + NonZero(s[1..])
  }

  /** `filter_row`: the digits 1..n absent from the row, in increasing order. */
  function FilterRow(state: Grid, n: nat, row: nat): (options: seq<int>)
    requires IsGrid(state, n) && row < n
    ensures StrictlyIncreasing(options)
    ensures forall v :: v in options <==> 1 <= v <= n && !RowHas(state, n, row, v)
  {
    var numberSet := Range(1, n + 1);
    var inRow := NonZero(state[row]);
    var options := FilterValues(numberSet, inRow);
    RangeIncreasing(1, n + 1);
    SubsequenceOfIncreasing(options, numberSet);
    assert forall v :: v in state[row] <==> RowHas(state, n, row, v);
    options
  }

  /** `filter_col`: keeps the options that are not a non-zero entry of the column. */
  method FilterCol(options: seq<int>, state: Grid, n: nat, column: nat) returns (r: seq<int>)
    requires IsGrid(state, n) && column < n
    ensures IsSubsequence(r, options)
    ensures forall v :: v in r <==> v in options && !(v != 0 && ColumnHas(state, n, column, v))
  {
    var inColumn: seq<int> := [];
    for columnIndex := 0 to n
      invariant forall v :: v in inColumn <==>
        v != 0 && exists k :: 0 <= k < columnIndex && state[k][column] == v
    {
      if state[columnIndex][column] != 0 {
        inColumn := inColumn + [state[columnIndex][column]];
      }
    }
    r := FilterValues(options, inColumn);
  }

  /** `filter_quad`: keeps the options that occur in no cell of the block
      holding (row, column). */
  method FilterQuad(options: seq<int>, state: Grid, n: nat, row: nat, column: nat) returns (r: seq<int>)
    requires IsGrid(state, n) && n % 3 == 0 && row < n && column < n
    ensures IsSubsequence(r, options)
    ensures forall v :: v in r <==> v in options && !BlockHas(state, n, row, column, v)
  {
    BlockBounds(n, row, column);
    var inBlock: seq<int> := [];
    var rowStart := RowStart(n, row);
    var columnStart := ColumnStart(column);
    ghost var block := Block(state, n, rowStart, columnStart);
    ghost var visited: nat := 0;
    for blockRow := 0 to Height(n)
      invariant visited == 3 * blockRow && inBlock == block[..visited]
    {
      for blockColumn := 0 to 3
        invariant visited == 3 * blockRow + blockColumn && inBlock == block[..visited]
      {
        BlockEntry(state, n, rowStart, columnStart, blockRow, blockColumn);
        inBlock := inBlock + [state[rowStart + blockRow][columnStart + blockColumn]];
        visited := visited + 1;
      }
    }
    assert inBlock == block[..visited] == block;
    r := FilterValues(options, inBlock);
  }

  /** What filter_row, filter_col and filter_quad leave, applied in that
      order, is exactly the increasing list of legal values. */
  lemma FilterChainIsLegalValues(state: Grid, n: nat, row: nat, column: nat,
                                 byRow: seq<int>, byColumn: seq<int>, byBlock: seq<int>)
    requires IsGrid(state, n) && n % 3 == 0 && row < n && column < n
    requires byRow == FilterRow(state, n, row)
    requires IsSubsequence(byColumn, byRow)
    requires forall v :: v in byColumn <==> v in byRow && !(v != 0 && ColumnHas(state, n, column, v))
    requires IsSubsequence(byBlock, byColumn)
    requires forall v :: v in byBlock <==> v in byColumn && !BlockHas(state, n, row, column, v)
    ensures byBlock == LegalValues(state, n, row, column)
  {
    SubsequenceOfIncreasing(byColumn, byRow);
    SubsequenceOfIncreasing(byBlock, byColumn);
    LegalValuesBound(state, n, row, column);
    IncreasingWithSameElements(byBlock, LegalValues(state, n, row, column));
  }

  // ---------------------------------------------------------------------
  // The first empty cell

  /** The first empty (row, column) in row-major order. */
  ghost predicate IsFirstEmpty(g: Grid, n: nat, row: nat, column: nat)
    requires IsGrid(g, n)
  {
    row < n && column < n && g[row][column] == 0 &&
    forall r, c :: 0 <= r < n && 0 <= c < n && (r < row || (r == row && c < column)) ==> g[r][c] != 0
  }

  ghost predicate IsFull(g: Grid, n: nat)
    requires IsGrid(g, n)
  {
    forall r, c :: 0 <= r < n && 0 <= c < n ==> g[r][c] != 0
  }

  function ZeroFrom(s: seq<int>, column: nat): (r: Option<nat>)
    decreases |s| - column
    ensures r.Some? ==> column <= r.value < |s| && s[r.value] == 0 &&
                        forall k :: column <= k < r.value ==> s[k] != 0
    ensures r.None? ==> forall k :: column <= k < |s| ==> s[k] != 0
  {
    if column >= |s| then None
    else if s[column] == 0 then Some(column)
    else ZeroFrom(s, column + 1)
  }

  function SpotFrom(n: nat, state: Grid, row: nat): (spot: Option<(nat, nat)>)
    requires IsGrid(state, n)
    decreases n - row
    ensures spot.Some? ==> row <= spot.value.0 && IsFirstEmptyFrom(state, n, row, spot.value.0, spot.value.1)
    ensures spot.None? ==> forall r, c :: row <= r < n && 0 <= c < n ==> state[r][c] != 0
  {
    if row >= n then None
    else match ZeroFrom(state[row], 0)
      case Some(column) => Some((row, column))
      case None => SpotFrom(n, state, row + 1)
  }

  ghost predicate IsFirstEmptyFrom(g: Grid, n: nat, from: nat, row: nat, column: nat)
    requires IsGrid(g, n)
  {
    row < n && column < n && g[row][column] == 0 &&
    forall r, c :: from <= r < n && 0 <= c < n && (r < row || (r == row && c < column)) ==> g[r][c] != 0
  }

  /** `get_spot`: the first (row, column) in row-major order holding 0, or
      nothing when the board has no empty cell. */
  function GetSpot(n: nat, state: Grid): (spot: Option<(nat, nat)>)
    requires IsGrid(state, n)
    ensures spot.Some? ==> IsFirstEmpty(state, n, spot.value.0, spot.value.1)
    ensures spot.None? <==> IsFull(state, n)
  {
    SpotFrom(n, state, 0)
  }

  // ---------------------------------------------------------------------
  // Filling one cell

  /** `result`: a copy of `state` with `number` written at (row, column). */
  function Place(state: Grid, row: nat, column: nat, number: int): (r: Grid)
    requires row < |state| && column < |state[row]|
    ensures |r| == |state| && forall i :: 0 <= i < |r| ==> |r[i]| == |state[i]|
    ensures r[row][column] == number
    ensures forall i, j :: 0 <= i < |r| && 0 <= j < |r[i]| && (i != row || j != column) ==> r[i][j] == state[i][j]
  {
    state[row := state[row][column := number]]
  }

  function ZeroCount(s: seq<int>): nat
  {
    if s == [] then 0 else (if s[0] == 0 then 1 else 0) + ZeroCount(s[1..])
  }

  /** The number of empty cells on the board. */
  function Zeros(g: Grid): nat
  {
    if g == [] then 0 else ZeroCount(g[0]) + Zeros(g[1..])
  }

  lemma {:induction false} ZeroCountUpdate(s: seq<int>, k: nat, v: int)
    requires k < |s| && s[k] == 0 && v != 0
    ensures ZeroCount(s) >= 1 && ZeroCount(s[k := v]) == ZeroCount(s) - 1
    decreases k
  {
    if k > 0 {
      assert s[k := v][1..] == s[1..][k - 1 := v];
      ZeroCountUpdate(s[1..], k - 1, v);
    } else {
      assert s[k := v][1..] == s[1..];
    }
  }

  lemma {:induction false} ZerosUpdate(g: Grid, row: nat, line: seq<int>)
    requires row < |g|
    ensures Zeros(g[row := line]) == Zeros(g) - ZeroCount(g[row]) + ZeroCount(line)
    ensures Zeros(g) >= ZeroCount(g[row])
    decreases row
  {
    if row > 0 {
      assert g[row := line][1..] == g[1..][row - 1 := line];
      ZerosUpdate(g[1..], row - 1, line);
    } else {
      assert g[row := line][1..] == g[1..];
    }
  }

  /** Filling an empty cell with a non-zero number leaves exactly one empty
      cell fewer: the measure that makes both searches terminate. */
  lemma PlaceFillsOneZero(g: Grid, row: nat, column: nat, v: int)
    requires row < |g| && column < |g[row]| && g[row][column] == 0 && v != 0
    ensures Zeros(g) >= 1
    ensures Zeros(Place(g, row, column, v)) == Zeros(g) - 1
  {
    ZeroCountUpdate(g[row], column, v);
    ZerosUpdate(g, row, g[row][column := v]);
  }

  // ---------------------------------------------------------------------
  // Partial validity, solutions, clue preservation

  /** Every non-zero cell of `a` holds the same value in `b`. */
  ghost predicate AgreesOnFilled(a: Grid, b: Grid, n: nat)
    requires IsGrid(a, n) && IsGrid(b, n)
  {
    forall r, c :: 0 <= r < n && 0 <= c < n && a[r][c] != 0 ==> b[r][c] == a[r][c]
  }

  ghost predicate CellsInRange(g: Grid, n: nat)
    requires IsGrid(g, n)
  {
    forall r, c :: 0 <= r < n && 0 <= c < n ==> 0 <= g[r][c] <= n
  }

  ghost predicate RowsDistinct(g: Grid, n: nat)
    requires IsGrid(g, n)
  {
    forall r, c1, c2 :: 0 <= r < n && 0 <= c1 < n && 0 <= c2 < n && c1 != c2 && g[r][c1] != 0 ==>
      g[r][c1] != g[r][c2]
  }

  ghost predicate ColumnsDistinct(g: Grid, n: nat)
    requires IsGrid(g, n)
  {
    forall c, r1, r2 :: 0 <= c < n && 0 <= r1 < n && 0 <= r2 < n && r1 != r2 && g[r1][c] != 0 ==>
      g[r1][c] != g[r2][c]
  }

  ghost predicate BlocksDistinct(g: Grid, n: nat)
    requires IsGrid(g, n) && n % 3 == 0
  {
    forall r1, c1, r2, c2 ::
      (0 <= r1 < n && 0 <= c1 < n && 0 <= r2 < n && 0 <= c2 < n &&
       (r1 != r2 || c1 != c2) && SameBlock(n, r1, c1, r2, c2) && g[r1][c1] != 0) ==>
      g[r1][c1] != g[r2][c2]
  }

  /** Every cell holds 0..n and no non-zero value repeats within a row, a
      column or a block: the invariant the constraint filter maintains. */
  ghost predicate PartiallyValid(g: Grid, n: nat)
    requires IsGrid(g, n) && n % 3 == 0
  {
    CellsInRange(g, n) && RowsDistinct(g, n) && ColumnsDistinct(g, n) && BlocksDistinct(g, n)
  }

  /** A true solution of `initial`: full, every row, column and block a
      permutation of 1..n, and every clue kept. */
  ghost predicate IsSolution(initial: Grid, g: Grid, n: nat)
    requires IsGrid(initial, n) && n % 3 == 0
  {
    IsGrid(g, n) && IsFull(g, n) && PartiallyValid(g, n) && AgreesOnFilled(initial, g, n)
  }

  /** Every cell sharing the block of (row, column) shows up in that block's
      cell list. */
  lemma CellInBlock(g: Grid, n: nat, row: nat, column: nat, x: nat, y: nat)
    requires IsGrid(g, n) && n % 3 == 0 && row < n && column < n && x < n && y < n
    requires SameBlock(n, x, y, row, column)
    ensures BlockHas(g, n, row, column, g[x][y])
  {
    BlockBounds(n, row, column);
    var rs, cs := RowStart(n, row), ColumnStart(column);
    assert rs <= x < rs + Height(n) && cs <= y < cs + 3 by {
      BlockCells(n, row, column, x, y);
    }
    BlockEntry(g, n, rs, cs, x - rs, y - cs);
  }

  lemma PlaceKeepsRows(g: Grid, n: nat, row: nat, column: nat, v: int)
    requires IsGrid(g, n) && row < n && column < n
    requires RowsDistinct(g, n) && !RowHas(g, n, row, v)
    ensures RowsDistinct(Place(g, row, column, v), n)
  {
    var p := Place(g, row, column, v);
    forall r, c1, c2 | 0 <= r < n && 0 <= c1 < n && 0 <= c2 < n && c1 != c2 && p[r][c1] != 0
      ensures p[r][c1] != p[r][c2]
    {
      if r == row && c1 == column {
        assert g[row][c2] != v;
      } else if r == row && c2 == column {
        assert g[row][c1] != v;
      }
    }
  }

  lemma PlaceKeepsColumns(g: Grid, n: nat, row: nat, column: nat, v: int)
    requires IsGrid(g, n) && row < n && column < n
    requires ColumnsDistinct(g, n) && !ColumnHas(g, n, column, v)
    ensures ColumnsDistinct(Place(g, row, column, v), n)
  {
    var p := Place(g, row, column, v);
    forall c, r1, r2 | 0 <= c < n && 0 <= r1 < n && 0 <= r2 < n && r1 != r2 && p[r1][c] != 0
      ensures p[r1][c] != p[r2][c]
    {
      if c == column && r1 == row {
        assert g[r2][column] != v;
      } else if c == column && r2 == row {
        assert g[r1][column] != v;
      }
    }
  }

  lemma PlaceKeepsBlocks(g: Grid, n: nat, row: nat, column: nat, v: int)
    requires IsGrid(g, n) && n % 3 == 0 && row < n && column < n
    requires BlocksDistinct(g, n) && !BlockHas(g, n, row, column, v)
    ensures BlocksDistinct(Place(g, row, column, v), n)
  {
    var p := Place(g, row, column, v);
    forall r1, c1, r2, c2 | 0 <= r1 < n && 0 <= c1 < n && 0 <= r2 < n && 0 <= c2 < n &&
        (r1 != r2 || c1 != c2) && SameBlock(n, r1, c1, r2, c2) && p[r1][c1] != 0
      ensures p[r1][c1] != p[r2][c2]
    {
      if r1 == row && c1 == column {
        CellInBlock(g, n, row, column, r2, c2);
      } else if r2 == row && c2 == column {
        CellInBlock(g, n, row, column, r1, c1);
      }
    }
  }

  /** Writing a legal value into an empty cell keeps the board partially
      valid and keeps every clue of the puzzle it came from. */
  lemma PlaceLegalKeepsInvariants(initial: Grid, g: Grid, n: nat, row: nat, column: nat, v: int)
    requires IsGrid(initial, n) && IsGrid(g, n) && n % 3 == 0 && row < n && column < n
    requires g[row][column] == 0 && Legal(g, n, row, column, v)
    requires AgreesOnFilled(initial, g, n)
    ensures IsGrid(Place(g, row, column, v), n)
    ensures AgreesOnFilled(initial, Place(g, row, column, v), n)
    ensures PartiallyValid(g, n) ==> PartiallyValid(Place(g, row, column, v), n)
  {
    if PartiallyValid(g, n) {
      PlaceKeepsRows(g, n, row, column, v);
      PlaceKeepsColumns(g, n, row, column, v);
      PlaceKeepsBlocks(g, n, row, column, v);
    }
  }

  /** When a board agrees with a solution on its filled cells, the
      solution's value at an empty cell of the board passes the filter, and
      writing it keeps the board below the solution: the step behind both
      searches' completeness. */
  lemma SolutionValueIsLegal(g: Grid, sol: Grid, n: nat, row: nat, column: nat)
    requires IsGrid(g, n) && IsGrid(sol, n) && n % 3 == 0 && row < n && column < n
    requires IsFull(sol, n) && PartiallyValid(sol, n) && AgreesOnFilled(g, sol, n)
    requires g[row][column] == 0
    ensures Legal(g, n, row, column, sol[row][column])
    ensures AgreesOnFilled(Place(g, row, column, sol[row][column]), sol, n)
  {
    var v := sol[row][column];
    forall k | 0 <= k < n ensures g[row][k] != v {
      if g[row][k] != 0 {
        assert sol[row][k] == g[row][k];
      }
    }
    forall k | 0 <= k < n ensures g[k][column] != v {
      if g[k][column] != 0 {
        assert sol[k][column] == g[k][column];
      }
    }
    assert v != 0;
    SolutionValueNotInBlock(g, sol, n, row, column);
  }

  /** The solution's value at an empty cell is absent from the board's
      block around that cell. */
  lemma SolutionValueNotInBlock(g: Grid, sol: Grid, n: nat, row: nat, column: nat)
    requires IsGrid(g, n) && IsGrid(sol, n) && n % 3 == 0 && row < n && column < n
    requires BlocksDistinct(sol, n) && sol[row][column] != 0 && AgreesOnFilled(g, sol, n)
    requires g[row][column] == 0
    ensures !BlockHas(g, n, row, column, sol[row][column])
  {
    BlockBounds(n, row, column);
    var block := Block(g, n, RowStart(n, row), ColumnStart(column));
    forall k | 0 <= k < |block| ensures block[k] != sol[row][column] {
      BlockEntryDiffers(g, sol, n, row, column, k);
    }
  }

  /** Entry k of the board's block around an empty cell differs from the
      solution's value at that cell. */
  lemma BlockEntryDiffers(g: Grid, sol: Grid, n: nat, row: nat, column: nat, k: nat)
    requires IsGrid(g, n) && IsGrid(sol, n) && n % 3 == 0 && row < n && column < n
    requires BlocksDistinct(sol, n) && sol[row][column] != 0 && AgreesOnFilled(g, sol, n)
    requires g[row][column] == 0 && k < 3 * Height(n)
    ensures RowStart(n, row) + Height(n) <= n && ColumnStart(column) + 3 <= n
    ensures Block(g, n, RowStart(n, row), ColumnStart(column))[k] != sol[row][column]
  {
    BlockBounds(n, row, column);
    BlockIndexBound(k, Height(n));
    var x, y := RowStart(n, row) + k / 3, ColumnStart(column) + k % 3;
    BlockCells(n, row, column, x, y);
    BlockCellDiffers(g, sol, n, row, column, x, y);
  }

  /** A cell in the block of an empty cell differs from the solution's
      value at that cell. */
  lemma BlockCellDiffers(g: Grid, sol: Grid, n: nat, row: nat, column: nat, x: nat, y: nat)
    requires IsGrid(g, n) && IsGrid(sol, n) && n % 3 == 0 && row < n && column < n && x < n && y < n
    requires BlocksDistinct(sol, n) && sol[row][column] != 0 && AgreesOnFilled(g, sol, n)
    requires g[row][column] == 0 && SameBlock(n, x, y, row, column)
    ensures g[x][y] != sol[row][column]
  {
    if g[x][y] != 0 {
      BlocksDistinctAt(sol, n, row, column, x, y);
    }
  }

  /** Two different cells of one block cannot both hold the same non-zero
      value of a board whose blocks are distinct. */
  lemma BlocksDistinctAt(g: Grid, n: nat, r1: nat, c1: nat, r2: nat, c2: nat)
    requires IsGrid(g, n) && n % 3 == 0 && BlocksDistinct(g, n)
    requires r1 < n && c1 < n && r2 < n && c2 < n && (r1 != r2 || c1 != c2)
    requires SameBlock(n, r1, c1, r2, c2) && g[r1][c1] != 0
    ensures g[r1][c1] != g[r2][c2]
  {
  }

  /** Entry k of a block listing with h rows lies in row k / 3 < h. */
  lemma BlockIndexBound(k: nat, h: nat)
    requires k < 3 * h
    ensures k / 3 < h
  {
  }

  // ---------------------------------------------------------------------
  // The goal test

  /** Column c, top to bottom. */
  function Column(g: Grid, n: nat, c: nat): (s: seq<int>)
    requires |g| == n && forall r :: 0 <= r < n ==> c < |g[r]|
    ensures |s| == n && forall r :: 0 <= r < n ==> s[r] == g[r][c]
  {
    seq(n, r requires 0 <= r < n => g[r][c])
  }

  /** The Height(n) x 3 block whose top-left cell is (r0, c0), row by row. */
  function Block(g: Grid, n: nat, r0: nat, c0: nat): (s: seq<int>)
    requires |g| == n && r0 + Height(n) <= n
    requires forall r :: 0 <= r < n ==> c0 + 3 <= |g[r]|
    ensures |s| == 3 * Height(n)
    ensures forall k :: 0 <= k < |s| ==> s[k] == g[r0 + k / 3][c0 + k % 3]
  {
    seq(3 * Height(n), k requires 0 <= k < 3 * Height(n) => g[r0 + k / 3][c0 + k % 3])
  }

  lemma BlockEntry(g: Grid, n: nat, r0: nat, c0: nat, dr: nat, dc: nat)
    requires |g| == n && r0 + Height(n) <= n
    requires forall r :: 0 <= r < n ==> c0 + 3 <= |g[r]|
    requires dr < Height(n) && dc < 3
    ensures 3 * dr + dc < 3 * Height(n)
    ensures Block(g, n, r0, c0)[3 * dr + dc] == g[r0 + dr][c0 + dc]
  {
    SplitIndex(dr, dc);
  }

  /** The top-left cells the goal test visits: rows `range(0, n, height)`,
      columns `range(0, n, 3)`. */
  predicate IsBlockStart(n: nat, r0: nat, c0: nat)
  {
    (r0 == 0 || r0 == Height(n) || r0 == 2 * Height(n)) && r0 + Height(n) <= n &&
    c0 % 3 == 0 && c0 + 3 <= n
  }

  /** What `goal_test` checks: every row has n cells, and every row, column
      and block sums to 1 + 2 + ... + n. */
  ghost predicate IsGoal(g: Grid, n: nat)
    requires n % 3 == 0 && |g| == n && forall r :: 0 <= r < n ==> |g[r]| >= n
  {
    (forall r :: 0 <= r < n ==> |g[r]| == n && Sum(g[r]) == Triangle(n)) &&
    (forall c :: 0 <= c < n ==> Sum(Column(g, n, c)) == Triangle(n)) &&
    (forall r0: nat, c0: nat :: IsBlockStart(n, r0, c0) ==> BlockSumsTo(g, n, r0, c0, Triangle(n)))
  }

  lemma {:induction false} SumRange(n: nat)
    ensures Sum(Range(1, n + 1)) == Triangle(n)
  {
    if n > 0 {
      assert Range(1, n + 1)[..n - 1] == Range(1, n);
      SumRange(n - 1);
    }
  }

  lemma SumStep(s: seq<int>, k: nat)
    requires k < |s|
    ensures Sum(s[..k + 1]) == Sum(s[..k]) + s[k]
  {
    assert s[..k + 1][..k] == s[..k];
  }

  /** The rows and columns phase of `goal_test`: each row has n cells and
      sums to `total`, and so does each column. */
  method LinesSumTo(state: Grid, n: nat, total: int) returns (ok: bool)
    requires |state| == n && forall r :: 0 <= r < n ==> |state[r]| >= n
    ensures ok <==> (forall r :: 0 <= r < n ==> |state[r]| == n && Sum(state[r]) == total) &&
                    (forall c :: 0 <= c < n ==> Sum(Column(state, n, c)) == total)
  {
    for row := 0 to n
      invariant forall r :: 0 <= r < row ==> |state[r]| == n && Sum(state[r]) == total
      invariant forall c :: 0 <= c < row ==> Sum(Column(state, n, c)) == total
    {
      if |state[row]| != n || Sum(state[row]) != total {
        return false;
      }
      var columnTotal := 0;
      for column := 0 to n
        invariant columnTotal == Sum(Column(state, n, row)[..column])
      {
        SumStep(Column(state, n, row), column);
        columnTotal := columnTotal + state[column][row];
      }
      assert Column(state, n, row)[..n] == Column(state, n, row);
      if columnTotal != total {
        return false;
      }
    }
    return true;
  }

  /** The inner loops of the blocks phase of `goal_test`: the sum of the
      block whose top-left cell is (row, column). */
  method BlockTotal(state: Grid, n: nat, row: nat, column: nat) returns (blockTotal: int)
    requires |state| == n && row + Height(n) <= n
    requires forall r :: 0 <= r < n ==> column + 3 <= |state[r]|
    ensures blockTotal == Sum(Block(state, n, row, column))
  {
    ghost var block := Block(state, n, row, column);
    ghost var visited: nat := 0;
    blockTotal := 0;
    for blockRow := 0 to Height(n)
      invariant visited == 3 * blockRow && blockTotal == Sum(block[..visited])
    {
      for blockColumn := 0 to 3
        invariant visited == 3 * blockRow + blockColumn && blockTotal == Sum(block[..visited])
      {
        BlockEntry(state, n, row, column, blockRow, blockColumn);
        SumStep(block, visited);
        blockTotal := blockTotal + state[row + blockRow][column + blockColumn];
        visited := visited + 1;
      }
    }
    assert block[..visited] == block;
  }

  /** The blocks phase of `goal_test`: columns step by 3, rows by the block
      height, and each block's cells must sum to `total`. */
  method BlocksSumTo(state: Grid, n: nat, total: int) returns (ok: bool)
    requires n % 3 == 0 && |state| == n && forall r :: 0 <= r < n ==> |state[r]| >= n
    ensures ok <==> forall r0: nat, c0: nat :: IsBlockStart(n, r0, c0) ==> BlockSumsTo(state, n, r0, c0, total)
  {
    var column := 0;
    while column < n
      invariant 0 <= column <= n && column % 3 == 0
      invariant forall r0: nat, c0: nat :: IsBlockStart(n, r0, c0) && c0 < column ==>
        BlockSumsTo(state, n, r0, c0, total)
    {
      ok := BlockColumnSumsTo(state, n, column, total);
      if !ok {
        return;
      }
      column := column + 3;
    }
    return true;
  }

  ghost predicate BlockSumsTo(state: Grid, n: nat, r0: nat, c0: nat, total: int)
    requires |state| == n && forall r :: 0 <= r < n ==> |state[r]| >= n
    requires IsBlockStart(n, r0, c0)
  {
    Sum(Block(state, n, r0, c0)) == total
  }

  /** One pass of the blocks phase's inner loop, over the blocks whose left
      column is `column`. */
  method BlockColumnSumsTo(state: Grid, n: nat, column: nat, total: int) returns (ok: bool)
    requires n % 3 == 0 && |state| == n && forall r :: 0 <= r < n ==> |state[r]| >= n
    requires column < n && column % 3 == 0
    ensures ok <==> forall r0: nat :: IsBlockStart(n, r0, column) ==> BlockSumsTo(state, n, r0, column, total)
  {
    var h := Height(n);
    assert n == 3 * h;
    var row := 0;
    while row < n
      invariant row == 0 || row == h || row == 2 * h || row == n
      invariant forall r0: nat :: IsBlockStart(n, r0, column) && r0 < row ==> BlockSumsTo(state, n, r0, column, total)
    {
      var blockTotal := BlockTotal(state, n, row, column);
      if blockTotal != total {
        assert IsBlockStart(n, row, column);
        return false;
      }
      row := row + h;
    }
    return true;
  }

  /** `goal_test`: checks each row's length and sum and each column's sum,
      then each block's sum, against sum(range(1, n + 1)). */
  method GoalTest(state: Grid, n: nat) returns (ok: bool)
    requires n % 3 == 0 && |state| == n && forall r :: 0 <= r < n ==> |state[r]| >= n
    ensures ok == IsGoal(state, n)
  {
    var total := Sum(Range(1, n + 1));
    SumRange(n);
    ok := LinesSumTo(state, n, total);
    if ok {
      ok := BlocksSumTo(state, n, total);
    }
  }

  /** On a full, partially valid board every row, column and block is a
      permutation of 1..n, so the sum-based goal test accepts it. */
  lemma FullAndValidIsGoal(g: Grid, n: nat)
    requires IsGrid(g, n) && n % 3 == 0
    ensures IsFull(g, n) && PartiallyValid(g, n) ==> IsGoal(g, n)
  {
    if IsFull(g, n) && PartiallyValid(g, n) {
      forall r | 0 <= r < n ensures Sum(g[r]) == Triangle(n) {
        DistinctFullSum(g[r], n);
      }
      forall c | 0 <= c < n ensures Sum(Column(g, n, c)) == Triangle(n) {
        var s := Column(g, n, c);
        assert Distinct(s) by {
          forall i, j | 0 <= i < j < n ensures s[i] != s[j] {
            assert g[i][c] != 0;
          }
        }
        DistinctFullSum(s, n);
      }
      forall r0: nat, c0: nat | IsBlockStart(n, r0, c0) ensures BlockSumsTo(g, n, r0, c0, Triangle(n)) {
        BlockIsPermutation(g, n, r0, c0);
      }
    }
  }

  /** Conversely, a partially valid board the goal test accepts has no
      empty cell: a row holding a 0 and no repeated digit sums to less than
      1 + 2 + ... + n. So on partially valid boards the sum test is exact. */
  lemma ValidGoalIsFull(g: Grid, n: nat)
    requires IsGrid(g, n) && n % 3 == 0
    ensures PartiallyValid(g, n) && IsGoal(g, n) ==> IsFull(g, n)
  {
    if PartiallyValid(g, n) && IsGoal(g, n) {
      forall r, c | 0 <= r < n && 0 <= c < n ensures g[r][c] != 0 {
        assert DistinctNonZero(g[r]) by {
          forall i, j | 0 <= i < j < n && g[r][i] != 0 ensures g[r][i] != g[r][j] {
          }
        }
        if g[r][c] == 0 {
          ZeroSumBelow(g[r], n, c);
          assert false;
        }
      }
    }
  }

  /** Position k of the block list starting at (r0, c0) is a board cell in
      the same block as (r0, c0). */
  lemma BlockPosition(n: nat, r0: nat, c0: nat, k: nat)
    requires n % 3 == 0 && IsBlockStart(n, r0, c0) && k < 3 * Height(n)
    ensures n >= 3 && r0 + k / 3 < n && c0 + k % 3 < n
    ensures SameBlock(n, r0 + k / 3, c0 + k % 3, r0, c0)
  {
    var h := Height(n);
    var q := if r0 == 0 then 0 else if r0 == h then 1 else 2;
    assert r0 == q * h;
    assert k / 3 < h;
    DivUnique(r0 + k / 3, h, q);
    DivUnique(r0, h, q);
    DivUnique(c0 + k % 3, 3, c0 / 3);
  }

  lemma BlockIsPermutation(g: Grid, n: nat, r0: nat, c0: nat)
    requires IsGrid(g, n) && n % 3 == 0 && IsFull(g, n) && CellsInRange(g, n) && BlocksDistinct(g, n)
    requires IsBlockStart(n, r0, c0)
    ensures Sum(Block(g, n, r0, c0)) == Triangle(n)
  {
    var s := Block(g, n, r0, c0);
    forall k | 0 <= k < |s| ensures 1 <= s[k] <= n {
      BlockPosition(n, r0, c0, k);
    }
    assert Distinct(s) by {
      forall i, j | 0 <= i < j < |s| ensures s[i] != s[j] {
        BlockPosition(n, r0, c0, i);
        BlockPosition(n, r0, c0, j);
        assert i == 3 * (i / 3) + i % 3 && j == 3 * (j / 3) + j % 3;
        assert SameBlock(n, r0 + i / 3, c0 + i % 3, r0 + j / 3, c0 + j % 3);
      }
    }
    DistinctFullSum(s, n);
  }

  // ---------------------------------------------------------------------
  // Termination measure of the searches

  function Pow(b: nat, e: nat): (r: nat)
    ensures b > 0 ==> r > 0
  {
    if e == 0 then 1 else b * Pow(b, e - 1)
  }

  /** How much search can still hang below a list of boards: a board with z
      empty cells weighs (n + 1)^z, since each expansion replaces it by at
      most n boards with z - 1 empty cells. */
  function Weight(n: nat, gs: seq<Grid>): nat
  {
    if gs == [] then 0 else Pow(n + 1, Zeros(gs[0])) + Weight(n, gs[1..])
  }

  lemma {:induction false} WeightAppend(n: nat, a: seq<Grid>, b: seq<Grid>)
    ensures Weight(n, a + b) == Weight(n, a) + Weight(n, b)
    decreases |a|
  {
    if a != [] {
      assert (a + b)[1..] == a[1..] + b;
      WeightAppend(n, a[1..], b);
    } else {
      assert a + b == b;
    }
  }

  /** Replacing a board with z >= 1 empty cells by at most n boards with
      z - 1 empty cells makes the weight strictly smaller. */
  lemma {:induction false} ExpansionWeight(n: nat, z: nat, children: seq<Grid>)
    requires z >= 1 && |children| <= n
    requires forall k :: 0 <= k < |children| ==> Zeros(children[k]) == z - 1
    ensures Weight(n, children) <= |children| * Pow(n + 1, z - 1)
    ensures Weight(n, children) < Pow(n + 1, z)
    decreases |children|
  {
    var p := Pow(n + 1, z - 1);
    if children != [] {
      ExpansionWeight(n, z, children[1..]);
      assert Weight(n, children) == p + Weight(n, children[1..]);
      assert (|children| - 1) * p + p == |children| * p;
    }
    MulMono(|children|, n, p);
    assert n * p < (n + 1) * p;
  }

  // ---------------------------------------------------------------------
  // What one expansion produces

  /** Where the searches stand: a board of the right shape that keeps every
      clue and, when the puzzle itself is partially valid, stays so. */
  ghost predicate OnPath(initial: Grid, g: Grid, n: nat)
    requires IsGrid(initial, n) && n % 3 == 0
  {
    IsGrid(g, n) && AgreesOnFilled(initial, g, n) &&
    (PartiallyValid(initial, n) ==> PartiallyValid(g, n))
  }

  /** The boards `actions` yields for a board with an empty cell: one per
      legal value at the first empty cell, in increasing order of value. */
  ghost function Successors(g: Grid, n: nat): (r: seq<Grid>)
    requires IsGrid(g, n) && n % 3 == 0 && !IsFull(g, n)
    ensures forall k :: 0 <= k < |r| ==> IsGrid(r[k], n)
  {
    var spot := GetSpot(n, g).value;
    var values := LegalValues(g, n, spot.0, spot.1);
    seq(|values|, k requires 0 <= k < |values| => Place(g, spot.0, spot.1, values[k]))
  }

  /** Every successor stays on the path and has one empty cell fewer, and
      there are at most n of them. */
  lemma SuccessorsStayOnPath(initial: Grid, g: Grid, n: nat)
    requires IsGrid(initial, n) && n % 3 == 0 && OnPath(initial, g, n) && !IsFull(g, n)
    ensures |Successors(g, n)| <= n
    ensures Zeros(g) >= 1
    ensures forall k :: 0 <= k < |Successors(g, n)| ==>
      OnPath(initial, Successors(g, n)[k], n) && Zeros(Successors(g, n)[k]) == Zeros(g) - 1
  {
    var spot := GetSpot(n, g).value;
    var row, column := spot.0, spot.1;
    var values := LegalValues(g, n, row, column);
    LegalValuesBound(g, n, row, column);
    PlaceFillsOneZero(g, row, column, 1);
    forall k | 0 <= k < |values|
      ensures OnPath(initial, Successors(g, n)[k], n) && Zeros(Successors(g, n)[k]) == Zeros(g) - 1
    {
      assert values[k] in values;
      PlaceLegalKeepsInvariants(initial, g, n, row, column, values[k]);
      PlaceFillsOneZero(g, row, column, values[k]);
    }
  }

  /** No solution is lost: a solution that agrees with a board on its
      filled cells agrees with one of the board's successors. */
  lemma SuccessorsKeepSolutions(g: Grid, sol: Grid, n: nat)
    requires IsGrid(g, n) && n % 3 == 0 && !IsFull(g, n)
    requires IsGrid(sol, n) && IsFull(sol, n) && PartiallyValid(sol, n) && AgreesOnFilled(g, sol, n)
    ensures exists k :: 0 <= k < |Successors(g, n)| && AgreesOnFilled(Successors(g, n)[k], sol, n)
  {
    var spot := GetSpot(n, g).value;
    var row, column := spot.0, spot.1;
    var values := LegalValues(g, n, row, column);
    SolutionValueIsLegal(g, sol, n, row, column);
    LegalValuesBound(g, n, row, column);
    var k :| 0 <= k < |values| && values[k] == sol[row][column];
    assert Successors(g, n)[k] == Place(g, row, column, sol[row][column]);
  }

  /** Expanding a board in a list of boards, at the front or at the back,
      lowers the list's weight: the variant of both search loops. */
  lemma ExpansionLowersWeight(n: nat, rest: seq<Grid>, g: Grid)
    requires IsGrid(g, n) && n % 3 == 0 && !IsFull(g, n)
    ensures Weight(n, rest + Successors(g, n)) < Weight(n, [g] + rest)
    ensures Weight(n, rest + Successors(g, n)) < Weight(n, rest + [g])
  {
    var children := Successors(g, n);
    var spot := GetSpot(n, g).value;
    var values := LegalValues(g, n, spot.0, spot.1);
    LegalValuesBound(g, n, spot.0, spot.1);
    PlaceFillsOneZero(g, spot.0, spot.1, 1);
    forall k | 0 <= k < |children| ensures Zeros(children[k]) == Zeros(g) - 1 {
      assert values[k] in values;
      PlaceFillsOneZero(g, spot.0, spot.1, values[k]);
    }
    ExpansionWeight(n, Zeros(g), children);
    WeightAppend(n, rest, children);
    WeightAppend(n, [g], rest);
    WeightAppend(n, rest, [g]);
    assert Weight(n, [g]) == Pow(n + 1, Zeros(g)) + Weight(n, []);
  }

  /** What `BFS` and `DFS` return: a goal, nothing, or the TypeError that
      `actions` raises when `get_spot` finds no empty cell on a board that
      failed the goal test. */
  datatype SearchOutcome<T> = Found(result: T) | NoSolution | Raised
}
