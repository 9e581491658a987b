/** The backtracking Minesweeper solver: every unknown cell is either a
    mine or not, tried in row-major order, mine first, until every number
    clue sees exactly that many mines around it. */
module Minesweeper {
  import opened Common

  /** A cell as `read_grid` produces it: a number clue, or `'*'` for a cell
      whose content is unknown. */
  datatype Cell = Clue(count: int) | Unknown

  /** A `(row, column)` pair. */
  type Pos = (int, int)

  /** The eight offsets of `_get_adjacent_cells`, in their order. */
  function Directions(): seq<(int, int)>
  {
    [(-1, -1), (-1, 0), (-1, 1), (0, -1), (0, 1), (1, -1), (1, 0), (1, 1)]
  }

  /** `p` is one step away from `(x, y)` in some direction. */
  predicate Adjacent(x: int, y: int, p: Pos)
  {
    p != (x, y) && -1 <= p.0 - x <= 1 && -1 <= p.1 - y <= 1
  }

  predicate NoRepeats(cells: seq<Pos>)
  {
    forall a, b :: 0 <= a < b < |cells| ==> cells[a] != cells[b]
  }

  /** `sum((ni, nj) in mines for ni, nj in cells)` */
  function MineCount(cells: seq<Pos>, mines: set<Pos>): (count: nat)
    ensures count <= |cells|
  {
    if cells == [] then 0
    else (if cells[0] in mines then 1 else 0) + MineCount(cells[1..], mines)
  }

  /** Counting the cells of a list without repeats that are mines is
      counting the set of those cells. */
  lemma {:induction false} MineCountIsCard(cells: seq<Pos>, mines: set<Pos>)
    requires NoRepeats(cells)
    ensures MineCount(cells, mines) == |set c | c in cells && c in mines|
  {
    if cells != [] {
      var rest := cells[1..];
      assert NoRepeats(rest) by {
        forall a, b | 0 <= a < b < |rest| ensures rest[a] != rest[b] {
          assert rest[a] == cells[a + 1] && rest[b] == cells[b + 1];
        }
      }
      MineCountIsCard(rest, mines);
      var before := set c | c in rest && c in mines;
      var after := set c | c in cells && c in mines;
      assert cells[0] !in rest by {
        forall k | 0 <= k < |rest| ensures rest[k] != cells[0] {
          assert rest[k] == cells[k + 1];
        }
      }
      if cells[0] in mines {
        assert after == before + {cells[0]};
      } else {
        assert after == before;
      }
    }
  }

  class MinesweeperSolver {
    const grid: seq<seq<Cell>>
    const n: nat
    const m: nat
    var solution: seq<seq<char>>
    var mines: set<Pos>

    /** The grid shape the solver indexes without an `IndexError`: `n`
        rows, none shorter than the first, which is not empty. */
    predicate Shaped()
    {
      n == |grid| && n > 0 && m == |grid[0]| && m > 0 && forall r :: 0 <= r < n ==> |grid[r]| >= m
    }

    /** `__init__` */
    constructor (grid: seq<seq<Cell>>)
      requires |grid| > 0
      ensures this.grid == grid && n == |grid| && m == |grid[0]|
      ensures solution == seq(n, _ => seq(m, _ => '_')) && mines == {}
    {
      this.grid := grid;
      n := |grid|;
      m := |grid[0]|;
      solution := seq(|grid|, _ => seq(|grid[0]|, _ => '_'));
      mines := {};
    }

    predicate InBounds(p: Pos)
    {
      0 <= p.0 < n && 0 <= p.1 < m
    }

    /** `(x + dx, y + dy)` */
    function Shift(x: int, y: int, d: (int, int)): Pos
    {
      (x + d.0, y + d.1)
    }

    /** The offset of `c` from `(x, y)`. */
    function Offset(x: int, y: int, c: Pos): (int, int)
    {
      (c.0 - x, c.1 - y)
    }

    /** The in-bounds cells `(x + dx, y + dy)` for the offsets `ds`, in
        their order. */
    function Shifted(x: int, y: int, ds: seq<(int, int)>): (cells: seq<Pos>)
      ensures |cells| <= |ds|
      ensures forall c :: c in cells ==> InBounds(c) && Offset(x, y, c) in ds
      ensures forall k :: 0 <= k < |ds| && InBounds(Shift(x, y, ds[k])) ==> Shift(x, y, ds[k]) in cells
    {
      if ds == [] then []
      else
        var c := Shift(x, y, ds[0]);
        (if InBounds(c) then [c] else []) + Shifted(x, y, ds[1..])
    }

    lemma {:induction false} ShiftedNoRepeats(x: int, y: int, ds: seq<(int, int)>)
      requires forall a, b :: 0 <= a < b < |ds| ==> ds[a] != ds[b]
      ensures NoRepeats(Shifted(x, y, ds))
    {
      if ds != [] {
        var rest := ds[1..];
        assert forall a, b :: 0 <= a < b < |rest| ==> rest[a] != rest[b] by {
          forall a, b | 0 <= a < b < |rest| ensures rest[a] != rest[b] {
            assert rest[a] == ds[a + 1] && rest[b] == ds[b + 1];
          }
        }
        ShiftedNoRepeats(x, y, rest);
        var c := Shift(x, y, ds[0]);
        var tail := Shifted(x, y, rest);
        if InBounds(c) {
          assert ds[0] !in rest by {
            forall k | 0 <= k < |rest| ensures rest[k] != ds[0] {
              assert rest[k] == ds[k + 1];
            }
          }
          assert Offset(x, y, c) == ds[0];
          assert c !in tail;
          var cells := [c] + tail;
          assert Shifted(x, y, ds) == cells;
          forall a, b | 0 <= a < b < |cells| ensures cells[a] != cells[b] {
            assert cells[b] == tail[b - 1];
            if a > 0 {
              assert cells[a] == tail[a - 1];
            }
          }
        } else {
          assert Shifted(x, y, ds) == tail;
        }
      }
    }

    /** The offsets of `Directions` are exactly the eight steps to a
        neighbouring cell, each once. */
    lemma DirectionsAreSteps()
      ensures forall d :: d in Directions() <==> Adjacent(0, 0, d)
      ensures forall a, b :: 0 <= a < b < |Directions()| ==> Directions()[a] != Directions()[b]
    {
      forall d | Adjacent(0, 0, d) ensures d in Directions() {
        var ds := Directions();
        if d.0 == -1 {
          if d.1 == -1 { assert d == ds[0]; } else if d.1 == 0 { assert d == ds[1]; } else { assert d == ds[2]; }
        } else if d.0 == 0 {
          if d.1 == -1 { assert d == ds[3]; } else { assert d == ds[4]; }
        } else {
          if d.1 == -1 { assert d == ds[5]; } else if d.1 == 0 { assert d == ds[6]; } else { assert d == ds[7]; }
        }
      }
    }

    lemma AdjacentCellsSound(x: int, y: int)
      ensures forall c :: c in Shifted(x, y, Directions()) ==> InBounds(c) && Adjacent(x, y, c)
    {
      DirectionsAreSteps();
      forall c | c in Shifted(x, y, Directions()) ensures Adjacent(x, y, c) {
        assert Adjacent(0, 0, Offset(x, y, c));
      }
    }

    lemma AdjacentCellsComplete(x: int, y: int)
      ensures forall c :: InBounds(c) && Adjacent(x, y, c) ==> c in Shifted(x, y, Directions())
    {
      DirectionsAreSteps();
      forall c | InBounds(c) && Adjacent(x, y, c) ensures c in Shifted(x, y, Directions()) {
        var d := Offset(x, y, c);
        assert Adjacent(0, 0, d);
        var k :| 0 <= k < |Directions()| && Directions()[k] == d;
        assert Shift(x, y, Directions()[k]) == c;
      }
    }

    /** `_get_adjacent_cells`: the in-bounds neighbours of `(x, y)`, each
        once. */
    function AdjacentCells(x: int, y: int): (cells: seq<Pos>)
      ensures |cells| <= 8 && NoRepeats(cells)
      ensures forall c :: c in cells ==> InBounds(c) && Adjacent(x, y, c)
      ensures forall c :: InBounds(c) && Adjacent(x, y, c) ==> c in cells
    {
      DirectionsAreSteps();
      ShiftedNoRepeats(x, y, Directions());
      AdjacentCellsSound(x, y);
      AdjacentCellsComplete(x, y);
      Shifted(x, y, Directions())
    }

    /** The mines around `(x, y)`. */
    ghost function AdjacentMines(x: int, y: int, mines: set<Pos>): set<Pos>
    {
      set p | p in mines && InBounds(p) && Adjacent(x, y, p)
    }

    /** The count `_valid_state` computes is the number of mines around the
        cell. */
    lemma CountAdjacent(x: int, y: int, mines: set<Pos>)
      ensures MineCount(AdjacentCells(x, y), mines) == |AdjacentMines(x, y, mines)|
    {
      var cells := AdjacentCells(x, y);
      MineCountIsCard(cells, mines);
      assert (set c | c in cells && c in mines) == AdjacentMines(x, y, mines);
    }

    /** Cell `(r, c)` is not a clue, or sees exactly its count of mines. */
    ghost predicate CellHolds(mines: set<Pos>, r: int, c: int)
      requires Shaped() && 0 <= r < n && 0 <= c < m
    {
      grid[r][c].Clue? ==> grid[r][c].count == |AdjacentMines(r, c, mines)|
    }

    /** Every number clue sees exactly its count of mines. */
    ghost predicate Consistent(mines: set<Pos>)
      requires Shaped()
    {
      forall r, c :: 0 <= r < n && 0 <= c < m ==> CellHolds(mines, r, c)
    }

    /** `_valid_state`: the rows in order, the cells of each in order,
        stopping at the first clue whose count of adjacent mines differs. */
    method ValidState() returns (ok: bool)
      requires Shaped()
      ensures ok <==> Consistent(mines)
    {
      for i := 0 to n
        invariant forall r, c :: 0 <= r < i && 0 <= c < m ==> CellHolds(mines, r, c)
      {
        for j := 0 to m
          invariant forall r, c :: 0 <= r < i && 0 <= c < m ==> CellHolds(mines, r, c)
          invariant forall c :: 0 <= c < j ==> CellHolds(mines, i, c)
        {
          if grid[i][j].Clue? {
            var count := MineCount(AdjacentCells(i, j), mines);
            CountAdjacent(i, j, mines);
            if count != grid[i][j].count {
              assert !CellHolds(mines, i, j);
              return false;
            }
          }
        }
      }
      return true;
    }

    /** `p` comes before `(i, j)` in row-major order. */
    predicate Before(p: Pos, i: int, j: int)
    {
      p.0 < i || (p.0 == i && p.1 < j)
    }

    /** The unknown cells at `(i, j)` or after it in row-major order: the
        cells `_dfs(i, j)` still decides. */
    ghost function Later(i: int, j: int): set<Pos>
      requires Shaped()
    {
      set r, c | 0 <= r < n && 0 <= c < m && grid[r][c] == Unknown && !Before((r, c), i, j) :: (r, c)
    }

    /** Some choice of mines among the cells still to decide, added to
        `base`, satisfies every clue. */
    ghost predicate Solvable(base: set<Pos>, i: int, j: int)
      requires Shaped()
    {
      exists extra :: extra <= Later(i, j) && Consistent(base + extra)
    }

    /** The position after `(i, j)`: the next column, or the start of the
        next row. */
    function Next(i: int, j: int): (p: Pos)
      ensures p.0 > i || (p.0 == i && p.1 > j)
    {
      if j + 1 < m then (i, j + 1) else (i + 1, 0)
    }

    /** Past the last row no cell is left to decide. */
    lemma SolvableAtEnd(base: set<Pos>, j: int)
      requires Shaped()
      ensures Solvable(base, n, j) <==> Consistent(base)
    {
      assert Later(n, j) == {};
      if Consistent(base) {
        var none: set<Pos> := {};
        assert base + none == base;
        assert none <= Later(n, j) && Consistent(base + none);
      }
      if Solvable(base, n, j) {
        var extra :| extra <= Later(n, j) && Consistent(base + extra);
        assert base + extra == base;
      }
    }

    lemma LaterStep(i: int, j: int)
      requires Shaped() && 0 <= i < n && 0 <= j < m
      ensures (i, j) !in Later(Next(i, j).0, Next(i, j).1)
      ensures Later(i, j) == Later(Next(i, j).0, Next(i, j).1) + (if grid[i][j] == Unknown then {(i, j)} else {})
    {
    }

    /** A solution from `(i, j)` on either makes an unknown `(i, j)` a
        mine and solves the rest, or leaves `(i, j)` clear and solves the
        rest. */
    lemma SolvableSplits(base: set<Pos>, i: int, j: int)
      requires Shaped() && 0 <= i < n && 0 <= j < m
      requires Solvable(base, i, j)
      ensures (grid[i][j] == Unknown && Solvable(base + {(i, j)}, Next(i, j).0, Next(i, j).1)) ||
        Solvable(base, Next(i, j).0, Next(i, j).1)
    {
      var next := Next(i, j);
      LaterStep(i, j);
      var extra :| extra <= Later(i, j) && Consistent(base + extra);
      if (i, j) in extra {
        var rest := extra - {(i, j)};
        assert (base + {(i, j)}) + rest == base + extra;
        assert rest <= Later(next.0, next.1);
      } else {
        assert extra <= Later(next.0, next.1);
      }
    }

    /** Making an unknown `(i, j)` a mine and solving the rest solves the
        search from `(i, j)`. */
    lemma SolvableWithMine(base: set<Pos>, i: int, j: int)
      requires Shaped() && 0 <= i < n && 0 <= j < m
      requires grid[i][j] == Unknown && Solvable(base + {(i, j)}, Next(i, j).0, Next(i, j).1)
      ensures Solvable(base, i, j)
    {
      var next := Next(i, j);
      LaterStep(i, j);
      var rest :| rest <= Later(next.0, next.1) && Consistent(base + {(i, j)} + rest);
      assert base + (rest + {(i, j)}) == base + {(i, j)} + rest;
      assert rest + {(i, j)} <= Later(i, j);
    }

    /** Leaving `(i, j)` clear and solving the rest solves the search from
        `(i, j)`. */
    lemma SolvableWithoutMine(base: set<Pos>, i: int, j: int)
      requires Shaped() && 0 <= i < n && 0 <= j < m
      requires Solvable(base, Next(i, j).0, Next(i, j).1)
      ensures Solvable(base, i, j)
    {
      var next := Next(i, j);
      LaterStep(i, j);
      var rest :| rest <= Later(next.0, next.1) && Consistent(base + rest);
      assert rest <= Later(i, j);
    }

    /** The choice at `(i, j)`: the search from `(i, j)` is solvable
        exactly when one of its two branches is. */
    lemma SolvableStep(base: set<Pos>, i: int, j: int)
      requires Shaped() && 0 <= i < n && 0 <= j < m
      ensures Solvable(base, i, j) <==>
        (grid[i][j] == Unknown && Solvable(base + {(i, j)}, Next(i, j).0, Next(i, j).1)) ||
        Solvable(base, Next(i, j).0, Next(i, j).1)
    {
      if Solvable(base, i, j) {
        SolvableSplits(base, i, j);
      }
      if grid[i][j] == Unknown && Solvable(base + {(i, j)}, Next(i, j).0, Next(i, j).1) {
        SolvableWithMine(base, i, j);
      }
      if Solvable(base, Next(i, j).0, Next(i, j).1) {
        SolvableWithoutMine(base, i, j);
      }
    }

    /** `_dfs(i, j)`: decide the cell at `(i, j)` (mine first if it is
        unknown), recurse on the next position, and check `_valid_state`
        past the last row. The mines already placed all lie before
        `(i, j)`. */
    method Dfs(i: int, j: int) returns (found: bool)
      requires Shaped() && 0 <= i <= n && 0 <= j < m
      requires forall p :: p in mines ==> Before(p, i, j)
      modifies this`mines
      ensures found <==> Solvable(old(mines), i, j)
      ensures !found ==> mines == old(mines)
      ensures found ==> Consistent(mines) && old(mines) <= mines && mines - old(mines) <= Later(i, j)
      ensures found && i < n && grid[i][j] == Unknown && Solvable(old(mines) + {(i, j)}, Next(i, j).0, Next(i, j).1) ==>
        (i, j) in mines
      decreases n - i, m - j
    {
      if i == n {
        SolvableAtEnd(mines, j);
        found := ValidState();
        return;
      }
      var next := Next(i, j);
      SolvableStep(mines, i, j);
      LaterStep(i, j);
      if grid[i][j] == Unknown {
        mines := mines + {(i, j)};
        found := Dfs(next.0, next.1);
        if found {
          return;
        }
        mines := mines - {(i, j)};
        assert mines == old(mines);
      }
      found := Dfs(next.0, next.1);
    }

    /** `solve` without its printing: on success each mine is marked `'X'`
        in `solution`. The solver is fresh from its constructor. */
    method Solve() returns (solved: bool)
      requires Shaped() && mines == {} && solution == seq(n, _ => seq(m, _ => '_'))
      modifies this
      ensures solved <==> Solvable({}, 0, 0)
      ensures !solved ==> mines == {} && solution == old(solution)
      ensures solved ==> Consistent(mines) && mines <= Later(0, 0)
      ensures solved ==> |solution| == n && forall r :: 0 <= r < n ==>
        |solution[r]| == m && forall c :: 0 <= c < m ==> solution[r][c] == (if (r, c) in mines then 'X' else '_')
    {
      solved := Dfs(0, 0);
      if !solved {
        return;
      }
      var remaining := mines;
      while remaining != {}
        invariant remaining <= mines && mines <= Later(0, 0) && Consistent(mines)
        invariant |solution| == n && forall r :: 0 <= r < n ==>
          |solution[r]| == m && forall c :: 0 <= c < m ==> solution[r][c] == (if (r, c) in mines - remaining then 'X' else '_')
        decreases remaining
      {
        var p :| p in remaining;
        solution := solution[p.0 := solution[p.0][p.1 := 'X']];
        remaining := remaining - {p};
      }
    }
  }
}
