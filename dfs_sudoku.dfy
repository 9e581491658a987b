/** Depth-first search over Sudoku boards (DFS_Sudoku.py): `actions` yields
    the successor boards directly, and `DFS` pops the most recently pushed
    node from a LIFO stack, goal-tests it, and pushes its children. */
module DfsSudoku {
  import opened Common
  import opened SudokuProblem

  datatype Node = Node(state: Grid)

  function States(nodes: seq<Node>): (r: seq<Grid>)
    ensures |r| == |nodes| && forall k :: 0 <= k < |nodes| ==> r[k] == nodes[k].state
  {
    seq(|nodes|, k requires 0 <= k < |nodes| => nodes[k].state)
  }

  lemma StatesAppend(a: seq<Node>, b: seq<Node>)
    ensures States(a + b) == States(a) + States(b)
  {
  }

  /** `actions`: for the first empty cell, filter by row, then column, then
      block, and yield a copy of the board with each surviving value written
      there; nothing (the TypeError of unpacking `None`) when the board is
      full. */
  method Actions(state: Grid, n: nat) returns (boards: Option<seq<Grid>>)
    requires IsGrid(state, n) && n % 3 == 0
    ensures boards.None? <==> IsFull(state, n)
    ensures boards.Some? ==> boards.value == Successors(state, n)
  {
    var spot := GetSpot(n, state);
    if spot.None? {
      return None;
    }
    var row, column := spot.value.0, spot.value.1;
    var options := FilterRow(state, n, row);
    options := FilterCol(options, state, n, column);
    ghost var byColumn := options;
    options := FilterQuad(options, state, n, row, column);
    FilterChainIsLegalValues(state, n, row, column, FilterRow(state, n, row), byColumn, options);
    var result: seq<Grid> := [];
    for k := 0 to |options|
      invariant |result| == k
      invariant forall i :: 0 <= i < k ==> result[i] == Place(state, row, column, options[i])
    {
      var newState := Place(state, row, column, options[k]);
      result := result + [newState];
    }
    return Some(result);
  }

  /** `expand`: one node per board `actions` yields, in the same order. */
  method Expand(node: Node, n: nat) returns (children: Option<seq<Node>>)
    requires IsGrid(node.state, n) && n % 3 == 0
    ensures children.None? <==> IsFull(node.state, n)
    ensures children.Some? ==> States(children.value) == Successors(node.state, n)
  {
    var boards := Actions(node.state, n);
    if boards.None? {
      return None;
    }
    var nodes := seq(|boards.value|, k requires 0 <= k < |boards.value| => Node(boards.value[k]));
    assert States(nodes) == boards.value;
    return Some(nodes);
  }

  /** Every solution of the puzzle agrees with some board on the stack. */
  ghost predicate CoversSolutions(initial: Grid, stack: seq<Node>, n: nat)
    requires IsGrid(initial, n) && n % 3 == 0
  {
    forall sol :: IsSolution(initial, sol, n) ==>
      exists k :: 0 <= k < |stack| && IsGrid(stack[k].state, n) && AgreesOnFilled(stack[k].state, sol, n)
  }

  /** Popping the top board, which has an empty cell, and pushing its
      successors keeps a given solution covered. */
  lemma StackStepCoversOne(initial: Grid, n: nat, rest: seq<Node>, top: Node, children: seq<Node>, sol: Grid)
    requires IsGrid(initial, n) && n % 3 == 0
    requires forall k :: 0 <= k < |rest| ==> IsGrid(rest[k].state, n)
    requires IsGrid(top.state, n) && !IsFull(top.state, n)
    requires States(children) == Successors(top.state, n)
    requires IsSolution(initial, sol, n)
    requires AgreesOnFilled(top.state, sol, n) || exists k :: 0 <= k < |rest| && AgreesOnFilled(rest[k].state, sol, n)
    ensures exists k :: 0 <= k < |rest + children| && AgreesOnFilled((rest + children)[k].state, sol, n)
  {
    var after := rest + children;
    if k :| 0 <= k < |rest| && AgreesOnFilled(rest[k].state, sol, n) {
      assert after[k] == rest[k];
    } else {
      SuccessorsKeepSolutions(top.state, sol, n);
      var j :| 0 <= j < |children| && AgreesOnFilled(Successors(top.state, n)[j], sol, n);
      assert after[|rest| + j] == children[j];
    }
  }

  /** Popping the top board and pushing its successors keeps every board
      on the stack on the path and every solution covered. */
  lemma StackStep(initial: Grid, n: nat, rest: seq<Node>, top: Node, children: seq<Node>)
    requires IsGrid(initial, n) && n % 3 == 0
    requires forall k :: 0 <= k < |rest| ==> OnPath(initial, rest[k].state, n)
    requires OnPath(initial, top.state, n) && !IsFull(top.state, n)
    requires States(children) == Successors(top.state, n)
    requires CoversSolutions(initial, rest + [top], n)
    ensures forall k :: 0 <= k < |rest + children| ==> OnPath(initial, (rest + children)[k].state, n)
    ensures CoversSolutions(initial, rest + children, n)
  {
    var before, after := rest + [top], rest + children;
    SuccessorsStayOnPath(initial, top.state, n);
    forall k | 0 <= k < |after| ensures OnPath(initial, after[k].state, n) {
      if k >= |rest| {
        assert after[k].state == Successors(top.state, n)[k - |rest|];
      } else {
        assert after[k] == rest[k];
      }
    }
    forall sol | IsSolution(initial, sol, n)
      ensures exists k :: 0 <= k < |after| && AgreesOnFilled(after[k].state, sol, n)
    {
      var k :| 0 <= k < |before| && AgreesOnFilled(before[k].state, sol, n);
      if k < |rest| {
        assert before[k] == rest[k];
      }
      StackStepCoversOne(initial, n, rest, top, children, sol);
    }
  }

  /** A non-empty stack is its prefix with its top pushed back. */
  lemma PopSplit(stack: seq<Node>)
    requires |stack| > 0
    ensures stack == stack[..|stack| - 1] + [stack[|stack| - 1]]
  {
  }

  /** Popping the top board and pushing its successors lowers the weight of
      the stack. */
  lemma StackStepWeight(n: nat, rest: seq<Node>, top: Node, children: seq<Node>)
    requires n % 3 == 0 && IsGrid(top.state, n) && !IsFull(top.state, n)
    requires States(children) == Successors(top.state, n)
    ensures Weight(n, States(rest + children)) < Weight(n, States(rest + [top]))
  {
    StatesAppend(rest, children);
    StatesAppend(rest, [top]);
    assert States([top]) == [top.state];
    ExpansionLowersWeight(n, States(rest), top.state);
  }

  /** `DFS`: sound (a board it returns keeps every clue, and is a true
      solution when the puzzle is partially valid), complete (it reports no
      solution only when none exists) and crash-free on partially valid
      puzzles. */
  method DFS(initial: Grid, n: nat) returns (outcome: SearchOutcome<Grid>)
    requires IsGrid(initial, n) && n % 3 == 0
    ensures outcome.Found? ==>
      IsGrid(outcome.result, n) && IsGoal(outcome.result, n) && AgreesOnFilled(initial, outcome.result, n)
    ensures outcome.Found? && PartiallyValid(initial, n) ==> IsSolution(initial, outcome.result, n)
    ensures outcome.NoSolution? ==> forall sol :: !IsSolution(initial, sol, n)
    ensures outcome.Raised? ==> !PartiallyValid(initial, n)
  {
    var start := Node(initial);
    var isGoal := GoalTest(start.state, n);
    if isGoal {
      ValidGoalIsFull(initial, n);
      return Found(start.state);
    }
    var stack := [start];
    while |stack| != 0
      invariant forall k :: 0 <= k < |stack| ==> OnPath(initial, stack[k].state, n)
      invariant CoversSolutions(initial, stack, n)
      decreases Weight(n, States(stack))
    {
      ghost var before := stack;
      var node := stack[|stack| - 1];
      stack := stack[..|stack| - 1];
      ghost var rest := stack;
      isGoal := GoalTest(node.state, n);
      if isGoal {
        ValidGoalIsFull(node.state, n);
        return Found(node.state);
      }
      FullAndValidIsGoal(node.state, n);
      var children := Expand(node, n);
      if children.None? {
        return Raised;
      }
      PopSplit(before);
      StackStep(initial, n, rest, node, children.value);
      StackStepWeight(n, rest, node, children.value);
      stack := stack + children.value;
    }
    return NoSolution;
  }
}
