/** Breadth-first search over Sudoku boards (BFS_Sudoku.py): nodes carry a
    board and the action that produced it, `actions` yields (play, row,
    column) triples for the first empty cell, and `BFS` goal-tests each child
    before putting it on a FIFO queue. */
module BfsSudoku {
  import opened Common
  import opened SudokuProblem

  /** `(play, row, column)`: write `play` at (row, column). */
  datatype Action = Action(play: int, row: nat, column: nat)

  datatype Node = Node(state: Grid, action: Option<Action>)

  function States(nodes: seq<Node>): (r: seq<Grid>)
    ensures |r| == |nodes| && forall k :: 0 <= k < |nodes| ==> r[k] == nodes[k].state
  {
    seq(|nodes|, k requires 0 <= k < |nodes| => nodes[k].state)
  }

  lemma StatesAppend(a: seq<Node>, b: seq<Node>)
    ensures States(a + b) == States(a) + States(b)
  {
  }

  /** `actions`: one action per value that survives the row, column and
      block filters at the first empty cell, in increasing order of value;
      nothing (the TypeError of unpacking `None`) when the board is full. */
  method Actions(state: Grid, n: nat) returns (actions: Option<seq<Action>>)
    requires IsGrid(state, n) && n % 3 == 0
    ensures actions.None? <==> IsFull(state, n)
    ensures actions.Some? ==>
      var spot := GetSpot(n, state).value;
      var values := LegalValues(state, n, spot.0, spot.1);
      |actions.value| == |values| &&
      forall k :: 0 <= k < |values| ==> actions.value[k] == Action(values[k], spot.0, spot.1)
  {
    var spot := GetSpot(n, state);
    if spot.None? {
      return None;
    }
    var row, column := spot.value.0, spot.value.1;
    var options := FilterRow(state, n, row);
    var byColumn := FilterCol(options, state, n, column);
    var byBlock := FilterQuad(byColumn, state, n, row, column);
    FilterChainIsLegalValues(state, n, row, column, options, byColumn, byBlock);
    var result: seq<Action> := [];
    for k := 0 to |byBlock|
      invariant |result| == k
      invariant forall i :: 0 <= i < k ==> result[i] == Action(byBlock[i], row, column)
    {
      result := result + [Action(byBlock[k], row, column)];
    }
    return Some(result);
  }

  /** `child_node`: the node reached by applying `action` (`result`). */
  function ChildNode(state: Grid, action: Action): Node
    requires action.row < |state| && action.column < |state[action.row]|
  {
    Node(Place(state, action.row, action.column, action.play), Some(action))
  }

  /** `expand`: the child nodes of `node`, one per action, in action order;
      their boards are exactly the node board's successors. */
  method Expand(node: Node, n: nat) returns (children: Option<seq<Node>>)
    requires IsGrid(node.state, n) && n % 3 == 0
    ensures children.None? <==> IsFull(node.state, n)
    ensures children.Some? ==> States(children.value) == Successors(node.state, n)
    ensures children.Some? ==>
      var spot := GetSpot(n, node.state).value;
      forall k :: 0 <= k < |children.value| ==>
        children.value[k].action == Some(Action(children.value[k].state[spot.0][spot.1], spot.0, spot.1))
  {
    var actions := Actions(node.state, n);
    if actions.None? {
      return None;
    }
    var acts := actions.value;
    var nodes := seq(|acts|, k requires 0 <= k < |acts| => ChildNode(node.state, acts[k]));
    assert States(nodes) == Successors(node.state, n);
    return Some(nodes);
  }

  /** Where BFS stands: on the path from the puzzle and not a goal (the
      initial board and every child pass through `goal_test` before being queued). */
  ghost predicate Queued(initial: Grid, g: Grid, n: nat)
    requires IsGrid(initial, n) && n % 3 == 0
  {
    OnPath(initial, g, n) && !IsGoal(g, n)
  }

  /** Every solution of the puzzle agrees with some queued board. */
  ghost predicate CoversSolutions(initial: Grid, frontier: seq<Node>, n: nat)
    requires IsGrid(initial, n) && n % 3 == 0
  {
    forall sol :: IsSolution(initial, sol, n) ==>
      exists k :: 0 <= k < |frontier| && IsGrid(frontier[k].state, n) && AgreesOnFilled(frontier[k].state, sol, n)
  }

  /** Dequeuing the front board and queuing its successors keeps a given
      solution covered. */
  lemma QueueStepCoversOne(initial: Grid, n: nat, before: seq<Node>, children: seq<Node>, sol: Grid)
    requires IsGrid(initial, n) && n % 3 == 0 && |before| > 0
    requires forall k :: 0 <= k < |before| ==> IsGrid(before[k].state, n)
    requires !IsFull(before[0].state, n) && States(children) == Successors(before[0].state, n)
    requires IsSolution(initial, sol, n)
    requires exists k :: 0 <= k < |before| && AgreesOnFilled(before[k].state, sol, n)
    ensures forall k :: 0 <= k < |before[1..] + children| ==> IsGrid((before[1..] + children)[k].state, n)
    ensures exists k :: 0 <= k < |before[1..] + children| && AgreesOnFilled((before[1..] + children)[k].state, sol, n)
  {
    var node, rest := before[0], before[1..];
    var after := rest + children;
    forall k | 0 <= k < |after| ensures IsGrid(after[k].state, n) {
      if k >= |rest| {
        assert after[k].state == Successors(node.state, n)[k - |rest|];
      }
    }
    var k :| 0 <= k < |before| && AgreesOnFilled(before[k].state, sol, n);
    if k > 0 {
      assert after[k - 1] == before[k];
    } else {
      SuccessorsKeepSolutions(node.state, sol, n);
      var j :| 0 <= j < |children| && AgreesOnFilled(Successors(node.state, n)[j], sol, n);
      assert after[|rest| + j] == children[j];
    }
  }

  /** Dequeuing the front board and queuing its successors keeps every
      solution covered. */
  lemma QueueStepCovers(initial: Grid, n: nat, before: seq<Node>, children: seq<Node>)
    requires IsGrid(initial, n) && n % 3 == 0 && |before| > 0
    requires forall k :: 0 <= k < |before| ==> IsGrid(before[k].state, n)
    requires !IsFull(before[0].state, n) && States(children) == Successors(before[0].state, n)
    requires CoversSolutions(initial, before, n)
    ensures forall k :: 0 <= k < |before[1..] + children| ==> IsGrid((before[1..] + children)[k].state, n)
    ensures CoversSolutions(initial, before[1..] + children, n)
  {
    forall k | 0 <= k < |before[1..] + children| ensures IsGrid((before[1..] + children)[k].state, n) {
      if k >= |before| - 1 {
        assert (before[1..] + children)[k].state == Successors(before[0].state, n)[k - |before| + 1];
      }
    }
    forall sol | IsSolution(initial, sol, n)
      ensures exists k :: 0 <= k < |before[1..] + children| && AgreesOnFilled((before[1..] + children)[k].state, sol, n)
    {
      QueueStepCoversOne(initial, n, before, children, sol);
    }
  }

  /** The inner loop of `BFS`: goal-tests each child in order and returns
      the first that passes; otherwise every child has been put on the
      queue behind the boards already there. */
  method PutChildren(frontier: seq<Node>, children: seq<Node>, n: nat) returns (found: Option<Node>, queue: seq<Node>)
    requires n % 3 == 0 && forall k :: 0 <= k < |children| ==> IsGrid(children[k].state, n)
    ensures found.Some? ==>
      exists k :: 0 <= k < |children| && found.value == children[k] &&
        IsGrid(children[k].state, n) && IsGoal(children[k].state, n) &&
        forall i :: 0 <= i < k ==> IsGrid(children[i].state, n) && !IsGoal(children[i].state, n)
    ensures found.None? ==> queue == frontier + children
    ensures found.None? ==>
      forall k :: 0 <= k < |children| ==> IsGrid(children[k].state, n) && !IsGoal(children[k].state, n)
  {
    queue := frontier;
    for i := 0 to |children|
      invariant queue == frontier + children[..i]
      invariant forall k :: 0 <= k < i ==> IsGrid(children[k].state, n) && !IsGoal(children[k].state, n)
    {
      var child := children[i];
      var isGoal := GoalTest(child.state, n);
      if isGoal {
        return Some(child), queue;
      }
      queue := queue + [child];
    }
    assert children[..|children|] == children;
    return None, queue;
  }

  /** The boards queued after one round of `BFS` are on the path and not
      goals. */
  lemma QueueStepQueued(initial: Grid, n: nat, before: seq<Node>, children: seq<Node>)
    requires IsGrid(initial, n) && n % 3 == 0 && |before| > 0
    requires forall k :: 0 <= k < |before| ==> IsGrid(before[k].state, n) && Queued(initial, before[k].state, n)
    requires !IsFull(before[0].state, n) && States(children) == Successors(before[0].state, n)
    requires forall k :: 0 <= k < |children| ==> IsGrid(children[k].state, n) && !IsGoal(children[k].state, n)
    ensures forall k :: 0 <= k < |before[1..] + children| ==> Queued(initial, (before[1..] + children)[k].state, n)
  {
    var node, rest := before[0], before[1..];
    SuccessorsStayOnPath(initial, node.state, n);
    forall k | 0 <= k < |rest + children| ensures Queued(initial, (rest + children)[k].state, n) {
      if k >= |rest| {
        assert (rest + children)[k].state == Successors(node.state, n)[k - |rest|];
      } else {
        assert (rest + children)[k] == before[k + 1];
      }
    }
  }

  /** One round of the loop of `BFS` that queues the children of the
      dequeued node keeps every queued board on the path and not a goal,
      keeps every solution covered and lowers the weight of the queue. */
  lemma QueueStep(initial: Grid, n: nat, before: seq<Node>, children: seq<Node>)
    requires IsGrid(initial, n) && n % 3 == 0 && |before| > 0
    requires forall k :: 0 <= k < |before| ==> IsGrid(before[k].state, n) && Queued(initial, before[k].state, n)
    requires CoversSolutions(initial, before, n)
    requires !IsFull(before[0].state, n) && States(children) == Successors(before[0].state, n)
    requires forall k :: 0 <= k < |children| ==> IsGrid(children[k].state, n) && !IsGoal(children[k].state, n)
    ensures forall k :: 0 <= k < |before[1..] + children| ==> Queued(initial, (before[1..] + children)[k].state, n)
    ensures CoversSolutions(initial, before[1..] + children, n)
    ensures Weight(n, States(before[1..] + children)) < Weight(n, States(before))
  {
    var node, rest := before[0], before[1..];
    QueueStepQueued(initial, n, before, children);
    QueueStepCovers(initial, n, before, children);
    StatesAppend(rest, children);
    StatesAppend([node], rest);
    assert before == [node] + rest;
    ExpansionLowersWeight(n, States(rest), node.state);
  }

  /** `BFS`: sound (a goal it returns keeps every clue, and is a true
      solution when the puzzle is partially valid), complete (it reports no
      solution only when none exists) and crash-free on partially valid
      puzzles. */
  method BFS(initial: Grid, n: nat) returns (outcome: SearchOutcome<Node>)
    requires IsGrid(initial, n) && n % 3 == 0
    ensures outcome.Found? ==>
      var g := outcome.result.state;
      IsGrid(g, n) && IsGoal(g, n) && AgreesOnFilled(initial, g, n)
    ensures outcome.Found? && PartiallyValid(initial, n) ==> IsSolution(initial, outcome.result.state, n)
    ensures outcome.NoSolution? ==> forall sol :: !IsSolution(initial, sol, n)
    ensures outcome.Raised? ==> !PartiallyValid(initial, n)
  {
    var node := Node(initial, None);
    var isGoal := GoalTest(node.state, n);
    if isGoal {
      ValidGoalIsFull(initial, n);
      return Found(node);
    }
    var frontier := [node];
    while |frontier| != 0
      invariant forall k :: 0 <= k < |frontier| ==> Queued(initial, frontier[k].state, n)
      invariant CoversSolutions(initial, frontier, n)
      decreases Weight(n, States(frontier))
    {
      ghost var before := frontier;
      node := frontier[0];
      frontier := frontier[1..];
      FullAndValidIsGoal(node.state, n);
      var expanded := Expand(node, n);
      if expanded.None? {
        return Raised;
      }
      var children := expanded.value;
      SuccessorsStayOnPath(initial, node.state, n);
      var found;
      found, frontier := PutChildren(frontier, children, n);
      if found.Some? {
        ValidGoalIsFull(found.value.state, n);
        return Found(found.value);
      }
      QueueStep(initial, n, before, children);
    }
    return NoSolution;
  }
}
