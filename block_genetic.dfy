/** The block-preserving genetic solver (main_2.py): individuals are 9x9
    boards in which every 3x3 block holds the digits 1..9 once, the cells
    given by the puzzle are fixed, and the operators only ever move values
    inside a block. Every random draw (shuffles, coin flips, sampled pairs,
    tournament candidates) is an explicit parameter. */
module BlockGenetic {
  import opened Common

  /** `N` and `block_size`. */
  const N: nat := 9
  const BlockSize: nat := 3

  type Grid = seq<seq<int>>
  type Mask = seq<seq<bool>>
  type Cell = (int, int)

  predicate IsBoard(g: Grid)
  {
    |g| == N && forall i :: 0 <= i < N ==> |g[i]| == N
  }

  predicate IsMask(fixed: Mask)
  {
    |fixed| == N && forall i :: 0 <= i < N ==> |fixed[i]| == N
  }

  predicate OnBoard(c: Cell)
  {
    0 <= c.0 < N && 0 <= c.1 < N
  }

  /** The value of cell c. */
  function At(g: Grid, c: Cell): int
    requires IsBoard(g) && OnBoard(c)
  {
    g[c.0][c.1]
  }

  function IsFixed(fixed: Mask, c: Cell): bool
    requires IsMask(fixed) && OnBoard(c)
  {
    fixed[c.0][c.1]
  }

  /** g with cell c set to v. */
  function SetCell(g: Grid, c: Cell, v: int): (r: Grid)
    requires IsBoard(g) && OnBoard(c)
    ensures IsBoard(r) && At(r, c) == v
    ensures forall d :: OnBoard(d) && d != c ==> At(r, d) == At(g, d)
  {
    g[c.0 := g[c.0][c.1 := v]]
  }

  // ---------------------------------------------------------------------
  // Blocks

  /** The block (block row, block column) holding a cell. */
  function BlockOf(c: Cell): (nat, nat)
    requires OnBoard(c)
  {
    (c.0 / 3, c.1 / 3)
  }

  /** The nine cells of block (br, bc), row by row. */
  function BlockCells(br: nat, bc: nat): (cells: seq<Cell>)
    ensures |cells| == 9
    ensures forall k :: 0 <= k < 9 ==> cells[k] == (3 * br + k / 3, 3 * bc + k % 3)
    ensures br < 3 && bc < 3 ==> forall k :: 0 <= k < 9 ==> OnBoard(cells[k])
  {
    seq(9, k requires 0 <= k < 9 => (3 * br + k / 3, 3 * bc + k % 3))
  }

  /** `get_block_indices`: the cells with rows 3br..3br+2 and columns
      3bc..3bc+2, row by row. */
  method GetBlockIndices(br: nat, bc: nat) returns (indices: seq<Cell>)
    ensures indices == BlockCells(br, bc)
  {
    indices := [];
    for i := br * BlockSize to (br + 1) * BlockSize
      invariant indices == BlockCells(br, bc)[..3 * (i - 3 * br)]
    {
      for j := bc * BlockSize to (bc + 1) * BlockSize
        invariant indices == BlockCells(br, bc)[..3 * (i - 3 * br) + (j - 3 * bc)]
      {
        ghost var k := 3 * (i - 3 * br) + (j - 3 * bc);
        assert BlockCells(br, bc)[k] == (i, j);
        indices := indices + [(i, j)];
      }
    }
  }

  /** The nine cells of a block are distinct, and they are exactly the
      cells of the board whose block is (br, bc). */
  lemma BlockCellsAreTheBlock(br: nat, bc: nat)
    requires br < 3 && bc < 3
    ensures forall k, t :: 0 <= k < t < 9 ==> BlockCells(br, bc)[k] != BlockCells(br, bc)[t]
    ensures forall k :: 0 <= k < 9 ==> OnBoard(BlockCells(br, bc)[k]) && BlockOf(BlockCells(br, bc)[k]) == (br, bc)
    ensures forall c :: OnBoard(c) && BlockOf(c) == (br, bc) ==> c in BlockCells(br, bc)
  {
    var cells := BlockCells(br, bc);
    forall k, t | 0 <= k < t < 9 ensures cells[k] != cells[t] {
      assert k == 3 * (k / 3) + k % 3 && t == 3 * (t / 3) + t % 3;
    }
    forall c | OnBoard(c) && BlockOf(c) == (br, bc) ensures c in cells {
      var k := 3 * (c.0 - 3 * br) + (c.1 - 3 * bc);
      assert cells[k] == c;
    }
  }

  /** The values of block (br, bc), row by row. */
  function BlockValues(g: Grid, br: nat, bc: nat): (s: seq<int>)
    requires IsBoard(g) && br < 3 && bc < 3
    ensures |s| == 9
    ensures forall k :: 0 <= k < 9 ==> OnBoard(BlockCells(br, bc)[k]) && s[k] == At(g, BlockCells(br, bc)[k])
  {
    seq(9, k requires 0 <= k < 9 => g[3 * br + k / 3][3 * bc + k % 3])
  }

  /** Each block holds each digit 1..9 exactly once. */
  ghost predicate BlocksArePermutations(g: Grid)
    requires IsBoard(g)
  {
    forall br, bc :: 0 <= br < 3 && 0 <= bc < 3 ==> multiset(BlockValues(g, br, bc)) == multiset(Range(1, 10))
  }

  /** g keeps the value of every fixed cell of the puzzle. */
  ghost predicate KeepsFixed(puzzle: Grid, fixed: Mask, g: Grid)
    requires IsBoard(puzzle) && IsMask(fixed) && IsBoard(g)
  {
    forall c :: OnBoard(c) && IsFixed(fixed, c) ==> At(g, c) == At(puzzle, c)
  }

  // ---------------------------------------------------------------------
  // Fixed and missing digits of a block

  /** `[g[i][j] for (i, j) in cells if fixed[i][j]]` */
  function FixedValues(g: Grid, fixed: Mask, cells: seq<Cell>): (r: seq<int>)
    requires IsBoard(g) && IsMask(fixed) && forall k :: 0 <= k < |cells| ==> OnBoard(cells[k])
    ensures |r| <= |cells|
  {
    if cells == [] then []
    else
      var last := cells[|cells| - 1];
      FixedValues(g, fixed, cells[..|cells| - 1]) + (if IsFixed(fixed, last) then [At(g, last)] else [])
  }

  /** `[(i, j) for (i, j) in cells if not fixed[i][j]]` */
  function Unfixed(fixed: Mask, cells: seq<Cell>): (r: seq<Cell>)
    requires IsMask(fixed) && forall k :: 0 <= k < |cells| ==> OnBoard(cells[k])
    ensures forall c :: c in r <==> c in cells && !IsFixed(fixed, c)
    ensures forall k :: 0 <= k < |r| ==> OnBoard(r[k]) && !IsFixed(fixed, r[k])
    ensures (forall i, j :: 0 <= i < j < |cells| ==> cells[i] != cells[j]) ==>
      forall i, j :: 0 <= i < j < |r| ==> r[i] != r[j]
  {
    if cells == [] then []
    else
      var last := cells[|cells| - 1];
      Unfixed(fixed, cells[..|cells| - 1]) + (if IsFixed(fixed, last) then [] else [last])
  }

  /** Only the fixed cells matter to FixedValues. */
  lemma {:induction false} FixedValuesOnlyFixed(g: Grid, h: Grid, fixed: Mask, cells: seq<Cell>)
    requires IsBoard(g) && IsBoard(h) && IsMask(fixed) && forall k :: 0 <= k < |cells| ==> OnBoard(cells[k])
    requires forall k :: 0 <= k < |cells| && IsFixed(fixed, cells[k]) ==> At(g, cells[k]) == At(h, cells[k])
    ensures FixedValues(g, fixed, cells) == FixedValues(h, fixed, cells)
    decreases |cells|
  {
    if cells != [] {
      FixedValuesOnlyFixed(g, h, fixed, cells[..|cells| - 1]);
    }
  }

  lemma {:induction false} FixedValuesAppend(g: Grid, fixed: Mask, a: seq<Cell>, b: seq<Cell>)
    requires IsBoard(g) && IsMask(fixed)
    requires forall k :: 0 <= k < |a| ==> OnBoard(a[k])
    requires forall k :: 0 <= k < |b| ==> OnBoard(b[k])
    ensures forall k :: 0 <= k < |a + b| ==> OnBoard((a + b)[k])
    ensures FixedValues(g, fixed, a + b) == FixedValues(g, fixed, a) + FixedValues(g, fixed, b)
    decreases |b|
  {
    if b != [] {
      assert (a + b)[..|a + b| - 1] == a + b[..|b| - 1];
      FixedValuesAppend(g, fixed, a, b[..|b| - 1]);
    } else {
      assert a + b == a;
    }
  }

  /** The fixed digits of block (br, bc). */
  function FixedNums(g: Grid, fixed: Mask, br: nat, bc: nat): seq<int>
    requires IsBoard(g) && IsMask(fixed) && br < 3 && bc < 3
  {
    FixedValues(g, fixed, BlockCells(br, bc))
  }

  function MissingFrom(lo: int, used: seq<int>): (r: seq<int>)
    decreases 10 - lo
    ensures forall x :: x in r <==> lo <= x <= 9 && x !in used
    ensures StrictlyIncreasing(r)
  {
    if lo > 9 then []
    else
      var rest := MissingFrom(lo + 1, used);
      if lo in used then rest
      else
        ConsIncreasing(lo, rest);
        [lo] + rest
  }

  /** `[num for num in range(1, 10) if num not in fixed_nums]` */
  function Missing(used: seq<int>): (r: seq<int>)
    ensures forall x :: x in r <==> 1 <= x <= 9 && x !in used
    ensures Distinct(r)
  {
    var r := MissingFrom(1, used);
    IncreasingIsDistinct(r);
    r
  }

  /** The fixed digits of a block are distinct digits 1..9: the puzzle's
      block constraint holds on its clues. */
  ghost predicate FixedDistinct(g: Grid, fixed: Mask, br: nat, bc: nat)
    requires IsBoard(g) && IsMask(fixed) && br < 3 && bc < 3
  {
    var f := FixedNums(g, fixed, br, bc);
    Distinct(f) && forall k :: 0 <= k < |f| ==> 1 <= f[k] <= 9
  }

  /** Every digit 1..9 is fixed or missing, so there are never fewer
      missing digits than unfixed cells: `missing.pop()` cannot fail. */
  lemma MissingBound(used: seq<int>)
    ensures |Missing(used)| + |used| >= 9
  {
    var digits := Range(1, 10);
    RangeIncreasing(1, 10);
    IncreasingIsDistinct(digits);
    DistinctElements(digits);
    assert Elements(digits) <= Elements(Missing(used)) + Elements(used);
    SubsetCard(Elements(digits), Elements(Missing(used)) + Elements(used));
    DupCountIsLengthMinusDistinct(Missing(used));
    DupCountIsLengthMinusDistinct(used);
  }

  lemma FixedAndMissingCount(used: seq<int>, x: int)
    requires Distinct(used) && forall k :: 0 <= k < |used| ==> 1 <= used[k] <= 9
    ensures multiset(used)[x] + multiset(Missing(used))[x] == multiset(Range(1, 10))[x]
  {
    RangeIncreasing(1, 10);
    IncreasingIsDistinct(Range(1, 10));
    DistinctCount(used, x);
    DistinctCount(Missing(used), x);
    DistinctCount(Range(1, 10), x);
  }

  /** Distinct fixed digits 1..9 and the missing digits together are the
      digits 1..9, each once. */
  lemma FixedAndMissing(used: seq<int>)
    requires Distinct(used) && forall k :: 0 <= k < |used| ==> 1 <= used[k] <= 9
    ensures multiset(used) + multiset(Missing(used)) == multiset(Range(1, 10))
    ensures |Missing(used)| == 9 - |used|
  {
    var both, digits := multiset(used) + multiset(Missing(used)), multiset(Range(1, 10));
    forall x ensures both[x] == digits[x] {
      FixedAndMissingCount(used, x);
    }
    assert both == digits;
    assert |Range(1, 10)| == 9;
  }

  // ---------------------------------------------------------------------
  // initialize_individual

  lemma PrefixExtend(a: seq<int>, b: seq<int>, k: nat)
    requires k < |a| && k <= |b| && forall t :: 0 <= t < k ==> a[t] == b[t]
    ensures multiset(a[..k + 1]) == multiset(b[..k]) + multiset{a[k]}
  {
    assert a[..k + 1] == b[..k] + [a[k]];
  }

  lemma PopFront(s: seq<int>, m: nat)
    requires m < |s|
    ensures multiset(s[m..]) == multiset{s[m]} + multiset(s[m + 1..])
  {
    assert s[m..] == [s[m]] + s[m + 1..];
  }

  /** Where filling block (br, bc) stands after its first k cells: only
      unfixed cells of the block among the first k have changed, and the
      values popped so far are the end of `pool`, one per unfixed cell. */
  ghost predicate FillFrame(individual: Grid, fixed: Mask, br: nat, bc: nat, pool: seq<int>, k: nat, r: Grid, missing: seq<int>)
    requires IsBoard(individual) && IsMask(fixed) && br < 3 && bc < 3 && k <= 9
  {
    var cells := BlockCells(br, bc);
    IsBoard(r) &&
    (forall c :: OnBoard(c) && (BlockOf(c) != (br, bc) || IsFixed(fixed, c)) ==> At(r, c) == At(individual, c)) &&
    (forall t :: k <= t < 9 ==> At(r, cells[t]) == At(individual, cells[t])) &&
    |missing| <= |pool| && missing == pool[..|missing|] &&
    |pool| - |missing| + |FixedValues(individual, fixed, cells[..k])| == k
  }

  /** ... and the block's first k values are its fixed values plus the
      popped ones. */
  ghost predicate Filling(individual: Grid, fixed: Mask, br: nat, bc: nat, pool: seq<int>, k: nat, r: Grid, missing: seq<int>)
    requires IsBoard(individual) && IsMask(fixed) && br < 3 && bc < 3 && k <= 9
  {
    FillFrame(individual, fixed, br, bc, pool, k, r, missing) &&
    FillTally(individual, fixed, br, bc, pool, k, r, missing)
  }

  ghost predicate FillTally(individual: Grid, fixed: Mask, br: nat, bc: nat, pool: seq<int>, k: nat, r: Grid, missing: seq<int>)
    requires IsBoard(individual) && IsMask(fixed) && br < 3 && bc < 3 && k <= 9
    requires IsBoard(r) && |missing| <= |pool|
  {
    multiset(BlockValues(r, br, bc)[..k]) ==
      multiset(FixedValues(individual, fixed, BlockCells(br, bc)[..k])) + multiset(pool[|missing|..])
  }

  /** Cell k of the block is handled: kept if fixed, else given the last
      value of `missing`, which is popped. */
  ghost predicate PopStep(fixed: Mask, cell: Cell, r: Grid, missing: seq<int>, r': Grid, missing': seq<int>)
    requires IsBoard(r) && IsMask(fixed) && OnBoard(cell)
  {
    if IsFixed(fixed, cell) then r' == r && missing' == missing
    else |missing| > 0 && r' == SetCell(r, cell, missing[|missing| - 1]) && missing' == missing[..|missing| - 1]
  }

  /** Splitting the block's cells at k + 1 and accounting for cell k. */
  lemma FixedValuesSplit(g: Grid, fixed: Mask, br: nat, bc: nat, k: nat)
    requires IsBoard(g) && IsMask(fixed) && br < 3 && bc < 3 && k < 9
    ensures var cells := BlockCells(br, bc);
      FixedValues(g, fixed, cells[..k + 1]) ==
        FixedValues(g, fixed, cells[..k]) + (if IsFixed(fixed, cells[k]) then [At(g, cells[k])] else []) &&
      |FixedNums(g, fixed, br, bc)| <= |FixedValues(g, fixed, cells[..k + 1])| + (8 - k)
  {
    BlockCellsAreTheBlock(br, bc);
    var cells := BlockCells(br, bc);
    assert cells[..k + 1] == cells[..k] + [cells[k]];
    FixedValuesAppend(g, fixed, cells[..k], [cells[k]]);
    assert cells[..k + 1] + cells[k + 1..] == cells;
    FixedValuesAppend(g, fixed, cells[..k + 1], cells[k + 1..]);
  }

  /** There is always a value left to pop for an unfixed cell. */
  lemma FillCanPop(individual: Grid, fixed: Mask, br: nat, bc: nat, pool: seq<int>, k: nat, r: Grid, missing: seq<int>)
    requires IsBoard(individual) && IsMask(fixed) && br < 3 && bc < 3 && k < 9
    requires |pool| + |FixedNums(individual, fixed, br, bc)| >= 9
    requires FillFrame(individual, fixed, br, bc, pool, k, r, missing)
    ensures !IsFixed(fixed, BlockCells(br, bc)[k]) ==> |missing| > 0
  {
    FixedValuesSplit(individual, fixed, br, bc, k);
  }

  lemma FillFrameStep(individual: Grid, fixed: Mask, br: nat, bc: nat, pool: seq<int>, k: nat,
                      r: Grid, missing: seq<int>, r': Grid, missing': seq<int>)
    requires IsBoard(individual) && IsMask(fixed) && br < 3 && bc < 3 && k < 9
    requires FillFrame(individual, fixed, br, bc, pool, k, r, missing)
    requires PopStep(fixed, BlockCells(br, bc)[k], r, missing, r', missing')
    ensures FillFrame(individual, fixed, br, bc, pool, k + 1, r', missing')
  {
    BlockCellsAreTheBlock(br, bc);
    FixedValuesSplit(individual, fixed, br, bc, k);
    var cells := BlockCells(br, bc);
    forall t | k + 1 <= t < 9 ensures At(r', cells[t]) == At(individual, cells[t]) {
      assert cells[t] != cells[k];
    }
  }

  lemma FillTallyStep(individual: Grid, fixed: Mask, br: nat, bc: nat, pool: seq<int>, k: nat,
                      r: Grid, missing: seq<int>, r': Grid, missing': seq<int>)
    requires IsBoard(individual) && IsMask(fixed) && br < 3 && bc < 3 && k < 9
    requires IsBoard(r) && |missing| <= |pool| && missing == pool[..|missing|]
    requires FillTally(individual, fixed, br, bc, pool, k, r, missing)
    requires At(r, BlockCells(br, bc)[k]) == At(individual, BlockCells(br, bc)[k])
    requires PopStep(fixed, BlockCells(br, bc)[k], r, missing, r', missing')
    ensures IsBoard(r') && |missing'| <= |pool|
    ensures FillTally(individual, fixed, br, bc, pool, k + 1, r', missing')
  {
    var cells := BlockCells(br, bc);
    forall t | 0 <= t < k ensures BlockValues(r', br, bc)[t] == BlockValues(r, br, bc)[t] {
      BlockCellsDiffer(br, bc, t, k);
    }
    PrefixExtend(BlockValues(r', br, bc), BlockValues(r, br, bc), k);
    FixedValuesSplit(individual, fixed, br, bc, k);
    if IsFixed(fixed, cells[k]) {
      FillTallyKeep(individual, fixed, br, bc, pool, k, r, missing);
    } else {
      LastOfPrefix(pool, missing, missing');
      PopFront(pool, |missing'|);
      FillTallyPop(individual, fixed, br, bc, pool, k, r, missing, r');
    }
  }

  /** A fixed cell adds its own value to both sides of the tally. */
  lemma FillTallyKeep(individual: Grid, fixed: Mask, br: nat, bc: nat, pool: seq<int>, k: nat, r: Grid, missing: seq<int>)
    requires IsBoard(individual) && IsMask(fixed) && br < 3 && bc < 3 && k < 9
    requires IsBoard(r) && |missing| <= |pool|
    requires FillTally(individual, fixed, br, bc, pool, k, r, missing)
    requires At(r, BlockCells(br, bc)[k]) == At(individual, BlockCells(br, bc)[k])
    requires multiset(BlockValues(r, br, bc)[..k + 1]) == multiset(BlockValues(r, br, bc)[..k]) + multiset{BlockValues(r, br, bc)[k]}
    requires var cells := BlockCells(br, bc);
      FixedValues(individual, fixed, cells[..k + 1]) == FixedValues(individual, fixed, cells[..k]) + [At(individual, cells[k])]
    ensures FillTally(individual, fixed, br, bc, pool, k + 1, r, missing)
  {
    var cells := BlockCells(br, bc);
    assert multiset(FixedValues(individual, fixed, cells[..k + 1])) ==
      multiset(FixedValues(individual, fixed, cells[..k])) + multiset{At(individual, cells[k])};
  }

  /** An unfixed cell takes the popped value, the pool's entry just past
      the shortened prefix. */
  lemma FillTallyPop(individual: Grid, fixed: Mask, br: nat, bc: nat, pool: seq<int>, k: nat, r: Grid, missing: seq<int>, r': Grid)
    requires IsBoard(individual) && IsMask(fixed) && br < 3 && bc < 3 && k < 9
    requires IsBoard(r) && IsBoard(r') && 0 < |missing| <= |pool|
    requires FillTally(individual, fixed, br, bc, pool, k, r, missing)
    requires BlockValues(r', br, bc)[k] == pool[|missing| - 1]
    requires multiset(pool[|missing| - 1..]) == multiset{pool[|missing| - 1]} + multiset(pool[|missing|..])
    requires multiset(BlockValues(r', br, bc)[..k + 1]) == multiset(BlockValues(r, br, bc)[..k]) + multiset{BlockValues(r', br, bc)[k]}
    requires var cells := BlockCells(br, bc);
      FixedValues(individual, fixed, cells[..k + 1]) == FixedValues(individual, fixed, cells[..k])
    ensures FillTally(individual, fixed, br, bc, pool, k + 1, r', missing[..|missing| - 1])
  {
  }

  lemma BlockCellsDiffer(br: nat, bc: nat, t: nat, k: nat)
    requires br < 3 && bc < 3 && t < k < 9
    ensures BlockCells(br, bc)[t] != BlockCells(br, bc)[k]
  {
    BlockCellsAreTheBlock(br, bc);
  }

  /** The value `pop` takes from a prefix of `pool` is the pool's entry just
      past the shortened prefix. */
  lemma LastOfPrefix(pool: seq<int>, missing: seq<int>, missing': seq<int>)
    requires 0 < |missing| <= |pool| && missing == pool[..|missing|] && missing' == missing[..|missing| - 1]
    ensures |missing'| < |pool| && missing[|missing| - 1] == pool[|missing'|]
  {
  }

  lemma FillStep(individual: Grid, fixed: Mask, br: nat, bc: nat, pool: seq<int>, k: nat,
                 r: Grid, missing: seq<int>, r': Grid, missing': seq<int>)
    requires IsBoard(individual) && IsMask(fixed) && br < 3 && bc < 3 && k < 9
    requires Filling(individual, fixed, br, bc, pool, k, r, missing)
    requires PopStep(fixed, BlockCells(br, bc)[k], r, missing, r', missing')
    ensures Filling(individual, fixed, br, bc, pool, k + 1, r', missing')
  {
    FillFrameStep(individual, fixed, br, bc, pool, k, r, missing, r', missing');
    FillTallyStep(individual, fixed, br, bc, pool, k, r, missing, r', missing');
  }

  /** Filling one block: the unfixed cells of the block, in order, receive
      `missing.pop()`, i.e. the values of `pool` from its end. */
  method FillBlock(individual: Grid, fixed: Mask, br: nat, bc: nat, pool: seq<int>) returns (r: Grid)
    requires IsBoard(individual) && IsMask(fixed) && br < 3 && bc < 3
    requires |pool| + |FixedNums(individual, fixed, br, bc)| >= 9
    ensures IsBoard(r)
    ensures forall c :: OnBoard(c) && (BlockOf(c) != (br, bc) || IsFixed(fixed, c)) ==> At(r, c) == At(individual, c)
    ensures exists rest :: 0 <= rest <= |pool| && rest + 9 == |pool| + |FixedNums(individual, fixed, br, bc)| &&
      multiset(BlockValues(r, br, bc)) == multiset(FixedNums(individual, fixed, br, bc)) + multiset(pool[rest..])
  {
    var indices := GetBlockIndices(br, bc);
    BlockCellsAreTheBlock(br, bc);
    var missing := pool;
    r := individual;
    for k := 0 to 9
      invariant Filling(individual, fixed, br, bc, pool, k, r, missing)
    {
      var cell := indices[k];
      FillCanPop(individual, fixed, br, bc, pool, k, r, missing);
      ghost var before, popped := r, missing;
      if !IsFixed(fixed, cell) {
        r := SetCell(r, cell, missing[|missing| - 1]);
        missing := missing[..|missing| - 1];
      }
      FillStep(individual, fixed, br, bc, pool, k, before, popped, r, missing);
    }
    assert BlockCells(br, bc)[..9] == BlockCells(br, bc);
    assert BlockValues(r, br, bc)[..9] == BlockValues(r, br, bc);
  }

  /** One block of `initialize_individual`: the block's fixed digits, the
      digits it lacks in the order `random.shuffle` left them (`shuffled`),
      and the unfixed cells filled by popping them. Only the block changes,
      the clues stay, and a block whose clues are distinct digits ends up
      holding 1..9 once each. */
  method InitializeBlock(puzzle: Grid, fixed: Mask, individual: Grid, br: nat, bc: nat, shuffled: seq<int>)
    returns (r: Grid)
    requires IsBoard(puzzle) && IsMask(fixed) && br < 3 && bc < 3
    requires IsBoard(individual) && KeepsFixed(puzzle, fixed, individual)
    requires multiset(shuffled) == multiset(Missing(FixedNums(puzzle, fixed, br, bc)))
    ensures IsBoard(r) && KeepsFixed(puzzle, fixed, r)
    ensures forall c :: OnBoard(c) && BlockOf(c) != (br, bc) ==> At(r, c) == At(individual, c)
    ensures forall b, d :: 0 <= b < 3 && 0 <= d < 3 && (b, d) != (br, bc) ==>
      BlockValues(r, b, d) == BlockValues(individual, b, d)
    ensures FixedDistinct(puzzle, fixed, br, bc) ==> multiset(BlockValues(r, br, bc)) == multiset(Range(1, 10))
  {
    BlockCellsAreTheBlock(br, bc);
    FixedValuesOnlyFixed(individual, puzzle, fixed, BlockCells(br, bc));
    ghost var fixedNums := FixedNums(individual, fixed, br, bc);
    assert fixedNums == FixedNums(puzzle, fixed, br, bc);
    var missing := shuffled;
    MissingBound(fixedNums);
    assert |missing| == |Missing(fixedNums)| by {
      assert |multiset(missing)| == |multiset(Missing(fixedNums))|;
    }
    r := FillBlock(individual, fixed, br, bc, missing);
    forall b, d | 0 <= b < 3 && 0 <= d < 3 && (b, d) != (br, bc)
      ensures BlockValues(r, b, d) == BlockValues(individual, b, d)
    {
      BlockCellsAreTheBlock(b, d);
    }
    if FixedDistinct(puzzle, fixed, br, bc) {
      FixedAndMissing(fixedNums);
    }
  }

  /** Block (b, d) of g holds 1..9 once each if its clues allow it. */
  ghost predicate BlockFilled(puzzle: Grid, fixed: Mask, g: Grid, b: nat, d: nat)
    requires IsBoard(puzzle) && IsMask(fixed) && IsBoard(g) && b < 3 && d < 3
  {
    FixedDistinct(puzzle, fixed, b, d) ==> multiset(BlockValues(g, b, d)) == multiset(Range(1, 10))
  }

  /** The blocks before (br, bc), in row-major order, are filled. */
  ghost predicate FilledBefore(puzzle: Grid, fixed: Mask, g: Grid, br: nat, bc: nat)
    requires IsBoard(puzzle) && IsMask(fixed) && IsBoard(g)
  {
    forall b, d :: 0 <= b < 3 && 0 <= d < 3 && (b < br || (b == br && d < bc)) ==> BlockFilled(puzzle, fixed, g, b, d)
  }

  /** Filling block (br, bc) without touching the other blocks extends the
      filled prefix by one block. */
  lemma FilledStep(puzzle: Grid, fixed: Mask, before: Grid, after: Grid, br: nat, bc: nat)
    requires IsBoard(puzzle) && IsMask(fixed) && IsBoard(before) && IsBoard(after) && br < 3 && bc < 3
    requires FilledBefore(puzzle, fixed, before, br, bc) && BlockFilled(puzzle, fixed, after, br, bc)
    requires forall b, d :: 0 <= b < 3 && 0 <= d < 3 && (b, d) != (br, bc) ==>
      BlockValues(after, b, d) == BlockValues(before, b, d)
    ensures FilledBefore(puzzle, fixed, after, br, bc + 1)
  {
    forall b: nat, d: nat | b < 3 && d < 3 && (b < br || (b == br && d < bc + 1))
      ensures BlockFilled(puzzle, fixed, after, b, d)
    {
      if b < br || (b == br && d < bc) {
        SameBlockFilled(puzzle, fixed, before, after, b, d);
      } else {
        assert b == br && d == bc;
      }
    }
  }

  lemma SameBlockFilled(puzzle: Grid, fixed: Mask, g: Grid, h: Grid, b: nat, d: nat)
    requires IsBoard(puzzle) && IsMask(fixed) && IsBoard(g) && IsBoard(h) && b < 3 && d < 3
    requires BlockValues(g, b, d) == BlockValues(h, b, d)
    ensures BlockFilled(puzzle, fixed, g, b, d) == BlockFilled(puzzle, fixed, h, b, d)
  {
  }

  /** One pass of the outer loop of `initialize_individual`: the three
      blocks of block row br. */
  method InitializeBlockRow(puzzle: Grid, fixed: Mask, individual: Grid, br: nat, shuffles: seq<seq<int>>)
    returns (r: Grid)
    requires IsBoard(puzzle) && IsMask(fixed) && br < 3 && |shuffles| == 9
    requires forall bc :: 0 <= bc < 3 ==>
      multiset(shuffles[3 * br + bc]) == multiset(Missing(FixedNums(puzzle, fixed, br, bc)))
    requires IsBoard(individual) && KeepsFixed(puzzle, fixed, individual)
    requires FilledBefore(puzzle, fixed, individual, br, 0)
    ensures IsBoard(r) && KeepsFixed(puzzle, fixed, r)
    ensures FilledBefore(puzzle, fixed, r, br + 1, 0)
  {
    r := individual;
    for bc := 0 to BlockSize
      invariant IsBoard(r) && KeepsFixed(puzzle, fixed, r)
      invariant FilledBefore(puzzle, fixed, r, br, bc)
    {
      ghost var before := r;
      r := InitializeBlock(puzzle, fixed, r, br, bc, shuffles[3 * br + bc]);
      FilledStep(puzzle, fixed, before, r, br, bc);
    }
  }

  /** `initialize_individual`: a copy of the puzzle whose unfixed cells are
      filled block by block from the shuffled missing digits of that block.
      `shuffles[3 * br + bc]` is the order `random.shuffle` left the missing
      digits of block (br, bc) in. */
  method InitializeIndividual(puzzle: Grid, fixed: Mask, shuffles: seq<seq<int>>) returns (individual: Grid)
    requires IsBoard(puzzle) && IsMask(fixed) && |shuffles| == 9
    requires forall br, bc :: 0 <= br < 3 && 0 <= bc < 3 ==>
      multiset(shuffles[3 * br + bc]) == multiset(Missing(FixedNums(puzzle, fixed, br, bc)))
    ensures IsBoard(individual) && KeepsFixed(puzzle, fixed, individual)
    ensures forall br, bc :: 0 <= br < 3 && 0 <= bc < 3 ==> BlockFilled(puzzle, fixed, individual, br, bc)
  {
    individual := puzzle;
    for br := 0 to BlockSize
      invariant IsBoard(individual) && KeepsFixed(puzzle, fixed, individual)
      invariant FilledBefore(puzzle, fixed, individual, br, 0)
    {
      individual := InitializeBlockRow(puzzle, fixed, individual, br, shuffles);
    }
    assert FilledBefore(puzzle, fixed, individual, 3, 0);
  }

  // ---------------------------------------------------------------------
  // fitness

  /** `[individual[row][col] for row in range(N)]` */
  function Column(g: Grid, col: nat): (s: seq<int>)
    requires IsBoard(g) && col < N
    ensures |s| == N && forall row :: 0 <= row < N ==> s[row] == g[row][col]
  {
    seq(N, row requires 0 <= row < N => g[row][col])
  }

  /** Repeated values over the first m rows. */
  function RowConflicts(g: Grid, m: nat): nat
    requires IsBoard(g) && m <= N
  {
    if m == 0 then 0 else RowConflicts(g, m - 1) + DupCount(g[m - 1])
  }

  /** Repeated values over the first m columns. */
  function ColumnConflicts(g: Grid, m: nat): nat
    requires IsBoard(g) && m <= N
  {
    if m == 0 then 0 else ColumnConflicts(g, m - 1) + DupCount(Column(g, m - 1))
  }

  /** The number of conflicts on rows and columns: for every row and every
      column, how many of its values repeat an earlier one. */
  function FitnessOf(g: Grid): nat
    requires IsBoard(g)
  {
    RowConflicts(g, |g|) + ColumnConflicts(g, |g|)
  }

  /** `fitness`: for each row, then each column, `len(line) - len(set(line))`
      summed. */
  method Fitness(individual: Grid) returns (conflicts: int)
    requires IsBoard(individual)
    ensures conflicts == FitnessOf(individual)
  {
    conflicts := 0;
    for i := 0 to N
      invariant conflicts == RowConflicts(individual, i)
    {
      var row := individual[i];
      DupCountIsLengthMinusDistinct(row);
      conflicts := conflicts + (|row| - |Elements(row)|);
    }
    for col := 0 to N
      invariant conflicts == RowConflicts(individual, |individual|) + ColumnConflicts(individual, col)
    {
      var column := seq(N, row requires 0 <= row < N => individual[row][col]);
      assert column == Column(individual, col);
      DupCountIsLengthMinusDistinct(column);
      conflicts := conflicts + (|column| - |Elements(column)|);
    }
  }

  lemma {:induction false} NoRowConflicts(g: Grid, m: nat)
    requires IsBoard(g) && m <= N
    ensures RowConflicts(g, m) == 0 <==> forall i :: 0 <= i < m ==> Distinct(g[i])
  {
    if m > 0 {
      NoRowConflicts(g, m - 1);
      NoDuplicatesIffDistinct(g[m - 1]);
    }
  }

  lemma {:induction false} NoColumnConflicts(g: Grid, m: nat)
    requires IsBoard(g) && m <= N
    ensures ColumnConflicts(g, m) == 0 <==> forall j :: 0 <= j < m ==> Distinct(Column(g, j))
  {
    if m > 0 {
      NoColumnConflicts(g, m - 1);
      NoDuplicatesIffDistinct(Column(g, m - 1));
    }
  }

  /** A solved board: digits 1..9 only, no repeat in any row, column or
      block. */
  ghost predicate IsSolved(g: Grid)
    requires IsBoard(g)
  {
    (forall i, j :: 0 <= i < N && 0 <= j < N ==> 1 <= g[i][j] <= 9) &&
    (forall i :: 0 <= i < N ==> Distinct(g[i])) &&
    (forall j :: 0 <= j < N ==> Distinct(Column(g, j))) &&
    (forall br, bc :: 0 <= br < 3 && 0 <= bc < 3 ==> Distinct(BlockValues(g, br, bc)))
  }

  lemma CellHoldsDigit(g: Grid, i: nat, j: nat)
    requires IsBoard(g) && BlocksArePermutations(g) && i < N && j < N
    ensures 1 <= g[i][j] <= 9
  {
    var br, bc := i / 3, j / 3;
    var k := 3 * (i % 3) + j % 3;
    assert BlockCells(br, bc)[k] == (i, j);
    assert BlockValues(g, br, bc)[k] == g[i][j];
    PermutationOfDigits(BlockValues(g, br, bc));
  }

  /** Every cell of a board whose blocks are permutations holds a digit. */
  lemma BlocksGiveDigits(g: Grid)
    requires IsBoard(g) && BlocksArePermutations(g)
    ensures forall i, j :: 0 <= i < N && 0 <= j < N ==> 1 <= g[i][j] <= 9
  {
    forall i, j | 0 <= i < N && 0 <= j < N ensures 1 <= g[i][j] <= 9 {
      CellHoldsDigit(g, i, j);
    }
  }

  /** With every block a permutation of 1..9 (which the operators keep),
      fitness 0 means exactly that the board is solved. */
  lemma ZeroFitnessIsSolved(g: Grid)
    requires IsBoard(g) && BlocksArePermutations(g)
    ensures FitnessOf(g) == 0 <==> IsSolved(g)
  {
    NoRowConflicts(g, |g|);
    NoColumnConflicts(g, |g|);
    BlocksGiveDigits(g);
    forall br, bc | 0 <= br < 3 && 0 <= bc < 3 ensures Distinct(BlockValues(g, br, bc)) {
      PermutationOfDigits(BlockValues(g, br, bc));
    }
  }

  // ---------------------------------------------------------------------
  // selection

  /** Candidate k wins the tournament as `min` picks it: no candidate is
      fitter, and every earlier one is strictly less fit. */
  predicate WinsTournament(fitnesses: seq<int>, candidates: seq<nat>, k: nat)
    requires k < |candidates| && forall i :: 0 <= i < |candidates| ==> candidates[i] < |fitnesses|
  {
    (forall i :: 0 <= i < k ==> fitnesses[candidates[i]] > fitnesses[candidates[k]]) &&
    (forall i :: 0 <= i < |candidates| ==> fitnesses[candidates[k]] <= fitnesses[candidates[i]])
  }

  /** `min(candidates, key=lambda idx: fitnesses[idx])`: the first candidate
      of least fitness. */
  function TournamentWinner(fitnesses: seq<int>, candidates: seq<nat>): (w: nat)
    requires |candidates| > 0 && forall k :: 0 <= k < |candidates| ==> candidates[k] < |fitnesses|
    ensures w < |fitnesses|
    ensures exists k :: 0 <= k < |candidates| && w == candidates[k] && WinsTournament(fitnesses, candidates, k)
  {
    if |candidates| == 1 then candidates[0]
    else
      var best := TournamentWinner(fitnesses, candidates[..|candidates| - 1]);
      var last := candidates[|candidates| - 1];
      if fitnesses[last] < fitnesses[best] then last else best
  }

  /** `selection`: one tournament per member of the population; `samples[t]`
      holds the candidates `random.sample` drew for tournament t. */
  method Selection(population: seq<Grid>, fitnesses: seq<int>, samples: seq<seq<nat>>, tournamentSize: nat)
    returns (selected: seq<Grid>)
    requires |fitnesses| == |population| && |samples| == |population| && tournamentSize > 0
    requires forall t :: 0 <= t < |samples| ==> |samples[t]| == tournamentSize
    requires forall t, k :: 0 <= t < |samples| && 0 <= k < tournamentSize ==> samples[t][k] < |population|
    ensures |selected| == |population|
    ensures forall t :: 0 <= t < |population| ==> selected[t] == population[TournamentWinner(fitnesses, samples[t])]
  {
    selected := [];
    var popSize := |population|;
    for t := 0 to popSize
      invariant |selected| == t
      invariant forall u :: 0 <= u < t ==> selected[u] == population[TournamentWinner(fitnesses, samples[u])]
    {
      var candidates := samples[t];
      var best := TournamentWinner(fitnesses, candidates);
      selected := selected + [population[best]];
    }
  }

  // ---------------------------------------------------------------------
  // Invariant of the population

  /** What every individual satisfies: a 9x9 board that keeps the clues and
      whose blocks hold 1..9 once each wherever the clues allow it. */
  ghost predicate Consistent(puzzle: Grid, fixed: Mask, g: Grid)
    requires IsBoard(puzzle) && IsMask(fixed)
  {
    IsBoard(g) && KeepsFixed(puzzle, fixed, g) &&
    forall b, d :: 0 <= b < 3 && 0 <= d < 3 ==> BlockFilled(puzzle, fixed, g, b, d)
  }

  /** A board whose blocks hold the same values as those of a consistent
      board, and which keeps the clues, is consistent. */
  lemma SameBlocksConsistent(puzzle: Grid, fixed: Mask, g: Grid, h: Grid)
    requires IsBoard(puzzle) && IsMask(fixed) && Consistent(puzzle, fixed, g)
    requires IsBoard(h) && KeepsFixed(puzzle, fixed, h)
    requires forall b, d :: 0 <= b < 3 && 0 <= d < 3 ==> multiset(BlockValues(h, b, d)) == multiset(BlockValues(g, b, d))
    ensures Consistent(puzzle, fixed, h)
  {
    forall b, d | 0 <= b < 3 && 0 <= d < 3 ensures BlockFilled(puzzle, fixed, h, b, d) {
      assert BlockFilled(puzzle, fixed, g, b, d);
    }
  }

  // ---------------------------------------------------------------------
  // crossover

  /** Block by block, the child takes the unfixed cells of parent2 where the
      block's coin came up (`flags[3 * br + bc]`) and parent1's elsewhere. */
  function CrossoverOf(parent1: Grid, parent2: Grid, fixed: Mask, flags: seq<bool>): (child: Grid)
    requires IsBoard(parent1) && IsBoard(parent2) && IsMask(fixed) && |flags| == 9
    ensures IsBoard(child)
    ensures forall c :: OnBoard(c) ==>
      At(child, c) == if flags[3 * BlockOf(c).0 + BlockOf(c).1] && !IsFixed(fixed, c) then At(parent2, c) else At(parent1, c)
  {
    seq(N, i requires 0 <= i < N =>
      seq(N, j requires 0 <= j < N =>
        if flags[3 * (i / 3) + j / 3] && !fixed[i][j] then parent2[i][j] else parent1[i][j]))
  }

  /** The inner loop of `crossover` for one block: copy parent2's unfixed
      cells of block (br, bc) into the child. */
  method CopyUnfixed(child: Grid, parent2: Grid, fixed: Mask, br: nat, bc: nat) returns (r: Grid)
    requires IsBoard(child) && IsBoard(parent2) && IsMask(fixed) && br < 3 && bc < 3
    ensures IsBoard(r)
    ensures forall c :: OnBoard(c) ==>
      At(r, c) == if BlockOf(c) == (br, bc) && !IsFixed(fixed, c) then At(parent2, c) else At(child, c)
  {
    var indices := GetBlockIndices(br, bc);
    BlockCellsAreTheBlock(br, bc);
    r := child;
    for k := 0 to 9
      invariant IsBoard(r)
      invariant forall c :: OnBoard(c) ==>
        At(r, c) == if c in indices[..k] && !IsFixed(fixed, c) then At(parent2, c) else At(child, c)
    {
      var cell := indices[k];
      assert indices[..k + 1] == indices[..k] + [cell];
      if !IsFixed(fixed, cell) {
        r := SetCell(r, cell, At(parent2, cell));
      }
    }
    assert indices[..9] == indices;
  }

  /** `crossover`: `flags[3 * br + bc]` is `random.random() < crossover_rate`
      for block (br, bc). */
  method Crossover(parent1: Grid, parent2: Grid, fixed: Mask, flags: seq<bool>) returns (child: Grid)
    requires IsBoard(parent1) && IsBoard(parent2) && IsMask(fixed) && |flags| == 9
    ensures child == CrossoverOf(parent1, parent2, fixed, flags)
  {
    child := parent1;
    for br := 0 to BlockSize
      invariant IsBoard(child)
      invariant forall c :: OnBoard(c) ==>
        At(child, c) == if BlockOf(c).0 < br && flags[3 * BlockOf(c).0 + BlockOf(c).1] && !IsFixed(fixed, c)
          then At(parent2, c) else At(parent1, c)
    {
      for bc := 0 to BlockSize
        invariant IsBoard(child)
        invariant forall c :: OnBoard(c) ==>
          At(child, c) ==
            if (BlockOf(c).0 < br || (BlockOf(c).0 == br && BlockOf(c).1 < bc)) &&
              flags[3 * BlockOf(c).0 + BlockOf(c).1] && !IsFixed(fixed, c)
            then At(parent2, c) else At(parent1, c)
      {
        if flags[3 * br + bc] {
          child := CopyUnfixed(child, parent2, fixed, br, bc);
        }
      }
    }
    BoardsEqual(child, CrossoverOf(parent1, parent2, fixed, flags));
  }

  /** Two boards with the same value in every cell are equal. */
  lemma BoardsEqual(g: Grid, h: Grid)
    requires IsBoard(g) && IsBoard(h) && forall c :: OnBoard(c) ==> At(g, c) == At(h, c)
    ensures g == h
  {
    forall i | 0 <= i < N ensures g[i] == h[i] {
      forall j | 0 <= j < N ensures g[i][j] == h[i][j] {
        assert At(g, (i, j)) == At(h, (i, j));
      }
    }
  }

  /** With parents that agree on the fixed cells, each block of the child is
      the whole block of one parent. */
  lemma CrossoverBlock(fixed: Mask, parent1: Grid, parent2: Grid, flags: seq<bool>, b: nat, d: nat)
    requires IsMask(fixed) && |flags| == 9 && IsBoard(parent1) && IsBoard(parent2) && b < 3 && d < 3
    requires forall c :: OnBoard(c) && IsFixed(fixed, c) ==> At(parent1, c) == At(parent2, c)
    ensures BlockValues(CrossoverOf(parent1, parent2, fixed, flags), b, d) ==
      if flags[3 * b + d] then BlockValues(parent2, b, d) else BlockValues(parent1, b, d)
  {
    var child := CrossoverOf(parent1, parent2, fixed, flags);
    var from := if flags[3 * b + d] then parent2 else parent1;
    forall k | 0 <= k < 9 ensures BlockValues(child, b, d)[k] == BlockValues(from, b, d)[k] {
      var c := BlockCells(b, d)[k];
      assert BlockOf(c) == (b, d);
    }
  }

  /** Consistent parents give a consistent child. */
  lemma CrossoverKeepsConsistent(puzzle: Grid, fixed: Mask, parent1: Grid, parent2: Grid, flags: seq<bool>)
    requires IsBoard(puzzle) && IsMask(fixed) && |flags| == 9
    requires Consistent(puzzle, fixed, parent1) && Consistent(puzzle, fixed, parent2)
    ensures Consistent(puzzle, fixed, CrossoverOf(parent1, parent2, fixed, flags))
  {
    var child := CrossoverOf(parent1, parent2, fixed, flags);
    forall b, d | 0 <= b < 3 && 0 <= d < 3 ensures BlockFilled(puzzle, fixed, child, b, d) {
      CrossoverBlock(fixed, parent1, parent2, flags, b, d);
      assert BlockFilled(puzzle, fixed, parent1, b, d) && BlockFilled(puzzle, fixed, parent2, b, d);
    }
  }

  // ---------------------------------------------------------------------
  // Swapping two cells

  /** `g[i1][j1], g[i2][j2] = g[i2][j2], g[i1][j1]`: both values are read
      before either cell is written. */
  function Swap(g: Grid, a: Cell, b: Cell): (r: Grid)
    requires IsBoard(g) && OnBoard(a) && OnBoard(b)
    ensures IsBoard(r) && At(r, a) == At(g, b) && At(r, b) == At(g, a)
    ensures forall c :: OnBoard(c) && c != a && c != b ==> At(r, c) == At(g, c)
  {
    SetCell(SetCell(g, a, At(g, b)), b, At(g, a))
  }

  /** Position of a cell within its block's row-by-row listing. */
  function BlockPos(c: Cell): (k: nat)
    requires OnBoard(c)
    ensures k < 9 && BlockCells(BlockOf(c).0, BlockOf(c).1)[k] == c
  {
    3 * (c.0 % 3) + c.1 % 3
  }

  lemma SwapMultiset(s: seq<int>, i: nat, j: nat)
    requires i < |s| && j < |s|
    ensures multiset(s[i := s[j]][j := s[i]]) == multiset(s)
  {
  }

  /** Swapping two cells of one block permutes that block's values. */
  lemma SwapSameBlock(g: Grid, a: Cell, b: Cell, br: nat, bc: nat)
    requires IsBoard(g) && OnBoard(a) && OnBoard(b) && BlockOf(a) == BlockOf(b) == (br, bc)
    ensures br < 3 && bc < 3
    ensures multiset(BlockValues(Swap(g, a, b), br, bc)) == multiset(BlockValues(g, br, bc))
  {
    SwapBlockValues(g, a, b, br, bc);
    SwapMultiset(BlockValues(g, br, bc), BlockPos(a), BlockPos(b));
  }

  /** Swapping two cells of one block swaps their entries in the block's
      listing. */
  lemma SwapBlockValues(g: Grid, a: Cell, b: Cell, br: nat, bc: nat)
    requires IsBoard(g) && OnBoard(a) && OnBoard(b) && BlockOf(a) == BlockOf(b) == (br, bc)
    ensures br < 3 && bc < 3
    ensures var s := BlockValues(g, br, bc);
      BlockValues(Swap(g, a, b), br, bc) == s[BlockPos(a) := s[BlockPos(b)]][BlockPos(b) := s[BlockPos(a)]]
  {
    var s := BlockValues(g, br, bc);
    var ka, kb := BlockPos(a), BlockPos(b);
    forall k | 0 <= k < 9 ensures BlockValues(Swap(g, a, b), br, bc)[k] == s[ka := s[kb]][kb := s[ka]][k] {
      SwapBlockEntry(g, a, b, br, bc, k);
    }
  }

  /** Entry k of the block listing after swapping two of its cells. */
  lemma SwapBlockEntry(g: Grid, a: Cell, b: Cell, br: nat, bc: nat, k: nat)
    requires IsBoard(g) && OnBoard(a) && OnBoard(b) && BlockOf(a) == BlockOf(b) == (br, bc) && k < 9
    ensures br < 3 && bc < 3
    ensures var s := BlockValues(g, br, bc);
      BlockValues(Swap(g, a, b), br, bc)[k] == s[BlockPos(a) := s[BlockPos(b)]][BlockPos(b) := s[BlockPos(a)]][k]
  {
    var ka, kb := BlockPos(a), BlockPos(b);
    if k != ka {
      if k < ka { BlockCellsDiffer(br, bc, k, ka); } else { BlockCellsDiffer(br, bc, ka, k); }
    }
    if k != kb {
      if k < kb { BlockCellsDiffer(br, bc, k, kb); } else { BlockCellsDiffer(br, bc, kb, k); }
    }
  }

  /** Swapping two cells of one block leaves another block as it was. */
  lemma SwapOtherBlock(g: Grid, a: Cell, b: Cell, br: nat, bc: nat)
    requires IsBoard(g) && OnBoard(a) && OnBoard(b) && BlockOf(a) == BlockOf(b)
    requires br < 3 && bc < 3 && (br, bc) != BlockOf(a)
    ensures BlockValues(Swap(g, a, b), br, bc) == BlockValues(g, br, bc)
  {
    BlockCellsAreTheBlock(br, bc);
    var cells := BlockCells(br, bc);
    forall k | 0 <= k < 9 ensures BlockValues(Swap(g, a, b), br, bc)[k] == BlockValues(g, br, bc)[k] {
      assert BlockOf(cells[k]) == (br, bc);
    }
  }

  /** Swapping two cells of one block permutes that block's values and
      leaves every other block as it was. */
  lemma SwapInBlock(g: Grid, a: Cell, b: Cell)
    requires IsBoard(g) && OnBoard(a) && OnBoard(b) && BlockOf(a) == BlockOf(b)
    ensures var (br, bc) := BlockOf(a);
      multiset(BlockValues(Swap(g, a, b), br, bc)) == multiset(BlockValues(g, br, bc))
    ensures forall br, bc :: 0 <= br < 3 && 0 <= bc < 3 && (br, bc) != BlockOf(a) ==>
      BlockValues(Swap(g, a, b), br, bc) == BlockValues(g, br, bc)
  {
    SwapSameBlock(g, a, b, BlockOf(a).0, BlockOf(a).1);
    forall br, bc | 0 <= br < 3 && 0 <= bc < 3 && (br, bc) != BlockOf(a)
      ensures BlockValues(Swap(g, a, b), br, bc) == BlockValues(g, br, bc)
    {
      SwapOtherBlock(g, a, b, br, bc);
    }
  }

  /** Swapping two unfixed cells of one block keeps a board consistent. */
  lemma SwapKeepsConsistent(puzzle: Grid, fixed: Mask, g: Grid, a: Cell, b: Cell)
    requires IsBoard(puzzle) && IsMask(fixed) && Consistent(puzzle, fixed, g)
    requires OnBoard(a) && OnBoard(b) && BlockOf(a) == BlockOf(b) && !IsFixed(fixed, a) && !IsFixed(fixed, b)
    ensures Consistent(puzzle, fixed, Swap(g, a, b))
  {
    SwapInBlock(g, a, b);
    SameBlocksConsistent(puzzle, fixed, g, Swap(g, a, b));
  }

  // ---------------------------------------------------------------------
  // mutate

  /** The unfixed cells of block (br, bc). */
  function Mutable(fixed: Mask, br: nat, bc: nat): (cells: seq<Cell>)
    requires IsMask(fixed) && br < 3 && bc < 3
    ensures forall k :: 0 <= k < |cells| ==> OnBoard(cells[k]) && !IsFixed(fixed, cells[k])
  {
    Unfixed(fixed, BlockCells(br, bc))
  }

  /** The unfixed cells of block (br, bc) lie in that block, without
      repeats. */
  lemma MutableInBlock(fixed: Mask, br: nat, bc: nat)
    requires IsMask(fixed) && br < 3 && bc < 3
    ensures var cells := Mutable(fixed, br, bc);
      (forall k :: 0 <= k < |cells| ==> BlockOf(cells[k]) == (br, bc)) &&
      (forall i, j :: 0 <= i < j < |cells| ==> cells[i] != cells[j])
  {
    BlockCellsAreTheBlock(br, bc);
  }

  /** The draws of `random.sample(mutable, 2)` for block (br, bc), as two
      positions in its mutable list, are two different positions when the
      block is mutated. */
  predicate PicksFit(fixed: Mask, flags: seq<bool>, picks: seq<(nat, nat)>, br: nat, bc: nat)
    requires IsMask(fixed) && |flags| == 9 && |picks| == 9 && br < 3 && bc < 3
  {
    var mutable := Mutable(fixed, br, bc);
    var p := picks[3 * br + bc];
    flags[3 * br + bc] && |mutable| >= 2 ==> p.0 != p.1 && p.0 < |mutable| && p.1 < |mutable|
  }

  /** The draws fit in every block. */
  predicate ValidPicks(fixed: Mask, flags: seq<bool>, picks: seq<(nat, nat)>)
    requires IsMask(fixed) && |flags| == 9 && |picks| == 9
  {
    forall br: nat, bc: nat :: br < 3 && bc < 3 ==> PicksFit(fixed, flags, picks, br, bc)
  }

  /** The swap `mutate` makes in block (br, bc), if any: when the block's
      coin came up and it has two unfixed cells. */
  function MutateStep(g: Grid, fixed: Mask, flags: seq<bool>, picks: seq<(nat, nat)>, br: nat, bc: nat): (r: Grid)
    requires IsBoard(g) && IsMask(fixed) && |flags| == 9 && |picks| == 9 && br < 3 && bc < 3
  {
    var mutable := Mutable(fixed, br, bc);
    var p := picks[3 * br + bc];
    if flags[3 * br + bc] && |mutable| >= 2 && p.0 < |mutable| && p.1 < |mutable| then
      Swap(g, mutable[p.0], mutable[p.1])
    else g
  }

  /** g after the swaps of `mutate` in the first n blocks of block row br. */
  function MutateRow(g: Grid, fixed: Mask, flags: seq<bool>, picks: seq<(nat, nat)>, br: nat, n: nat): (r: Grid)
    requires IsBoard(g) && IsMask(fixed) && |flags| == 9 && |picks| == 9 && br < 3 && n <= 3
    ensures IsBoard(r)
  {
    if n == 0 then g
    else MutateStep(MutateRow(g, fixed, flags, picks, br, n - 1), fixed, flags, picks, br, n - 1)
  }

  /** g after the swaps of `mutate` in the first m block rows. */
  function MutateBlocks(g: Grid, fixed: Mask, flags: seq<bool>, picks: seq<(nat, nat)>, m: nat): (r: Grid)
    requires IsBoard(g) && IsMask(fixed) && |flags| == 9 && |picks| == 9 && m <= 3
    ensures IsBoard(r)
  {
    if m == 0 then g
    else MutateRow(MutateBlocks(g, fixed, flags, picks, m - 1), fixed, flags, picks, m - 1, 3)
  }

  /** The body of `mutate` for block (br, bc). */
  method MutateBlock(individual: Grid, fixed: Mask, flags: seq<bool>, picks: seq<(nat, nat)>, br: nat, bc: nat,
                     ghost g: Grid)
    returns (r: Grid)
    requires IsBoard(individual) && IsMask(fixed) && |flags| == 9 && |picks| == 9 && br < 3 && bc < 3
    requires PicksFit(fixed, flags, picks, br, bc)
    requires IsBoard(g) && individual == MutateRow(g, fixed, flags, picks, br, bc)
    ensures r == MutateRow(g, fixed, flags, picks, br, bc + 1)
  {
    r := individual;
    if flags[3 * br + bc] {
      var indices := GetBlockIndices(br, bc);
      var mutable := Unfixed(fixed, indices);
      if |mutable| >= 2 {
        var c1, c2 := mutable[picks[3 * br + bc].0], mutable[picks[3 * br + bc].1];
        r := Swap(r, c1, c2);
      }
    }
  }

  /** One pass of the outer loop of `mutate`: the blocks of block row br. */
  method MutateBlockRow(individual: Grid, fixed: Mask, flags: seq<bool>, picks: seq<(nat, nat)>, br: nat)
    returns (r: Grid)
    requires IsBoard(individual) && IsMask(fixed) && |flags| == 9 && |picks| == 9 && br < 3
    requires ValidPicks(fixed, flags, picks)
    ensures r == MutateRow(individual, fixed, flags, picks, br, 3)
  {
    r := individual;
    for bc := 0 to BlockSize
      invariant r == MutateRow(individual, fixed, flags, picks, br, bc)
    {
      assert PicksFit(fixed, flags, picks, br, bc);
      r := MutateBlock(r, fixed, flags, picks, br, bc, individual);
    }
  }

  /** `mutate`: in each block whose coin came up (`flags[3 * br + bc]` is
      `random.random() < mutation_rate`) and that has two unfixed cells,
      swap the two unfixed cells `picks[3 * br + bc]` designates. */
  method Mutate(individual: Grid, fixed: Mask, flags: seq<bool>, picks: seq<(nat, nat)>) returns (mutated: Grid)
    requires IsBoard(individual) && IsMask(fixed) && |flags| == 9 && |picks| == 9
    requires ValidPicks(fixed, flags, picks)
    ensures mutated == MutateBlocks(individual, fixed, flags, picks, 3)
  {
    mutated := individual;
    for br := 0 to BlockSize
      invariant mutated == MutateBlocks(individual, fixed, flags, picks, br)
    {
      mutated := MutateBlockRow(mutated, fixed, flags, picks, br);
    }
  }

  // ---------------------------------------------------------------------
  // local_improvement

  /** h is g with values moved only among the unfixed cells of each block:
      the fixed cells are equal and every block holds the same values. */
  ghost predicate Rearranged(g: Grid, h: Grid, fixed: Mask)
    requires IsMask(fixed)
  {
    IsBoard(g) && IsBoard(h) &&
    (forall c :: OnBoard(c) && IsFixed(fixed, c) ==> At(h, c) == At(g, c)) &&
    forall b, d :: 0 <= b < 3 && 0 <= d < 3 ==> multiset(BlockValues(h, b, d)) == multiset(BlockValues(g, b, d))
  }

  lemma RearrangedTrans(g: Grid, h: Grid, k: Grid, fixed: Mask)
    requires IsMask(fixed) && Rearranged(g, h, fixed) && Rearranged(h, k, fixed)
    ensures Rearranged(g, k, fixed)
  {
  }

  /** Swapping two unfixed cells of block (br, bc) rearranges the board. */
  lemma SwapRearranges(g: Grid, fixed: Mask, br: nat, bc: nat, i: nat, j: nat)
    requires IsBoard(g) && IsMask(fixed) && br < 3 && bc < 3
    requires i < |Mutable(fixed, br, bc)| && j < |Mutable(fixed, br, bc)|
    ensures Rearranged(g, Swap(g, Mutable(fixed, br, bc)[i], Mutable(fixed, br, bc)[j]), fixed)
  {
    MutableInBlock(fixed, br, bc);
    SwapInBlock(g, Mutable(fixed, br, bc)[i], Mutable(fixed, br, bc)[j]);
  }

  /** The swap of `mutate` in block (br, bc), if it happens, rearranges the
      board. */
  lemma MutateStepRearranges(g: Grid, fixed: Mask, flags: seq<bool>, picks: seq<(nat, nat)>, br: nat, bc: nat)
    requires IsBoard(g) && IsMask(fixed) && |flags| == 9 && |picks| == 9 && br < 3 && bc < 3
    ensures Rearranged(g, MutateStep(g, fixed, flags, picks, br, bc), fixed)
  {
    var mutable := Mutable(fixed, br, bc);
    var p := picks[3 * br + bc];
    if flags[3 * br + bc] && |mutable| >= 2 && p.0 < |mutable| && p.1 < |mutable| {
      SwapRearranges(g, fixed, br, bc, p.0, p.1);
    }
  }

  /** The swaps of `mutate` in one block row rearrange the board. */
  lemma {:induction false} MutateRowRearranges(g: Grid, fixed: Mask, flags: seq<bool>, picks: seq<(nat, nat)>,
                                               br: nat, n: nat)
    requires IsBoard(g) && IsMask(fixed) && |flags| == 9 && |picks| == 9 && br < 3 && n <= 3
    ensures Rearranged(g, MutateRow(g, fixed, flags, picks, br, n), fixed)
  {
    if n > 0 {
      var h := MutateRow(g, fixed, flags, picks, br, n - 1);
      MutateRowRearranges(g, fixed, flags, picks, br, n - 1);
      MutateStepRearranges(h, fixed, flags, picks, br, n - 1);
      RearrangedTrans(g, h, MutateStep(h, fixed, flags, picks, br, n - 1), fixed);
    }
  }

  /** `mutate` only moves values among the unfixed cells of each block: the
      fixed cells keep their values and every block keeps its multiset of
      values, whatever the board. */
  lemma {:induction false} MutateRearranges(g: Grid, fixed: Mask, flags: seq<bool>, picks: seq<(nat, nat)>, m: nat)
    requires IsBoard(g) && IsMask(fixed) && |flags| == 9 && |picks| == 9 && m <= 3
    ensures Rearranged(g, MutateBlocks(g, fixed, flags, picks, m), fixed)
  {
    if m > 0 {
      var h := MutateBlocks(g, fixed, flags, picks, m - 1);
      MutateRearranges(g, fixed, flags, picks, m - 1);
      MutateRowRearranges(h, fixed, flags, picks, m - 1, 3);
      RearrangedTrans(g, h, MutateRow(h, fixed, flags, picks, m - 1, 3), fixed);
    }
  }

  /** `mutate` keeps a board consistent with the puzzle. */
  lemma MutateKeepsConsistent(puzzle: Grid, fixed: Mask, g: Grid, flags: seq<bool>, picks: seq<(nat, nat)>, m: nat)
    requires IsBoard(puzzle) && IsMask(fixed) && |flags| == 9 && |picks| == 9 && m <= 3
    requires Consistent(puzzle, fixed, g)
    ensures Consistent(puzzle, fixed, MutateBlocks(g, fixed, flags, picks, m))
  {
    MutateRearranges(g, fixed, flags, picks, m);
    RearrangedConsistent(puzzle, fixed, g, MutateBlocks(g, fixed, flags, picks, m));
  }

  /** A rearrangement of a consistent board is consistent. */
  lemma RearrangedConsistent(puzzle: Grid, fixed: Mask, g: Grid, h: Grid)
    requires IsBoard(puzzle) && IsMask(fixed) && Consistent(puzzle, fixed, g) && Rearranged(g, h, fixed)
    ensures Consistent(puzzle, fixed, h)
  {
    SameBlocksConsistent(puzzle, fixed, g, h);
  }

  /** The conflicts left after swapping cells a and b. */
  ghost function SwapFitness(g: Grid, a: Cell, b: Cell): nat
    requires IsBoard(g) && OnBoard(a) && OnBoard(b)
  {
    FitnessOf(Swap(g, a, b))
  }

  /** No swap of two of `cells` brings the conflicts below `fit`. */
  ghost predicate NoImprovingSwapAmong(g: Grid, cells: seq<Cell>, fit: int)
    requires IsBoard(g) && forall k :: 0 <= k < |cells| ==> OnBoard(cells[k])
  {
    forall i, j {:trigger SwapFitness(g, cells[i], cells[j])} :: 0 <= i < j < |cells| ==>
      SwapFitness(g, cells[i], cells[j]) >= fit
  }

  /** No swap of two unfixed cells of block (br, bc) brings the conflicts
      below `fit`. */
  ghost predicate NoImprovingSwap(g: Grid, fixed: Mask, br: nat, bc: nat, fit: int)
    requires IsBoard(g) && IsMask(fixed) && br < 3 && bc < 3
  {
    NoImprovingSwapAmong(g, Mutable(fixed, br, bc), fit)
  }

  /** No block before (br, bc), in row-by-row order, has a swap that brings
      the conflicts below `fit`. */
  ghost predicate ScannedBefore(g: Grid, fixed: Mask, br: nat, bc: nat, fit: int)
    requires IsBoard(g) && IsMask(fixed)
  {
    forall r: nat, c: nat :: r < 3 && c < 3 && (r < br || (r == br && c < bc)) ==> NoImprovingSwap(g, fixed, r, c, fit)
  }

  /** No swap `local_improvement` tries would lower the conflicts. */
  ghost predicate IsLocalOptimum(g: Grid, fixed: Mask)
    requires IsBoard(g) && IsMask(fixed)
  {
    ScannedBefore(g, fixed, 3, 0, FitnessOf(g))
  }

  /** `found` is a swap of two of `cells`, i < j, with the conflicts it
      leaves, fewer than `currentFitness`. */
  ghost predicate IsImprovementAmong(current: Grid, cells: seq<Cell>, found: (Grid, int), currentFitness: int)
    requires IsBoard(current) && forall k :: 0 <= k < |cells| ==> OnBoard(cells[k])
  {
    exists i, j {:trigger Swap(current, cells[i], cells[j])} :: 0 <= i < j < |cells| &&
      found.0 == Swap(current, cells[i], cells[j]) && found.1 == FitnessOf(found.0) < currentFitness
  }

  /** An improving swap of two unfixed cells of block (br, bc). */
  ghost predicate IsImprovement(current: Grid, fixed: Mask, br: nat, bc: nat, found: (Grid, int), currentFitness: int)
    requires IsBoard(current) && IsMask(fixed) && br < 3 && bc < 3
  {
    IsImprovementAmong(current, Mutable(fixed, br, bc), found, currentFitness)
  }

  /** `found` is the swap of cells i and j, i < j, with the conflicts it
      leaves, fewer than `currentFitness`, and no partner of i before j
      would have done so. */
  ghost predicate ImprovesAt(current: Grid, cells: seq<Cell>, found: (Grid, int), currentFitness: int, i: nat, j: nat)
    requires IsBoard(current) && forall k :: 0 <= k < |cells| ==> OnBoard(cells[k])
  {
    i < j < |cells| && found.0 == Swap(current, cells[i], cells[j]) && found.1 == FitnessOf(found.0) &&
    found.1 < currentFitness &&
    forall b :: i < b < j ==> SwapFitness(current, cells[i], cells[b]) >= currentFitness
  }

  /** No pair (a, b), a < b, with a before i would lower the conflicts
      below `currentFitness`. */
  ghost predicate NoImprovingSwapBefore(current: Grid, cells: seq<Cell>, currentFitness: int, i: nat)
    requires IsBoard(current) && forall k :: 0 <= k < |cells| ==> OnBoard(cells[k])
  {
    forall a, b :: 0 <= a < i && a < b < |cells| ==> SwapFitness(current, cells[a], cells[b]) >= currentFitness
  }

  lemma ImprovesAtIsImprovement(current: Grid, cells: seq<Cell>, found: (Grid, int), currentFitness: int, i: nat, j: nat)
    requires IsBoard(current) && forall k :: 0 <= k < |cells| ==> OnBoard(cells[k])
    requires ImprovesAt(current, cells, found, currentFitness, i, j)
    ensures IsImprovementAmong(current, cells, found, currentFitness)
  {
    assert found.0 == Swap(current, cells[i], cells[j]);
  }

  /** The swap of cells i and j of `cells`, with the conflicts it leaves. */
  ghost function SwapWith(g: Grid, cells: seq<Cell>, i: nat, j: nat): (r: (Grid, int))
    requires IsBoard(g) && i < |cells| && j < |cells| && OnBoard(cells[i]) && OnBoard(cells[j])
    ensures IsBoard(r.0) && r.1 == FitnessOf(r.0)
  {
    var h := Swap(g, cells[i], cells[j]);
    (h, FitnessOf(h))
  }

  /** The first partner b, j <= b, of cell i whose swap with it leaves fewer
      than `fit` conflicts: the inner loop of `local_improvement`. */
  ghost function FirstPartner(g: Grid, cells: seq<Cell>, fit: int, i: nat, j: nat): (r: Option<nat>)
    requires IsBoard(g) && forall k :: 0 <= k < |cells| ==> OnBoard(cells[k])
    requires i < |cells|
    ensures r.Some? ==> j <= r.value < |cells|
    decreases |cells| - j
  {
    if j >= |cells| then None
    else if SwapFitness(g, cells[i], cells[j]) < fit then Some(j)
    else FirstPartner(g, cells, fit, i, j + 1)
  }

  /** The blocks bc.. of block row br in one pass of `local_improvement`,
      from the board g and the flag: blocks with fewer than two unfixed
      cells are skipped, and the row is left after the first block scanned
      once the flag is set. */
  ghost function RowPass(g: Grid, fixed: Mask, br: nat, bc: nat, improved: bool): (r: (Grid, bool))
    requires IsBoard(g) && IsMask(fixed) && br < 3
    ensures IsBoard(r.0) && (improved ==> r.1)
    decreases 3 - bc
  {
    if bc >= 3 then (g, improved)
    else
      var cells := Mutable(fixed, br, bc);
      if |cells| < 2 then RowPass(g, fixed, br, bc + 1, improved)
      else match ScanOf(g, cells, FitnessOf(g), improved)
        case Some(found) => (found.0, true)
        case None => if improved then (g, improved) else RowPass(g, fixed, br, bc + 1, improved)
  }

  /** The block rows br.. of one pass of `local_improvement`. */
  ghost function PassFrom(g: Grid, fixed: Mask, br: nat, improved: bool): (r: (Grid, bool))
    requires IsBoard(g) && IsMask(fixed)
    ensures IsBoard(r.0)
    decreases 3 - br
  {
    if br >= 3 then (g, improved)
    else
      var row := RowPass(g, fixed, br, 0, improved);
      PassFrom(row.0, fixed, br + 1, row.1)
  }

  /** One pass of the `while` loop of `local_improvement`: the board it
      leaves, and whether it took a swap. */
  ghost function PassOf(g: Grid, fixed: Mask): (r: (Grid, bool))
    requires IsBoard(g) && IsMask(fixed)
    ensures IsBoard(r.0)
  {
    PassFrom(g, fixed, 0, false)
  }

  /** `local_improvement(g, fixed, iterations)`: passes while the last one
      took a swap, at most `iterations` of them. */
  ghost function ImproveOf(g: Grid, fixed: Mask, iterations: int): (r: Grid)
    requires IsBoard(g) && IsMask(fixed)
    ensures IsBoard(r)
    decreases if iterations > 0 then iterations else 0
  {
    if iterations <= 0 then g
    else
      var pass := PassOf(g, fixed);
      if pass.1 then ImproveOf(pass.0, fixed, iterations - 1) else pass.0
  }

  /** The pair loops of `local_improvement` over one block's unfixed cells:
      the first pair (idx1, idx2), idx1 < idx2, in the loops' order, whose
      swap lowers the conflicts below `currentFitness`, with the board and
      its fitness. `improved` is the flag as the loops find it: when a swap
      was already taken in an earlier block row, the `if improved: break`
      after the inner loop stops the scan after idx1 = 0. */
  method ScanPairs(current: Grid, currentFitness: int, nonFixed: seq<Cell>, improved: bool) returns (found: Option<(Grid, int)>)
    requires IsBoard(current) && forall k :: 0 <= k < |nonFixed| ==> OnBoard(nonFixed[k])
    ensures found.Some? ==> IsImprovementAmong(current, nonFixed, found.value, currentFitness)
    ensures found.Some? ==>
      exists i, j :: ImprovesAt(current, nonFixed, found.value, currentFitness, i, j) &&
        NoImprovingSwapBefore(current, nonFixed, currentFitness, i) && (improved ==> i == 0)
    ensures found.None? && !improved ==> NoImprovingSwapAmong(current, nonFixed, currentFitness)
    ensures found.None? && improved && |nonFixed| > 0 ==> NoImprovingSwapBefore(current, nonFixed, currentFitness, 1)
    ensures found == ScanOf(current, nonFixed, currentFitness, improved)
  {
    for idx1 := 0 to |nonFixed|
      invariant NoImprovingSwapBefore(current, nonFixed, currentFitness, idx1)
      invariant improved ==> idx1 == 0
      invariant ScanOf(current, nonFixed, currentFitness, improved) ==
                PairScanFrom(current, nonFixed, currentFitness, idx1, improved)
    {
      found := ScanPartners(current, currentFitness, nonFixed, idx1);
      PartnerScanIsFirst(current, nonFixed, currentFitness, idx1);
      if found.Some? {
        ghost var j :| ImprovesAt(current, nonFixed, found.value, currentFitness, idx1, j);
        ImprovesAtIsImprovement(current, nonFixed, found.value, currentFitness, idx1, j);
        return found;
      }
      if improved {
        return found;
      }
    }
    return None;
  }

  /** `PartnerScan` resumed at partner j: the swap with the first
      improving partner from j on, or nothing. */
  ghost function PartnerScanFrom(g: Grid, cells: seq<Cell>, fit: int, i: nat, j: nat): (r: Option<(Grid, int)>)
    requires IsBoard(g) && (forall k :: 0 <= k < |cells| ==> OnBoard(cells[k])) && i < |cells|
    ensures r.Some? ==> IsBoard(r.value.0)
  {
    match FirstPartner(g, cells, fit, i, j)
    case None => None
    case Some(b) => Some(SwapWith(g, cells, i, b))
  }

  /** What the inner loop of `local_improvement` finds for idx1 = i: the
      swap with the first improving partner, or nothing. */
  ghost function PartnerScan(g: Grid, cells: seq<Cell>, fit: int, i: nat): (r: Option<(Grid, int)>)
    requires IsBoard(g) && (forall k :: 0 <= k < |cells| ==> OnBoard(cells[k])) && i < |cells|
    ensures r.Some? ==> IsBoard(r.value.0)
  {
    PartnerScanFrom(g, cells, fit, i, i + 1)
  }

  /** The pair loops of one block from idx1 = i on: the first improving
      swap in loop order. With the flag already set only idx1 = i is
      tried. */
  ghost function PairScanFrom(g: Grid, cells: seq<Cell>, fit: int, i: nat, improved: bool): (r: Option<(Grid, int)>)
    requires IsBoard(g) && forall k :: 0 <= k < |cells| ==> OnBoard(cells[k])
    ensures r.Some? ==> IsBoard(r.value.0)
    decreases |cells| - i
  {
    if i >= |cells| then None
    else match PartnerScan(g, cells, fit, i)
      case Some(found) => Some(found)
      case None => if improved then None else PairScanFrom(g, cells, fit, i + 1, improved)
  }

  /** What the pair loops of one block find: the first improving swap in
      loop order, with the board it makes and that board's conflicts. */
  ghost function ScanOf(g: Grid, cells: seq<Cell>, fit: int, improved: bool): (r: Option<(Grid, int)>)
    requires IsBoard(g) && forall k :: 0 <= k < |cells| ==> OnBoard(cells[k])
    ensures r.Some? ==> IsBoard(r.value.0)
  {
    PairScanFrom(g, cells, fit, 0, improved)
  }

  /** The inner loop of `local_improvement`: the first idx2 > idx1 whose
      swap with idx1 lowers the conflicts below `currentFitness`. */
  method ScanPartners(current: Grid, currentFitness: int, nonFixed: seq<Cell>, idx1: nat) returns (found: Option<(Grid, int)>)
    requires IsBoard(current) && forall k :: 0 <= k < |nonFixed| ==> OnBoard(nonFixed[k])
    requires idx1 < |nonFixed|
    ensures found == PartnerScan(current, nonFixed, currentFitness, idx1)
  {
    for idx2 := idx1 + 1 to |nonFixed|
      invariant PartnerScan(current, nonFixed, currentFitness, idx1) ==
                PartnerScanFrom(current, nonFixed, currentFitness, idx1, idx2)
    {
      var newInd := Swap(current, nonFixed[idx1], nonFixed[idx2]);
      var newFit := Fitness(newInd);
      PartnerScanStep(current, nonFixed, currentFitness, idx1, idx2, newInd, newFit);
      if newFit < currentFitness {
        return Some((newInd, newFit));
      }
    }
    PartnerScanEnd(current, nonFixed, currentFitness, idx1);
    return None;
  }

  /** One step of the inner loop: the swap with partner j either improves,
      and is what the scan finds, or leaves the scan to the next partner. */
  lemma PartnerScanStep(g: Grid, cells: seq<Cell>, fit: int, i: nat, j: nat, h: Grid, hFit: int)
    requires IsBoard(g) && (forall k :: 0 <= k < |cells| ==> OnBoard(cells[k])) && i < j < |cells|
    requires h == Swap(g, cells[i], cells[j]) && hFit == FitnessOf(h)
    ensures PartnerScanFrom(g, cells, fit, i, j) ==
      if hFit < fit then Some((h, hFit)) else PartnerScanFrom(g, cells, fit, i, j + 1)
  {
    assert SwapFitness(g, cells[i], cells[j]) == hFit;
  }

  lemma PartnerScanEnd(g: Grid, cells: seq<Cell>, fit: int, i: nat)
    requires IsBoard(g) && (forall k :: 0 <= k < |cells| ==> OnBoard(cells[k])) && i < |cells|
    ensures PartnerScanFrom(g, cells, fit, i, |cells|) == None
  {
  }

  /** The scan finds the swap with the first improving partner of i: an
      improvement, no partner before it improving; when it finds nothing,
      no partner of i improves. */
  lemma PartnerScanIsFirst(g: Grid, cells: seq<Cell>, fit: int, i: nat)
    requires IsBoard(g) && (forall k :: 0 <= k < |cells| ==> OnBoard(cells[k])) && i < |cells|
    ensures PartnerScan(g, cells, fit, i).Some? ==>
      exists j :: ImprovesAt(g, cells, PartnerScan(g, cells, fit, i).value, fit, i, j)
    ensures PartnerScan(g, cells, fit, i).None? ==>
      forall j :: i < j < |cells| ==> SwapFitness(g, cells[i], cells[j]) >= fit
  {
    var r := FirstPartner(g, cells, fit, i, i + 1);
    if r.Some? {
      FirstPartnerIsFirst(g, cells, fit, i, i + 1);
      assert ImprovesAt(g, cells, PartnerScan(g, cells, fit, i).value, fit, i, r.value);
    } else {
      NoFirstPartner(g, cells, fit, i, i + 1);
    }
  }

  /** A partner `FirstPartner` finds improves, and no partner between j
      and it does. */
  lemma {:induction false} FirstPartnerIsFirst(g: Grid, cells: seq<Cell>, fit: int, i: nat, j: nat)
    requires IsBoard(g) && (forall k :: 0 <= k < |cells| ==> OnBoard(cells[k])) && i < |cells|
    requires FirstPartner(g, cells, fit, i, j).Some?
    ensures SwapFitness(g, cells[i], cells[FirstPartner(g, cells, fit, i, j).value]) < fit
    ensures forall b :: j <= b < FirstPartner(g, cells, fit, i, j).value ==> SwapFitness(g, cells[i], cells[b]) >= fit
    decreases |cells| - j
  {
    if SwapFitness(g, cells[i], cells[j]) >= fit {
      FirstPartnerIsFirst(g, cells, fit, i, j + 1);
    }
  }

  /** When `FirstPartner` finds nothing, no partner from j on improves. */
  lemma {:induction false} NoFirstPartner(g: Grid, cells: seq<Cell>, fit: int, i: nat, j: nat)
    requires IsBoard(g) && (forall k :: 0 <= k < |cells| ==> OnBoard(cells[k])) && i < |cells|
    requires FirstPartner(g, cells, fit, i, j).None?
    ensures forall b :: j <= b < |cells| ==> SwapFitness(g, cells[i], cells[b]) >= fit
    decreases |cells| - j
  {
    if j < |cells| {
      NoFirstPartner(g, cells, fit, i, j + 1);
    }
  }

  /** A local optimum has no improving swap in any block. */
  lemma LocalOptimumNoImprovement(g: Grid, fixed: Mask, br: nat, bc: nat, found: (Grid, int))
    requires IsBoard(g) && IsMask(fixed) && br < 3 && bc < 3
    ensures IsLocalOptimum(g, fixed) ==> !IsImprovement(g, fixed, br, bc, found, FitnessOf(g))
  {
    if IsLocalOptimum(g, fixed) {
      var cells := Mutable(fixed, br, bc);
      assert NoImprovingSwap(g, fixed, br, bc, FitnessOf(g));
      forall i, j | 0 <= i < j < |cells| && found.0 == Swap(g, cells[i], cells[j])
        ensures FitnessOf(found.0) >= FitnessOf(g)
      {
        assert SwapFitness(g, cells[i], cells[j]) >= FitnessOf(g);
      }
    }
  }

  lemma ScannedStep(g: Grid, fixed: Mask, br: nat, bc: nat, fit: int)
    requires IsBoard(g) && IsMask(fixed) && br < 3 && bc < 3
    requires ScannedBefore(g, fixed, br, bc, fit) && NoImprovingSwap(g, fixed, br, bc, fit)
    ensures ScannedBefore(g, fixed, br, bc + 1, fit)
  {
  }

  lemma ScannedRow(g: Grid, fixed: Mask, br: nat, fit: int)
    requires IsBoard(g) && IsMask(fixed) && br < 3
    requires ScannedBefore(g, fixed, br, 3, fit)
    ensures ScannedBefore(g, fixed, br + 1, 0, fit)
  {
  }

  /** Taking the improving swap `found` of block (br, bc) keeps a
      rearrangement of `start`. */
  lemma TakeImprovement(start: Grid, current: Grid, fixed: Mask, br: nat, bc: nat, found: (Grid, int), currentFitness: int)
    requires IsBoard(current) && IsMask(fixed) && br < 3 && bc < 3
    requires Rearranged(start, current, fixed) && IsImprovement(current, fixed, br, bc, found, currentFitness)
    ensures Rearranged(start, found.0, fixed) && found.1 == FitnessOf(found.0) < currentFitness
  {
    var cells := Mutable(fixed, br, bc);
    var i, j :| 0 <= i < j < |cells| && found.0 == Swap(current, cells[i], cells[j]);
    SwapRearranges(current, fixed, br, bc, i, j);
    RearrangedTrans(start, current, found.0, fixed);
  }

  /** What a pass has established on reaching block (br, bc): a
      rearrangement of `start` with its conflicts, at most one swap per
      block row so far, each lowering the conflicts, and while no swap has
      been taken every block before (br, bc) has no improving swap. */
  ghost predicate PassSoFar(start: Grid, fixed: Mask, br: nat, bc: nat,
                            current: Grid, currentFitness: int, improved: bool, swaps: nat)
    requires IsBoard(start) && IsMask(fixed)
  {
    Rearranged(start, current, fixed) && currentFitness == FitnessOf(current) &&
    swaps <= br && (improved <==> swaps > 0) && currentFitness + swaps <= FitnessOf(start) &&
    (!improved ==> current == start && ScannedBefore(start, fixed, br, bc, FitnessOf(start))) &&
    (IsLocalOptimum(start, fixed) ==> !improved)
  }

  /** A block with fewer than two unfixed cells leaves the row pass to the next block. */
  lemma RowPassSkip(g: Grid, fixed: Mask, br: nat, bc: nat, improved: bool)
    requires IsBoard(g) && IsMask(fixed) && br < 3 && bc < 3 && |Mutable(fixed, br, bc)| < 2
    ensures RowPass(g, fixed, br, bc, improved) == RowPass(g, fixed, br, bc + 1, improved)
  {
  }

  /** The scan of a block with two or more unfixed cells decides the row pass. */
  lemma RowPassScan(g: Grid, fixed: Mask, br: nat, bc: nat, improved: bool, found: Option<(Grid, int)>)
    requires IsBoard(g) && IsMask(fixed) && br < 3 && bc < 3 && |Mutable(fixed, br, bc)| >= 2
    requires found == ScanOf(g, Mutable(fixed, br, bc), FitnessOf(g), improved)
    ensures RowPass(g, fixed, br, bc, improved) ==
      if found.Some? then (found.value.0, true)
      else if improved then (g, improved)
      else RowPass(g, fixed, br, bc + 1, improved)
  {
  }

  /** The pass from block row `br` is the pass of that row followed by the rest. */
  lemma PassFromRow(g: Grid, fixed: Mask, br: nat, improved: bool, row: (Grid, bool))
    requires IsBoard(g) && IsMask(fixed) && br < 3 && row == RowPass(g, fixed, br, 0, improved)
    ensures PassFrom(g, fixed, br, improved) == PassFrom(row.0, fixed, br + 1, row.1)
  {
  }

  /** One iteration of the inner `for` loop of a pass, at block (br, bc):
      `stop` is the `break` out of the block row, and the row pass from
      (br, bc) is what comes back when it stops, or the row pass from the
      next block otherwise. */
  method VisitBlock(start: Grid, fixed: Mask, br: nat, bc: nat, g: Grid, gFitness: int, gImproved: bool, ghost gSwaps: nat)
    returns (current: Grid, currentFitness: int, improved: bool, ghost swaps: nat, stop: bool)
    requires IsBoard(start) && IsMask(fixed) && br < 3 && bc < 3
    requires PassSoFar(start, fixed, br, bc, g, gFitness, gImproved, gSwaps)
    ensures stop ==> improved && PassSoFar(start, fixed, br + 1, 0, current, currentFitness, improved, swaps)
    ensures stop ==> (current, improved) == RowPass(g, fixed, br, bc, gImproved)
    ensures !stop ==> PassSoFar(start, fixed, br, bc + 1, current, currentFitness, improved, swaps)
    ensures !stop ==> RowPass(current, fixed, br, bc + 1, improved) == RowPass(g, fixed, br, bc, gImproved)
  {
    current, currentFitness, improved, swaps, stop := g, gFitness, gImproved, gSwaps, false;
    var indices := GetBlockIndices(br, bc);
    var nonFixed := Unfixed(fixed, indices);
    assert nonFixed == Mutable(fixed, br, bc);
    if |nonFixed| < 2 {
      RowPassSkip(g, fixed, br, bc, gImproved);
      if !improved {
        ScannedStep(start, fixed, br, bc, currentFitness);
      }
      return;
    }
    var found := ScanPairs(g, gFitness, nonFixed, gImproved);
    RowPassScan(g, fixed, br, bc, gImproved, found);
    if found.Some? {
      if !gImproved {
        LocalOptimumNoImprovement(start, fixed, br, bc, found.value);
      }
      TakeImprovement(start, g, fixed, br, bc, found.value, gFitness);
      current, currentFitness := found.value.0, found.value.1;
      improved, swaps, stop := true, gSwaps + 1, true;
      return;
    }
    if improved {
      stop := true;
      return;
    }
    ScannedStep(start, fixed, br, bc, currentFitness);
  }

  /** The inner `for` loop of one pass over block row `br`: the blocks are
      visited left to right, and the row ends at the first block that yields a
      swap, or at the first block with two unfixed cells once a swap has been
      taken in an earlier row. */
  method ImproveRow(start: Grid, fixed: Mask, br: nat, g: Grid, gFitness: int, gImproved: bool, ghost gSwaps: nat)
    returns (current: Grid, currentFitness: int, improved: bool, ghost swaps: nat)
    requires IsBoard(start) && IsMask(fixed) && br < 3
    requires PassSoFar(start, fixed, br, 0, g, gFitness, gImproved, gSwaps)
    ensures PassSoFar(start, fixed, br + 1, 0, current, currentFitness, improved, swaps)
    ensures (current, improved) == RowPass(g, fixed, br, 0, gImproved)
  {
    current, currentFitness, improved, swaps := g, gFitness, gImproved, gSwaps;
    for bc := 0 to BlockSize
      invariant PassSoFar(start, fixed, br, bc, current, currentFitness, improved, swaps)
      invariant RowPass(current, fixed, br, bc, improved) == RowPass(g, fixed, br, 0, gImproved)
    {
      var stop;
      current, currentFitness, improved, swaps, stop := VisitBlock(start, fixed, br, bc, current, currentFitness, improved, swaps);
      if stop {
        return;
      }
    }
    if !improved {
      ScannedRow(start, fixed, br, currentFitness);
    }
  }

  /** One pass of the `while` loop of `local_improvement` over the blocks.
      Blocks with fewer than two unfixed cells are skipped. Once a swap is
      taken, the `break`s leave the block row; the later block rows each
      scan their first block with two unfixed cells, pairs (0, idx2) only,
      against the improved board. `improved` is false exactly when no block
      has an improving swap, and then the board is unchanged. The board and
      flag that come back are those of `PassOf`. */
  method ImprovementPass(start: Grid, startFitness: int, fixed: Mask)
    returns (current: Grid, currentFitness: int, improved: bool, ghost swaps: nat)
    requires IsBoard(start) && IsMask(fixed) && startFitness == FitnessOf(start)
    ensures Rearranged(start, current, fixed) && currentFitness == FitnessOf(current)
    ensures swaps <= BlockSize && (improved <==> swaps > 0) && currentFitness + swaps <= startFitness
    ensures !improved ==> current == start && IsLocalOptimum(start, fixed)
    ensures IsLocalOptimum(start, fixed) ==> !improved
    ensures (current, improved) == PassOf(start, fixed)
  {
    current, currentFitness, improved, swaps := start, startFitness, false, 0;
    for br := 0 to BlockSize
      invariant PassSoFar(start, fixed, br, 0, current, currentFitness, improved, swaps)
      invariant PassFrom(current, fixed, br, improved) == PassOf(start, fixed)
    {
      var next, nextFitness, nextImproved, nextSwaps := ImproveRow(start, fixed, br, current, currentFitness, improved, swaps);
      PassFromRow(current, fixed, br, improved, (next, nextImproved));
      current, currentFitness, improved, swaps := next, nextFitness, nextImproved, nextSwaps;
    }
  }

  /** `local_improvement`: at most `iterations` passes, stopping early after
      a pass that takes no swap; the board that comes back is `ImproveOf`.
      The result is a rearrangement of the input;
      every swap taken lowers the conflicts, a pass takes at most one swap
      per block row, and either no improving swap remains or every pass
      lowered the conflicts. */
  method LocalImprovement(individual: Grid, fixed: Mask, iterations: int) returns (current: Grid, ghost swaps: nat)
    requires IsBoard(individual) && IsMask(fixed)
    ensures Rearranged(individual, current, fixed)
    ensures FitnessOf(current) + swaps <= FitnessOf(individual)
    ensures swaps <= BlockSize * (if iterations > 0 then iterations else 0)
    ensures IsLocalOptimum(current, fixed) || FitnessOf(current) + iterations <= FitnessOf(individual)
    ensures current == ImproveOf(individual, fixed, iterations)
  {
    current := individual;
    swaps := 0;
    var currentFitness := Fitness(current);
    var improved := true;
    var remaining := iterations;
    while improved && remaining > 0
      invariant Rearranged(individual, current, fixed)
      invariant currentFitness == FitnessOf(current) && FitnessOf(current) + swaps <= FitnessOf(individual)
      invariant swaps <= BlockSize * (iterations - remaining) && (remaining < iterations ==> remaining >= 0)
      invariant improved ==> FitnessOf(current) + (iterations - remaining) <= FitnessOf(individual)
      invariant !improved ==> IsLocalOptimum(current, fixed)
      invariant improved ==> ImproveOf(current, fixed, remaining) == ImproveOf(individual, fixed, iterations)
      invariant !improved ==> current == ImproveOf(individual, fixed, iterations)
      decreases remaining
    {
      ghost var before := current;
      var next, nextFitness, passImproved, passSwaps := ImprovementPass(current, currentFitness, fixed);
      RearrangedTrans(individual, before, next, fixed);
      current, currentFitness, improved := next, nextFitness, passImproved;
      swaps := swaps + passSwaps;
      remaining := remaining - 1;
    }
  }

  // ---------------------------------------------------------------------
  // Elitism: `sorted(zip(fitnesses, population), key=lambda x: x[0])`

  /** Index a comes before index b in a stable sort by fitness: lower
      fitness first, ties in their original order. */
  predicate Before(fitnesses: seq<int>, a: nat, b: nat)
    requires a < |fitnesses| && b < |fitnesses|
  {
    fitnesses[a] < fitnesses[b] || (fitnesses[a] == fitnesses[b] && a < b)
  }

  predicate InStableOrder(fitnesses: seq<int>, order: seq<nat>)
  {
    (forall k :: 0 <= k < |order| ==> order[k] < |fitnesses|) &&
    forall k, l :: 0 <= k < l < |order| ==> Before(fitnesses, order[k], order[l])
  }

  /** Inserting index i, larger than every index already placed, behind
      every index of no greater fitness. */
  function Insert(fitnesses: seq<int>, order: seq<nat>, i: nat): (r: seq<nat>)
    requires i < |fitnesses| && InStableOrder(fitnesses, order)
    requires forall k :: 0 <= k < |order| ==> order[k] < i
    ensures InStableOrder(fitnesses, r)
    ensures |r| == |order| + 1 && forall x :: x in r <==> x in order || x == i
  {
    if order == [] then [i]
    else if fitnesses[order[0]] > fitnesses[i] then [i] + order
    else
      var rest := Insert(fitnesses, order[1..], i);
      var r := [order[0]] + rest;
      forall l | 1 <= l < |r| ensures Before(fitnesses, order[0], r[l]) {
        assert r[l] == rest[l - 1] && rest[l - 1] in rest;
        if r[l] != i {
          assert r[l] in order[1..];
          var j :| 0 <= j < |order[1..]| && order[1..][j] == r[l];
          assert order[j + 1] == r[l];
        }
      }
      r
  }

  /** The indices 0..m-1 sorted stably by fitness. */
  function SortedOrder(fitnesses: seq<int>, m: nat): (order: seq<nat>)
    requires m <= |fitnesses|
    ensures InStableOrder(fitnesses, order)
    ensures |order| == m && forall x :: x in order <==> 0 <= x < m
  {
    if m == 0 then []
    else
      var prev := SortedOrder(fitnesses, m - 1);
      assert forall k :: 0 <= k < |prev| ==> prev[k] in prev;
      Insert(fitnesses, prev, m - 1)
  }

  // ---------------------------------------------------------------------
  // genetic_algorithm

  /** The random outcomes behind one child: the crossover coin of each
      block, the mutation coin and the sampled pair of each block, and
      whether local improvement is applied. */
  datatype ChildDraws = ChildDraws(crossover: seq<bool>, mutation: seq<bool>, picks: seq<(nat, nat)>, improve: bool)

  /** The random outcomes behind one generation: the candidates of each
      tournament and the draws of each child, in order. */
  datatype GenerationDraws = GenerationDraws(tournaments: seq<seq<nat>>, children: seq<ChildDraws>)

  /** Which `return` of `genetic_algorithm` was taken, or the ValueError
      `min` or `random.sample` raises on too small a population. */
  datatype Outcome = Solved(board: Grid) | Best(best: Option<Grid>) | Raised

  predicate ValidChildDraws(fixed: Mask, d: ChildDraws)
    requires IsMask(fixed)
  {
    |d.crossover| == 9 && |d.mutation| == 9 && |d.picks| == 9 && ValidPicks(fixed, d.mutation, d.picks)
  }

  /** The number of children the pair loop makes: two for every i in
      `range(0, remaining, 2)`. */
  function ChildCount(remaining: int): (c: nat)
    ensures c == 2 * PairCount(remaining)
    ensures c >= remaining && (remaining <= 0 ==> c == 0) && (remaining > 0 ==> c < remaining + 2)
  {
    2 * PairCount(remaining)
  }

  /** The number of pairs the loop visits: `len(range(0, remaining, 2))`. */
  function PairCount(remaining: int): (p: nat)
    ensures 2 * p >= remaining && (remaining <= 0 ==> p == 0) && (remaining > 0 ==> 2 * p < remaining + 2)
  {
    if remaining <= 0 then 0 else (remaining + 1) / 2
  }

  predicate ValidGenerationDraws(fixed: Mask, populationSize: nat, eliteCount: int, d: GenerationDraws)
    requires IsMask(fixed)
  {
    |d.tournaments| == populationSize &&
    (forall t :: 0 <= t < populationSize ==> |d.tournaments[t]| == 3) &&
    (forall t, k :: 0 <= t < populationSize && 0 <= k < 3 ==> d.tournaments[t][k] < populationSize) &&
    |d.children| >= ChildCount(populationSize - eliteCount) &&
    AllValidChildDraws(fixed, d.children)
  }

  predicate AllValidChildDraws(fixed: Mask, draws: seq<ChildDraws>)
    requires IsMask(fixed)
  {
    forall k :: 0 <= k < |draws| ==> ValidChildDraws(fixed, draws[k])
  }

  /** `fixed = [[puzzle[i][j] != 0 ...] ...]` */
  function FixedMask(puzzle: Grid): (fixed: Mask)
    requires IsBoard(puzzle)
    ensures IsMask(fixed) && forall c :: OnBoard(c) ==> (IsFixed(fixed, c) <==> At(puzzle, c) != 0)
  {
    seq(N, i requires 0 <= i < N => seq(N, j requires 0 <= j < N => puzzle[i][j] != 0))
  }

  /** The clues of every block are distinct digits. */
  ghost predicate CluesDistinct(puzzle: Grid)
    requires IsBoard(puzzle)
  {
    forall b, d :: 0 <= b < 3 && 0 <= d < 3 ==> FixedDistinct(puzzle, FixedMask(puzzle), b, d)
  }

  /** A consistent board of a puzzle with distinct clues keeps the clues and
      is solved exactly when it has no conflicts. */
  lemma ConsistentZeroIsSolution(puzzle: Grid, g: Grid)
    requires IsBoard(puzzle) && CluesDistinct(puzzle) && Consistent(puzzle, FixedMask(puzzle), g)
    ensures forall c :: OnBoard(c) && At(puzzle, c) != 0 ==> At(g, c) == At(puzzle, c)
    ensures FitnessOf(g) == 0 <==> IsSolved(g)
  {
    var fixed := FixedMask(puzzle);
    forall b, d | 0 <= b < 3 && 0 <= d < 3 ensures multiset(BlockValues(g, b, d)) == multiset(Range(1, 10)) {
      assert BlockFilled(puzzle, fixed, g, b, d);
    }
    ZeroFitnessIsSolved(g);
  }

  /** A child of two consistent parents is consistent. */
  lemma ChildConsistent(puzzle: Grid, fixed: Mask, parent1: Grid, parent2: Grid, d: ChildDraws)
    requires IsBoard(puzzle) && IsMask(fixed) && ValidChildDraws(fixed, d)
    requires Consistent(puzzle, fixed, parent1) && Consistent(puzzle, fixed, parent2)
    ensures Consistent(puzzle, fixed, MutateBlocks(CrossoverOf(parent1, parent2, fixed, d.crossover), fixed, d.mutation, d.picks, 3))
  {
    CrossoverKeepsConsistent(puzzle, fixed, parent1, parent2, d.crossover);
    MutateKeepsConsistent(puzzle, fixed, CrossoverOf(parent1, parent2, fixed, d.crossover), d.mutation, d.picks, 3);
  }

  /** `child` is what `crossover`, then `mutate`, then (when the draw says
      so) `local_improvement` make of parent1 and parent2 with the draws d:
      the mutated crossover itself, or `ImproveOf` it, a rearrangement with no more
      conflicts that is a local optimum unless every pass lowered the
      conflicts. */
  ghost predicate BredFrom(fixed: Mask, parent1: Grid, parent2: Grid, d: ChildDraws, localIterations: int, child: Grid)
    requires IsMask(fixed) && IsBoard(parent1) && IsBoard(parent2) && ValidChildDraws(fixed, d)
  {
    var mutated := MutateBlocks(CrossoverOf(parent1, parent2, fixed, d.crossover), fixed, d.mutation, d.picks, 3);
    (!d.improve ==> child == mutated) &&
    (d.improve ==>
       child == ImproveOf(mutated, fixed, localIterations) &&
       Rearranged(mutated, child, fixed) && FitnessOf(child) <= FitnessOf(mutated) &&
       (IsLocalOptimum(child, fixed) || FitnessOf(child) + localIterations <= FitnessOf(mutated)))
  }

  /** Crossover, mutation and possibly local improvement of one child. */
  method Breed(ghost puzzle: Grid, parent1: Grid, parent2: Grid, fixed: Mask, d: ChildDraws, localIterations: int)
    returns (child: Grid)
    requires IsBoard(puzzle) && IsMask(fixed) && ValidChildDraws(fixed, d)
    requires Consistent(puzzle, fixed, parent1) && Consistent(puzzle, fixed, parent2)
    ensures Consistent(puzzle, fixed, child)
    ensures BredFrom(fixed, parent1, parent2, d, localIterations, child)
  {
    child := Crossover(parent1, parent2, fixed, d.crossover);
    child := Mutate(child, fixed, d.mutation, d.picks);
    ChildConsistent(puzzle, fixed, parent1, parent2, d);
    if d.improve {
      ghost var mutated := child;
      ghost var swaps;
      child, swaps := LocalImprovement(child, fixed, localIterations);
      RearrangedConsistent(puzzle, fixed, mutated, child);
    }
  }

  /** Every board of `population` is consistent. */
  ghost predicate AllConsistent(puzzle: Grid, fixed: Mask, population: seq<Grid>)
    requires IsBoard(puzzle) && IsMask(fixed)
  {
    forall k :: 0 <= k < |population| ==> Consistent(puzzle, fixed, population[k])
  }

  lemma AllConsistentExtend(puzzle: Grid, fixed: Mask, a: seq<Grid>, child1: Grid, child2: Grid)
    requires IsBoard(puzzle) && IsMask(fixed) && AllConsistent(puzzle, fixed, a)
    requires Consistent(puzzle, fixed, child1) && Consistent(puzzle, fixed, child2)
    ensures AllConsistent(puzzle, fixed, a + [child1, child2])
  {
    var after := a + [child1, child2];
    forall k | 0 <= k < |after| ensures Consistent(puzzle, fixed, after[k]) {
      if k < |a| {
        assert after[k] == a[k];
      }
    }
  }

  lemma AllConsistentAppend(puzzle: Grid, fixed: Mask, a: seq<Grid>, b: seq<Grid>)
    requires IsBoard(puzzle) && IsMask(fixed) && AllConsistent(puzzle, fixed, a) && AllConsistent(puzzle, fixed, b)
    ensures AllConsistent(puzzle, fixed, a + b)
  {
    forall k | 0 <= k < |a + b| ensures Consistent(puzzle, fixed, (a + b)[k]) {
      if k < |a| {
        assert (a + b)[k] == a[k];
      } else {
        assert (a + b)[k] == b[k - |a|];
      }
    }
  }

  /** The two children of one pair of parents, each parent taking the
      first role once: `child1` from (parent1, parent2) with `draws1`,
      `child2` from (parent2, parent1) with `draws2`. */
  method BreedPair(ghost puzzle: Grid, parent1: Grid, parent2: Grid, fixed: Mask, draws1: ChildDraws, draws2: ChildDraws,
                   localIterations: int) returns (child1: Grid, child2: Grid)
    requires IsBoard(puzzle) && IsMask(fixed) && ValidChildDraws(fixed, draws1) && ValidChildDraws(fixed, draws2)
    requires Consistent(puzzle, fixed, parent1) && Consistent(puzzle, fixed, parent2)
    ensures Consistent(puzzle, fixed, child1) && Consistent(puzzle, fixed, child2)
    ensures BredFrom(fixed, parent1, parent2, draws1, localIterations, child1)
    ensures BredFrom(fixed, parent2, parent1, draws2, localIterations, child2)
  {
    child1 := Breed(puzzle, parent1, parent2, fixed, draws1, localIterations);
    child2 := Breed(puzzle, parent2, parent1, fixed, draws2, localIterations);
  }

  /** The position after i in a sequence of length n, wrapping round to 0
      at the end. */
  function Partner(i: nat, n: nat): (j: nat)
    requires i < n
    ensures j < n && (j == 0 || j == i + 1)
  {
    if i + 1 < n then i + 1 else 0
  }

  /** `Partner` is the index `(i + 1) % population_size` of the pair loop,
      `selected` holding `population_size` boards. */
  lemma PartnerIsNextModulo(i: nat, n: nat)
    requires i < n
    ensures Partner(i, n) == (i + 1) % n
  {
    if i + 1 == n {
      assert (i + 1) % n == 0;
    }
  }

  /** Child k of the pair loop: the pass at i = 2 * (k / 2) breeds
      `selected[i]` with `selected[(i + 1) % len(selected)]`, the even child
      taking them in that order and the odd one the other way round, and
      child k is shaped by `draws[k]`. */
  ghost predicate ChildBred(fixed: Mask, selected: seq<Grid>, draws: seq<ChildDraws>, localIterations: int,
                            k: nat, child: Grid)
    requires IsMask(fixed)
  {
    var i := 2 * (k / 2);
    k < |draws| && i < |selected| && ValidChildDraws(fixed, draws[k]) &&
    var first, second := selected[i], selected[Partner(i, |selected|)];
    IsBoard(first) && IsBoard(second) &&
    if k == i then BredFrom(fixed, first, second, draws[k], localIterations, child)
    else BredFrom(fixed, second, first, draws[k], localIterations, child)
  }

  /** Every child in `children` is child k of the pair loop. */
  ghost predicate AllChildrenBred(fixed: Mask, selected: seq<Grid>, draws: seq<ChildDraws>, localIterations: int,
                                  children: seq<Grid>)
    requires IsMask(fixed)
  {
    forall k {:trigger ChildBred(fixed, selected, draws, localIterations, k, children[k])} :: 0 <= k < |children| ==>
      ChildBred(fixed, selected, draws, localIterations, k, children[k])
  }

  lemma PassOfChild(i: nat, k: nat)
    requires i % 2 == 0 && (k == i || k == i + 1)
    ensures 2 * (k / 2) == i
  {
  }

  /** The two children of the pass at i = |children| extend the children
      bred so far. */
  lemma ChildrenBredExtend(fixed: Mask, selected: seq<Grid>, draws: seq<ChildDraws>, localIterations: int,
                           children: seq<Grid>, child1: Grid, child2: Grid)
    requires IsMask(fixed) && AllChildrenBred(fixed, selected, draws, localIterations, children)
    requires ChildBred(fixed, selected, draws, localIterations, |children|, child1)
    requires ChildBred(fixed, selected, draws, localIterations, |children| + 1, child2)
    ensures AllChildrenBred(fixed, selected, draws, localIterations, children + [child1, child2])
  {
    var after := children + [child1, child2];
    forall k | 0 <= k < |after| ensures ChildBred(fixed, selected, draws, localIterations, k, after[k]) {
      if k < |children| {
        assert after[k] == children[k];
      }
    }
  }

  /** The children of one pass, as the pair loop numbers them. */
  lemma PassChildrenBred(fixed: Mask, selected: seq<Grid>, draws: seq<ChildDraws>, localIterations: int,
                         i: nat, child1: Grid, child2: Grid)
    requires IsMask(fixed) && i % 2 == 0 && i < |selected| && i + 1 < |draws|
    requires IsBoard(selected[i]) && IsBoard(selected[Partner(i, |selected|)])
    requires ValidChildDraws(fixed, draws[i]) && ValidChildDraws(fixed, draws[i + 1])
    requires BredFrom(fixed, selected[i], selected[Partner(i, |selected|)], draws[i], localIterations, child1)
    requires BredFrom(fixed, selected[Partner(i, |selected|)], selected[i], draws[i + 1], localIterations, child2)
    ensures ChildBred(fixed, selected, draws, localIterations, i, child1)
    ensures ChildBred(fixed, selected, draws, localIterations, i + 1, child2)
  {
    PassOfChild(i, i);
    PassOfChild(i, i + 1);
  }

  /** A prefix of bred children is bred. */
  lemma ChildrenBredPrefix(fixed: Mask, selected: seq<Grid>, draws: seq<ChildDraws>, localIterations: int,
                           children: seq<Grid>, n: nat)
    requires IsMask(fixed) && AllChildrenBred(fixed, selected, draws, localIterations, children) && n <= |children|
    ensures AllChildrenBred(fixed, selected, draws, localIterations, children[..n])
  {
    forall k | 0 <= k < n ensures ChildBred(fixed, selected, draws, localIterations, k, children[..n][k]) {
      assert children[..n][k] == children[k];
    }
  }

  /** The body of the pair loop at i: `selected[i]` and
      `selected[(i + 1) % len(selected)]` give children i and i + 1. */
  method BreedPass(ghost puzzle: Grid, selected: seq<Grid>, fixed: Mask, draws: seq<ChildDraws>, localIterations: int,
                   i: nat) returns (child1: Grid, child2: Grid)
    requires IsBoard(puzzle) && IsMask(fixed) && i % 2 == 0 && i < |selected| && i + 1 < |draws|
    requires AllConsistent(puzzle, fixed, selected) && AllValidChildDraws(fixed, draws)
    ensures Consistent(puzzle, fixed, child1) && Consistent(puzzle, fixed, child2)
    ensures ChildBred(fixed, selected, draws, localIterations, i, child1)
    ensures ChildBred(fixed, selected, draws, localIterations, i + 1, child2)
  {
    var parent1 := selected[i];
    var parent2 := selected[Partner(i, |selected|)];
    child1, child2 := BreedPair(puzzle, parent1, parent2, fixed, draws[i], draws[i + 1], localIterations);
    PassChildrenBred(fixed, selected, draws, localIterations, i, child1, child2);
  }

  /** The children bred so far by the pair loop: consistent, and child k
      bred as the loop numbers it. */
  ghost predicate ConsistentChildren(puzzle: Grid, fixed: Mask, selected: seq<Grid>, draws: seq<ChildDraws>,
                                     localIterations: int, children: seq<Grid>)
    requires IsBoard(puzzle) && IsMask(fixed)
  {
    AllConsistent(puzzle, fixed, children) && AllChildrenBred(fixed, selected, draws, localIterations, children)
  }

  lemma ConsistentChildrenExtend(puzzle: Grid, fixed: Mask, selected: seq<Grid>, draws: seq<ChildDraws>,
                                 localIterations: int, children: seq<Grid>, child1: Grid, child2: Grid)
    requires IsBoard(puzzle) && IsMask(fixed)
    requires ConsistentChildren(puzzle, fixed, selected, draws, localIterations, children)
    requires Consistent(puzzle, fixed, child1) && Consistent(puzzle, fixed, child2)
    requires ChildBred(fixed, selected, draws, localIterations, |children|, child1)
    requires ChildBred(fixed, selected, draws, localIterations, |children| + 1, child2)
    ensures ConsistentChildren(puzzle, fixed, selected, draws, localIterations, children + [child1, child2])
  {
    AllConsistentExtend(puzzle, fixed, children, child1, child2);
    ChildrenBredExtend(fixed, selected, draws, localIterations, children, child1, child2);
  }

  /** The pass of the pair loop at i = |children|, appending its two
      children to those bred so far. */
  method BreedInto(ghost puzzle: Grid, selected: seq<Grid>, fixed: Mask, draws: seq<ChildDraws>, localIterations: int,
                   children: seq<Grid>) returns (after: seq<Grid>)
    requires IsBoard(puzzle) && IsMask(fixed) && |children| % 2 == 0
    requires |children| < |selected| && |children| + 1 < |draws|
    requires AllConsistent(puzzle, fixed, selected) && AllValidChildDraws(fixed, draws)
    requires ConsistentChildren(puzzle, fixed, selected, draws, localIterations, children)
    ensures |after| == |children| + 2 && after[..|children|] == children
    ensures ConsistentChildren(puzzle, fixed, selected, draws, localIterations, after)
  {
    var child1, child2 := BreedPass(puzzle, selected, fixed, draws, localIterations, |children|);
    ConsistentChildrenExtend(puzzle, fixed, selected, draws, localIterations, children, child1, child2);
    after := children + [child1, child2];
    assert after[..|children|] == children;
  }

  /** The pair loop of `genetic_algorithm`: for i in `range(0, remaining, 2)`
      the parents `selected[i]` and `selected[(i + 1) % len]` give two
      children, which the draws `draws[i]` and `draws[i + 1]` shape. */
  method Offspring(ghost puzzle: Grid, selected: seq<Grid>, fixed: Mask, remaining: int, draws: seq<ChildDraws>,
                   localIterations: int) returns (nextPopulation: seq<Grid>)
    requires IsBoard(puzzle) && IsMask(fixed) && |selected| > 0 && remaining <= |selected|
    requires AllConsistent(puzzle, fixed, selected)
    requires |draws| >= ChildCount(remaining) && AllValidChildDraws(fixed, draws)
    ensures |nextPopulation| == ChildCount(remaining)
    ensures AllConsistent(puzzle, fixed, nextPopulation)
    ensures AllChildrenBred(fixed, selected, draws, localIterations, nextPopulation)
  {
    nextPopulation := [];
    var i := 0;
    ghost var pairs := 0;
    while i < remaining
      invariant i == 2 * pairs && 0 <= pairs <= PairCount(remaining) && |nextPopulation| == i
      invariant ConsistentChildren(puzzle, fixed, selected, draws, localIterations, nextPopulation)
      decreases remaining - i
    {
      assert pairs < PairCount(remaining);
      nextPopulation := BreedInto(puzzle, selected, fixed, draws, localIterations, nextPopulation);
      i := i + 2;
      pairs := pairs + 1;
    }
  }

  /** `fitnesses = [fitness(ind) for ind in population]` */
  method Fitnesses(population: seq<Grid>) returns (fitnesses: seq<int>)
    requires forall k :: 0 <= k < |population| ==> IsBoard(population[k])
    ensures |fitnesses| == |population| && forall k :: 0 <= k < |population| ==> fitnesses[k] == FitnessOf(population[k])
  {
    fitnesses := [];
    for k := 0 to |population|
      invariant |fitnesses| == k && forall i :: 0 <= i < k ==> fitnesses[i] == FitnessOf(population[i])
    {
      var f := Fitness(population[k]);
      fitnesses := fitnesses + [f];
    }
  }

  /** `s.index(v)` when `v in s`: the first position holding v. */
  function IndexOf(s: seq<int>, v: int): (r: Option<nat>)
    ensures r.None? <==> v !in s
    ensures r.Some? ==> r.value < |s| && s[r.value] == v && forall k :: 0 <= k < r.value ==> s[k] != v
  {
    if s == [] then None
    else if s[0] == v then Some(0)
    else match IndexOf(s[1..], v) {
      case None => None
      case Some(k) => Some(k + 1)
    }
  }

  /** `min(s)` */
  function Min(s: seq<int>): (m: int)
    requires |s| > 0
    ensures m in s && forall k :: 0 <= k < |s| ==> m <= s[k]
  {
    if |s| == 1 then s[0]
    else
      var rest := Min(s[1..]);
      if s[0] <= rest then s[0] else rest
  }

  /** The boards `selection` returns: the winner of each tournament. */
  function Winners(population: seq<Grid>, fitnesses: seq<int>, samples: seq<seq<nat>>): (selected: seq<Grid>)
    requires |fitnesses| == |population| && forall t :: 0 <= t < |samples| ==> |samples[t]| > 0
    requires forall t, k :: 0 <= t < |samples| && 0 <= k < |samples[t]| ==> samples[t][k] < |population|
    ensures |selected| == |samples| && forall t :: 0 <= t < |samples| ==> selected[t] in population
  {
    seq(|samples|, t requires 0 <= t < |samples| => population[TournamentWinner(fitnesses, samples[t])])
  }

  /** `[fitness(ind) for ind in population]` as a value. */
  function FitnessesOf(population: seq<Grid>): (fitnesses: seq<int>)
    requires forall k :: 0 <= k < |population| ==> IsBoard(population[k])
    ensures |fitnesses| == |population| && forall k :: 0 <= k < |population| ==> fitnesses[k] >= 0
  {
    seq(|population|, k requires 0 <= k < |population| => FitnessOf(population[k]))
  }

  /** `next` is what one generation of `genetic_algorithm` builds from
      `population` with the draws d: the `elite_count` fittest boards in
      stable order, then the first `population_size - elite_count` children
      the pair loop breeds from the tournament winners. */
  ghost predicate GenerationStep(fixed: Mask, population: seq<Grid>, eliteCount: int, d: GenerationDraws,
                                 localIterations: int, next: seq<Grid>)
    requires IsMask(fixed) && forall k :: 0 <= k < |population| ==> IsBoard(population[k])
    requires ValidGenerationDraws(fixed, |population|, eliteCount, d)
  {
    var fitnesses := FitnessesOf(population);
    var order := SortedOrder(fitnesses, |fitnesses|);
    var elites := if eliteCount < |population| then eliteCount else |population|;
    |next| == |population| && 0 <= elites &&
    (forall k :: 0 <= k < elites ==> next[k] == population[order[k]]) &&
    AllChildrenBred(fixed, Winners(population, fitnesses, d.tournaments), d.children, localIterations, next[elites..])
  }

  /** The stable sort puts the elites first: none of the boards left out
      is fitter than any of the first `elites` in the order. */
  lemma ElitesAreFittest(fitnesses: seq<int>, elites: nat)
    requires elites <= |fitnesses|
    ensures var order := SortedOrder(fitnesses, |fitnesses|);
      forall k, j :: 0 <= k < elites && 0 <= j < |fitnesses| && j !in order[..elites] ==>
        fitnesses[order[k]] <= fitnesses[j]
  {
    var order := SortedOrder(fitnesses, |fitnesses|);
    forall k, j | 0 <= k < elites && 0 <= j < |fitnesses| && j !in order[..elites]
      ensures fitnesses[order[k]] <= fitnesses[j]
    {
      assert j in order;
      var l :| 0 <= l < |order| && order[l] == j;
    }
  }

  /** Elites followed by bred children make one generation step. */
  lemma GenerationStepOf(fixed: Mask, population: seq<Grid>, eliteCount: int, d: GenerationDraws,
                         localIterations: int, elites: seq<Grid>, children: seq<Grid>)
    requires IsMask(fixed) && forall k :: 0 <= k < |population| ==> IsBoard(population[k])
    requires ValidGenerationDraws(fixed, |population|, eliteCount, d) && eliteCount >= 1
    requires var order := SortedOrder(FitnessesOf(population), |population|);
      |elites| == (if eliteCount < |population| then eliteCount else |population|) &&
      forall k :: 0 <= k < |elites| ==> elites[k] == population[order[k]]
    requires |elites| + |children| == |population|
    requires AllChildrenBred(fixed, Winners(population, FitnessesOf(population), d.tournaments), d.children,
                             localIterations, children)
    ensures GenerationStep(fixed, population, eliteCount, d, localIterations, elites + children)
  {
    var next := elites + children;
    assert next[|elites|..] == children;
    forall k | 0 <= k < |elites| ensures next[k] == elites[k] {
    }
  }

  /** The children of one generation: `selection`, the pair loop, and the
      first `populationSize - eliteCount` of what it bred. */
  method Children(ghost puzzle: Grid, population: seq<Grid>, fitnesses: seq<int>, fixed: Mask, eliteCount: int,
                  d: GenerationDraws, localIterations: int) returns (children: seq<Grid>)
    requires IsBoard(puzzle) && IsMask(fixed) && |population| >= 3 && eliteCount >= 1
    requires forall k :: 0 <= k < |population| ==> Consistent(puzzle, fixed, population[k])
    requires |fitnesses| == |population|
    requires forall k :: 0 <= k < |population| ==> IsBoard(population[k]) && fitnesses[k] == FitnessOf(population[k])
    requires ValidGenerationDraws(fixed, |population|, eliteCount, d)
    ensures |children| == (if eliteCount < |population| then |population| - eliteCount else 0)
    ensures AllConsistent(puzzle, fixed, children)
    ensures AllChildrenBred(fixed, Winners(population, FitnessesOf(population), d.tournaments), d.children,
                            localIterations, children)
  {
    var populationSize := |population|;
    var selected := Selection(population, fitnesses, d.tournaments, 3);
    forall k | 0 <= k < populationSize ensures Consistent(puzzle, fixed, selected[k]) {
      assert selected[k] == population[TournamentWinner(fitnesses, d.tournaments[k])];
    }
    assert fitnesses == FitnessesOf(population);
    assert selected == Winners(population, fitnesses, d.tournaments);
    var nextPopulation := Offspring(puzzle, selected, fixed, populationSize - eliteCount, d.children, localIterations);
    if populationSize - eliteCount > 0 {
      children := nextPopulation[..populationSize - eliteCount];
      ChildrenBredPrefix(fixed, selected, d.children, localIterations, nextPopulation, populationSize - eliteCount);
      assert forall k :: 0 <= k < |children| ==> children[k] == nextPopulation[k];
    } else {
      children := [];
    }
  }

  /** The population after one generation: the elites (the first
      `eliteCount` of the population sorted stably by fitness) followed by
      the first `populationSize - eliteCount` children. */
  method NextGeneration(ghost puzzle: Grid, population: seq<Grid>, fitnesses: seq<int>, fixed: Mask, eliteCount: int,
                       d: GenerationDraws, localIterations: int) returns (next: seq<Grid>)
    requires IsBoard(puzzle) && IsMask(fixed) && |population| >= 3 && eliteCount >= 1
    requires forall k :: 0 <= k < |population| ==> Consistent(puzzle, fixed, population[k])
    requires |fitnesses| == |population|
    requires forall k :: 0 <= k < |population| ==> IsBoard(population[k]) && fitnesses[k] == FitnessOf(population[k])
    requires ValidGenerationDraws(fixed, |population|, eliteCount, d)
    ensures |next| == |population|
    ensures AllConsistent(puzzle, fixed, next)
    ensures GenerationStep(fixed, population, eliteCount, d, localIterations, next)
    ensures var order := SortedOrder(fitnesses, |fitnesses|);
      var elites := if eliteCount < |population| then eliteCount else |population|;
      forall k, j :: 0 <= k < elites && 0 <= j < |population| && j !in order[..elites] ==>
        fitnesses[order[k]] <= fitnesses[j]
  {
    var populationSize := |population|;
    var order := SortedOrder(fitnesses, |fitnesses|);
    var eliteTotal := if eliteCount < populationSize then eliteCount else populationSize;
    var elites := seq(eliteTotal, k requires 0 <= k < eliteTotal => population[order[k]]);
    var children := Children(puzzle, population, fitnesses, fixed, eliteCount, d, localIterations);
    next := elites + children;
    assert fitnesses == FitnessesOf(population);
    GenerationStepOf(fixed, population, eliteCount, d, localIterations, elites, children);
    assert AllConsistent(puzzle, fixed, elites) by {
      forall k | 0 <= k < eliteTotal ensures Consistent(puzzle, fixed, elites[k]) {
        assert order[k] < populationSize;
      }
    }
    AllConsistentAppend(puzzle, fixed, elites, children);
    ElitesAreFittest(fitnesses, eliteTotal);
  }

  /** g has no more conflicts than any board of `population`. */
  ghost predicate NoWorseThan(g: Grid, population: seq<Grid>)
    requires IsBoard(g)
  {
    forall k :: 0 <= k < |population| ==> IsBoard(population[k]) && FitnessOf(g) <= FitnessOf(population[k])
  }

  /** The best-so-far bookkeeping of `genetic_algorithm` after one
      evaluation: the first board of least fitness in `population` replaces
      `best` when there is none yet or when it has strictly fewer conflicts.
      The result is no worse than any board of `population` nor than
      `best`, and `best` is kept whenever it is already no worse than every
      board of `population`. */
  method UpdateBest(population: seq<Grid>, fitnesses: seq<int>, bestFitness: Option<int>, best: Option<Grid>)
    returns (nextFitness: int, next: Grid)
    requires |population| > 0 && |fitnesses| == |population|
    requires forall k :: 0 <= k < |population| ==> IsBoard(population[k]) && fitnesses[k] == FitnessOf(population[k])
    requires best.Some? <==> bestFitness.Some?
    requires best.Some? ==> IsBoard(best.value) && bestFitness.value == FitnessOf(best.value)
    ensures IsBoard(next) && nextFitness == FitnessOf(next)
    ensures next in population || (best.Some? && next == best.value)
    ensures NoWorseThan(next, population)
    ensures best.Some? ==> FitnessOf(next) <= FitnessOf(best.value)
    ensures best.Some? && NoWorseThan(best.value, population) ==> next == best.value
    ensures bestFitness.None? || Min(fitnesses) < bestFitness.value ==>
      next == population[IndexOf(fitnesses, Min(fitnesses)).value]
    ensures bestFitness.Some? && bestFitness.value <= Min(fitnesses) ==> next == best.value
  {
    var minFit := Min(fitnesses);
    if bestFitness.None? || minFit < bestFitness.value {
      var at := IndexOf(fitnesses, minFit);
      nextFitness, next := minFit, population[at.value];
    } else {
      nextFitness, next := bestFitness.value, best.value;
    }
  }

  /** A board with no more conflicts than `g` is no worse than every
      population `g` is no worse than. */
  lemma NoWorseThanHistory(g: Grid, h: Grid, history: seq<seq<Grid>>)
    requires IsBoard(g) && IsBoard(h) && FitnessOf(h) <= FitnessOf(g)
    requires forall p :: 0 <= p < |history| ==> NoWorseThan(g, history[p])
    ensures forall p :: 0 <= p < |history| ==> NoWorseThan(h, history[p])
  {
  }

  /** The initial population of `genetic_algorithm`: one
      `initialize_individual` per entry of `shuffles`. */
  method InitialPopulation(puzzle: Grid, fixed: Mask, shuffles: seq<seq<seq<int>>>) returns (population: seq<Grid>)
    requires IsBoard(puzzle) && IsMask(fixed)
    requires forall k :: 0 <= k < |shuffles| ==> |shuffles[k]| == 9
    requires forall k, br, bc :: 0 <= k < |shuffles| && 0 <= br < 3 && 0 <= bc < 3 ==>
      multiset(shuffles[k][3 * br + bc]) == multiset(Missing(FixedNums(puzzle, fixed, br, bc)))
    ensures |population| == |shuffles| && AllConsistent(puzzle, fixed, population)
  {
    population := [];
    for k := 0 to |shuffles|
      invariant |population| == k && AllConsistent(puzzle, fixed, population)
    {
      var individual := InitializeIndividual(puzzle, fixed, shuffles[k]);
      population := population + [individual];
    }
  }

  /** Every board of `population` has a conflict. */
  ghost predicate NoSolvedBoard(population: seq<Grid>)
  {
    forall k :: 0 <= k < |population| ==> IsBoard(population[k]) && FitnessOf(population[k]) > 0
  }

  /** `history` holds populations of `size` consistent boards, each after
      the first built from the one before by a generation step with that
      generation's draws. */
  ghost predicate EvolvedInTurn(puzzle: Grid, fixed: Mask, size: nat, eliteCount: int, draws: seq<GenerationDraws>,
                                localIterations: int, history: seq<seq<Grid>>)
    requires IsBoard(puzzle) && IsMask(fixed)
  {
    (forall p :: 0 <= p < |history| ==> |history[p]| == size && AllConsistent(puzzle, fixed, history[p])) &&
    forall p :: 0 <= p < |history| - 1 ==> StepAt(fixed, size, eliteCount, draws, localIterations, p, history[p], history[p + 1])
  }

  /** `next` is the generation step from `current` with the draws of generation `p`. */
  ghost predicate StepAt(fixed: Mask, size: nat, eliteCount: int, draws: seq<GenerationDraws>, localIterations: int,
                         p: nat, current: seq<Grid>, next: seq<Grid>)
    requires IsMask(fixed)
  {
    p < |draws| && ValidGenerationDraws(fixed, size, eliteCount, draws[p]) &&
    |current| == size && AllBoards(current) && GenerationStep(fixed, current, eliteCount, draws[p], localIterations, next)
  }

  /** Every entry of `population` is a 9x9 board. */
  predicate AllBoards(population: seq<Grid>)
  {
    forall k :: 0 <= k < |population| ==> IsBoard(population[k])
  }

  lemma EvolvedExtend(puzzle: Grid, fixed: Mask, size: nat, eliteCount: int, draws: seq<GenerationDraws>,
                      localIterations: int, history: seq<seq<Grid>>, population: seq<Grid>)
    requires IsBoard(puzzle) && IsMask(fixed)
    requires EvolvedInTurn(puzzle, fixed, size, eliteCount, draws, localIterations, history)
    requires |population| == size && AllConsistent(puzzle, fixed, population)
    requires |history| > 0 ==> StepAt(fixed, size, eliteCount, draws, localIterations, |history| - 1, history[|history| - 1], population)
    ensures EvolvedInTurn(puzzle, fixed, size, eliteCount, draws, localIterations, history + [population])
  {
    var after := history + [population];
    forall p | 0 <= p < |after| ensures |after[p]| == size && AllConsistent(puzzle, fixed, after[p]) {
      if p < |history| {
        assert after[p] == history[p];
      }
    }
    forall p | 0 <= p < |after| - 1 ensures StepAt(fixed, size, eliteCount, draws, localIterations, p, after[p], after[p + 1]) {
      if p < |history| - 1 {
        assert after[p] == history[p] && after[p + 1] == history[p + 1];
      } else {
        assert after[p] == history[|history| - 1] && after[p + 1] == population;
      }
    }
  }

  /** Consistent boards are boards. */
  lemma ConsistentBoards(puzzle: Grid, fixed: Mask, population: seq<Grid>)
    requires IsBoard(puzzle) && IsMask(fixed) && AllConsistent(puzzle, fixed, population)
    ensures AllBoards(population)
  {
    forall k | 0 <= k < |population| ensures IsBoard(population[k]) {
      assert Consistent(puzzle, fixed, population[k]);
    }
  }

  /** The evaluation half of one pass of the loop of `genetic_algorithm`:
      the fitnesses of `population`; a stop with the first board of
      fitness 0 if there is one, or with the exception `selection` or `min`
      raises on too small a population; otherwise the best board so far
      over `history` and this population. */
  method Round(puzzle: Grid, fixed: Mask, population: seq<Grid>, bestFitness: Option<int>, bestIndividual: Option<Grid>,
               ghost history: seq<seq<Grid>>)
    returns (stop: Option<Outcome>, fitnesses: seq<int>, nextFitness: int, next: Grid)
    requires IsBoard(puzzle) && fixed == FixedMask(puzzle) && AllConsistent(puzzle, fixed, population)
    requires forall p :: 0 <= p < |history| ==> NoSolvedBoard(history[p])
    requires bestIndividual.None? <==> bestFitness.None?
    requires bestIndividual.None? ==> history == []
    requires bestIndividual.Some? ==>
      BestSoFar(puzzle, fixed, bestIndividual.value, history) && bestFitness == Some(FitnessOf(bestIndividual.value))
    ensures stop.Some? ==> stop.value.Solved? || stop.value.Raised?
    ensures stop.Some? && stop.value.Solved? ==> SolvedIn(puzzle, fixed, stop.value.board, history + [population])
    ensures stop.Some? && stop.value.Raised? ==> |population| < 3
    ensures stop.None? ==>
      |population| >= 3 && AllBoards(population) && fitnesses == FitnessesOf(population) &&
      (forall p :: 0 <= p < |history| + 1 ==> NoSolvedBoard((history + [population])[p])) &&
      BestSoFar(puzzle, fixed, next, history + [population]) && nextFitness == FitnessOf(next)
  {
    fitnesses := Fitnesses(population);
    ConsistentBoards(puzzle, fixed, population);
    assert fitnesses == FitnessesOf(population);
    var zero := IndexOf(fitnesses, 0);
    if zero.Some? {
      SolvedInLast(puzzle, fixed, history, population, zero.value);
      return Some(Solved(population[zero.value])), fitnesses, 0, population[zero.value];
    }
    NoZeroFitness(population);
    NoSolvedExtend(history, population);
    if |fitnesses| == 0 {
      return Some(Raised), fitnesses, 0, puzzle;
    }
    nextFitness, next := UpdateBest(population, fitnesses, bestFitness, bestIndividual);
    BestSoFarExtend(puzzle, fixed, history, population, bestIndividual, next);
    if |population| < 3 {
      return Some(Raised), fitnesses, nextFitness, next;
    }
    stop := None;
  }

  /** The state of the loop of `genetic_algorithm` before generation
      `generation`: `history` holds the populations evaluated so far, the
      current population is the generation step from the last of them (or
      `first` before the first pass), none of them held a board of fitness
      0, and the best board is the fittest of all of them. */
  ghost predicate EvolvingAt(puzzle: Grid, fixed: Mask, first: seq<Grid>, eliteCount: int, draws: seq<GenerationDraws>,
                             localIterations: int, generation: nat, population: seq<Grid>, history: seq<seq<Grid>>,
                             bestFitness: Option<int>, bestIndividual: Option<Grid>)
    requires IsBoard(puzzle) && IsMask(fixed)
  {
    |history| == generation && |population| == |first| && AllConsistent(puzzle, fixed, population) &&
    EvolvedInTurn(puzzle, fixed, |first|, eliteCount, draws, localIterations, history) &&
    (generation == 0 ==> population == first) &&
    (generation > 0 ==>
       history[0] == first && |population| >= 3 &&
       StepAt(fixed, |first|, eliteCount, draws, localIterations, generation - 1, history[generation - 1], population)) &&
    (forall p :: 0 <= p < |history| ==> NoSolvedBoard(history[p])) &&
    (bestIndividual.None? <==> generation == 0) && (bestFitness.None? <==> generation == 0) &&
    (bestIndividual.Some? ==>
       BestSoFar(puzzle, fixed, bestIndividual.value, history) && bestFitness == Some(FitnessOf(bestIndividual.value)))
  }

  /** One pass of the loop of `genetic_algorithm`: evaluate the population,
      return a solved board or raise, else keep the best board and breed the
      next generation. */
  method EvolveGeneration(puzzle: Grid, fixed: Mask, first: seq<Grid>, eliteCount: int, localIterations: int,
                          draws: seq<GenerationDraws>, generation: nat, population: seq<Grid>,
                          bestFitness: Option<int>, bestIndividual: Option<Grid>, ghost history: seq<seq<Grid>>)
    returns (stop: Option<Outcome>, nextPopulation: seq<Grid>, nextFitness: Option<int>, nextBest: Option<Grid>,
             ghost nextHistory: seq<seq<Grid>>)
    requires IsBoard(puzzle) && fixed == FixedMask(puzzle) && eliteCount >= 1
    requires generation < |draws| && ValidGenerationDraws(fixed, |first|, eliteCount, draws[generation])
    requires EvolvingAt(puzzle, fixed, first, eliteCount, draws, localIterations, generation, population, history,
                        bestFitness, bestIndividual)
    ensures nextHistory == history + [population] && |nextHistory| == generation + 1 && nextHistory[0] == first
    ensures EvolvedInTurn(puzzle, fixed, |first|, eliteCount, draws, localIterations, nextHistory)
    ensures stop.Some? ==>
      (stop.value.Solved? && SolvedIn(puzzle, fixed, stop.value.board, nextHistory)) ||
      (stop.value.Raised? && generation == 0 && |first| < 3)
    ensures |first| == 0 ==> stop == Some(Raised)
    ensures stop.None? ==>
      EvolvingAt(puzzle, fixed, first, eliteCount, draws, localIterations, generation + 1, nextPopulation, nextHistory,
                 nextFitness, nextBest)
  {
    var fitnesses, fitness, best;
    stop, fitnesses, fitness, best := Round(puzzle, fixed, population, bestFitness, bestIndividual, history);
    EvolvedExtend(puzzle, fixed, |first|, eliteCount, draws, localIterations, history, population);
    nextHistory := history + [population];
    if stop.Some? {
      nextPopulation, nextFitness, nextBest := population, bestFitness, bestIndividual;
      return;
    }
    nextFitness, nextBest := Some(fitness), Some(best);
    nextPopulation := BreedNext(puzzle, fixed, first, eliteCount, localIterations, draws, generation, population,
                                fitnesses, fitness, best, nextHistory);
  }

  /** The second half of a pass of the loop of `genetic_algorithm`, once no
      board of `population` is solved: the next generation is bred from it,
      and the loop state moves on to the next generation with `best` as the
      best board so far. */
  method BreedNext(puzzle: Grid, fixed: Mask, first: seq<Grid>, eliteCount: int, localIterations: int,
                   draws: seq<GenerationDraws>, generation: nat, population: seq<Grid>, fitnesses: seq<int>,
                   fitness: int, best: Grid, ghost history: seq<seq<Grid>>)
    returns (next: seq<Grid>)
    requires IsBoard(puzzle) && IsMask(fixed) && eliteCount >= 1
    requires |history| == generation + 1 && history[0] == first && history[generation] == population
    requires |population| == |first| && |population| >= 3 && AllConsistent(puzzle, fixed, population)
    requires fitnesses == FitnessesOf(population)
    requires EvolvedInTurn(puzzle, fixed, |first|, eliteCount, draws, localIterations, history)
    requires forall p :: 0 <= p < |history| ==> NoSolvedBoard(history[p])
    requires BestSoFar(puzzle, fixed, best, history) && fitness == FitnessOf(best)
    requires generation < |draws| && ValidGenerationDraws(fixed, |first|, eliteCount, draws[generation])
    ensures EvolvingAt(puzzle, fixed, first, eliteCount, draws, localIterations, generation + 1, next, history,
                       Some(fitness), Some(best))
  {
    next := NextGeneration(puzzle, population, fitnesses, fixed, eliteCount, draws[generation], localIterations);
    NextEvolving(puzzle, fixed, first, eliteCount, draws, localIterations, generation, population, next,
                 history, fitness, best);
  }

  /** A pass that evaluates `population` without stopping and breeds `next`
      from it leaves the loop state of the next generation. */
  lemma NextEvolving(puzzle: Grid, fixed: Mask, first: seq<Grid>, eliteCount: int, draws: seq<GenerationDraws>,
                     localIterations: int, generation: nat, population: seq<Grid>, next: seq<Grid>,
                     history: seq<seq<Grid>>, fitness: int, best: Grid)
    requires IsBoard(puzzle) && IsMask(fixed)
    requires |history| == generation + 1 && history[0] == first && history[generation] == population
    requires |population| == |first| && |population| >= 3 && AllBoards(population)
    requires EvolvedInTurn(puzzle, fixed, |first|, eliteCount, draws, localIterations, history)
    requires forall p :: 0 <= p < |history| ==> NoSolvedBoard(history[p])
    requires BestSoFar(puzzle, fixed, best, history) && fitness == FitnessOf(best)
    requires generation < |draws| && ValidGenerationDraws(fixed, |first|, eliteCount, draws[generation])
    requires |next| == |population| && AllConsistent(puzzle, fixed, next)
    requires GenerationStep(fixed, population, eliteCount, draws[generation], localIterations, next)
    ensures EvolvingAt(puzzle, fixed, first, eliteCount, draws, localIterations, generation + 1, next, history,
                       Some(fitness), Some(best))
  {
  }

  /** The loop of `genetic_algorithm` from the initial population `first`:
      `history` holds the populations whose fitness was evaluated, in
      order. A solved board is the first board of fitness 0 in the first
      population that has one; otherwise the fittest board ever evaluated
      is returned after `max_generations`. */
  method Evolve(puzzle: Grid, fixed: Mask, first: seq<Grid>, maxGenerations: int, eliteCount: int, localIterations: int,
                draws: seq<GenerationDraws>)
    returns (outcome: Outcome, ghost history: seq<seq<Grid>>)
    requires IsBoard(puzzle) && fixed == FixedMask(puzzle) && eliteCount >= 1
    requires AllConsistent(puzzle, fixed, first)
    requires |draws| >= maxGenerations
    requires forall gen :: 0 <= gen < |draws| ==> ValidGenerationDraws(fixed, |first|, eliteCount, draws[gen])
    ensures EvolvedInTurn(puzzle, fixed, |first|, eliteCount, draws, localIterations, history)
    ensures |history| <= (if maxGenerations > 0 then maxGenerations else 0) && (|history| > 0 ==> history[0] == first)
    ensures outcome.Solved? ==> SolvedIn(puzzle, fixed, outcome.board, history)
    ensures outcome.Best? ==> (outcome.best.None? <==> maxGenerations <= 0)
    ensures outcome.Best? && outcome.best.Some? ==>
      |history| == maxGenerations && BestSoFar(puzzle, fixed, outcome.best.value, history)
    ensures outcome.Raised? ==> |history| == 1 && |first| < 3
    ensures maxGenerations > 0 && |first| < 3 ==> !outcome.Best?
    ensures maxGenerations > 0 && |first| == 0 ==> outcome.Raised?
  {
    var population := first;
    var bestFitness: Option<int> := None;
    var bestIndividual: Option<Grid> := None;
    var generation := 0;
    history := [];
    while generation < maxGenerations
      invariant generation == 0 || generation <= maxGenerations
      invariant EvolvingAt(puzzle, fixed, first, eliteCount, draws, localIterations, generation, population, history,
                           bestFitness, bestIndividual)
      decreases maxGenerations - generation
    {
      var stop;
      stop, population, bestFitness, bestIndividual, history :=
        EvolveGeneration(puzzle, fixed, first, eliteCount, localIterations, draws, generation, population,
                         bestFitness, bestIndividual, history);
      if stop.Some? {
        StoppedOutcome(puzzle, fixed, first, maxGenerations, eliteCount, draws, localIterations, generation,
                       stop.value, history);
        return stop.value, history;
      }
      generation := generation + 1;
    }
    FinishedOutcome(puzzle, fixed, first, maxGenerations, eliteCount, draws, localIterations, generation, population,
                    history, bestFitness, bestIndividual);
    return Best(bestIndividual), history;
  }

  /** What the loop of `genetic_algorithm` returns, with the populations it
      evaluated: the clauses of `Evolve`'s postcondition. */
  ghost predicate EvolveOutcome(puzzle: Grid, fixed: Mask, first: seq<Grid>, maxGenerations: int, eliteCount: int,
                                draws: seq<GenerationDraws>, localIterations: int, outcome: Outcome,
                                history: seq<seq<Grid>>)
    requires IsBoard(puzzle) && IsMask(fixed)
  {
    EvolvedInTurn(puzzle, fixed, |first|, eliteCount, draws, localIterations, history) &&
    |history| <= (if maxGenerations > 0 then maxGenerations else 0) && (|history| > 0 ==> history[0] == first) &&
    (outcome.Solved? ==> SolvedIn(puzzle, fixed, outcome.board, history)) &&
    (outcome.Best? ==> (outcome.best.None? <==> maxGenerations <= 0)) &&
    (outcome.Best? && outcome.best.Some? ==>
       |history| == maxGenerations && BestSoFar(puzzle, fixed, outcome.best.value, history)) &&
    (outcome.Raised? ==> |history| == 1 && |first| < 3) &&
    (maxGenerations > 0 && |first| < 3 ==> !outcome.Best?) &&
    (maxGenerations > 0 && |first| == 0 ==> outcome.Raised?)
  }

  /** A pass that returns early ends the loop with a solved board or a raise. */
  lemma StoppedOutcome(puzzle: Grid, fixed: Mask, first: seq<Grid>, maxGenerations: int, eliteCount: int,
                       draws: seq<GenerationDraws>, localIterations: int, generation: nat, outcome: Outcome,
                       history: seq<seq<Grid>>)
    requires IsBoard(puzzle) && IsMask(fixed) && generation < maxGenerations
    requires |history| == generation + 1 && history[0] == first
    requires EvolvedInTurn(puzzle, fixed, |first|, eliteCount, draws, localIterations, history)
    requires (outcome.Solved? && SolvedIn(puzzle, fixed, outcome.board, history)) ||
             (outcome.Raised? && generation == 0 && |first| < 3)
    requires |first| == 0 ==> outcome == Raised
    ensures EvolveOutcome(puzzle, fixed, first, maxGenerations, eliteCount, draws, localIterations, outcome, history)
  {
  }

  /** A loop that runs all `max_generations` passes returns the best board. */
  lemma FinishedOutcome(puzzle: Grid, fixed: Mask, first: seq<Grid>, maxGenerations: int, eliteCount: int,
                        draws: seq<GenerationDraws>, localIterations: int, generation: nat, population: seq<Grid>,
                        history: seq<seq<Grid>>, bestFitness: Option<int>, bestIndividual: Option<Grid>)
    requires IsBoard(puzzle) && IsMask(fixed)
    requires generation >= maxGenerations && (generation == 0 || generation <= maxGenerations)
    requires EvolvingAt(puzzle, fixed, first, eliteCount, draws, localIterations, generation, population, history,
                        bestFitness, bestIndividual)
    ensures EvolveOutcome(puzzle, fixed, first, maxGenerations, eliteCount, draws, localIterations,
                          Best(bestIndividual), history)
  {
  }

  /** `g` is the board `genetic_algorithm` returns as solved after
      evaluating the populations of `history`: the first board of fitness 0
      in the last of them, none of the earlier ones holding such a board. */
  ghost predicate SolvedIn(puzzle: Grid, fixed: Mask, g: Grid, history: seq<seq<Grid>>)
    requires IsBoard(puzzle) && IsMask(fixed)
  {
    |history| > 0 && IsZeroAt(history[|history| - 1], g) &&
    (forall p :: 0 <= p < |history| - 1 ==> NoSolvedBoard(history[p])) &&
    Consistent(puzzle, fixed, g) && FitnessOf(g) == 0 && (CluesDistinct(puzzle) ==> IsSolved(g))
  }

  lemma SolvedInLast(puzzle: Grid, fixed: Mask, history: seq<seq<Grid>>, population: seq<Grid>, k: nat)
    requires IsBoard(puzzle) && fixed == FixedMask(puzzle)
    requires forall p :: 0 <= p < |history| ==> NoSolvedBoard(history[p])
    requires AllConsistent(puzzle, fixed, population) && AllBoards(population)
    requires IndexOf(FitnessesOf(population), 0) == Some(k)
    ensures SolvedIn(puzzle, fixed, population[k], history + [population])
  {
    var g := population[k];
    assert Consistent(puzzle, fixed, g);
    if CluesDistinct(puzzle) {
      ConsistentZeroIsSolution(puzzle, g);
    }
    NoSolvedBefore(history, population);
  }

  /** `population[fitnesses.index(0)]`: g is the first board of fitness 0. */
  ghost predicate IsZeroAt(population: seq<Grid>, g: Grid)
  {
    AllBoards(population) && IndexOf(FitnessesOf(population), 0).Some? &&
    g == population[IndexOf(FitnessesOf(population), 0).value]
  }

  /** A population none of whose fitnesses is 0 holds no solved board. */
  lemma NoZeroFitness(population: seq<Grid>)
    requires AllBoards(population) && IndexOf(FitnessesOf(population), 0).None?
    ensures NoSolvedBoard(population)
  {
    forall k | 0 <= k < |population| ensures FitnessOf(population[k]) > 0 {
      assert FitnessesOf(population)[k] == FitnessOf(population[k]);
    }
  }

  lemma NoSolvedExtend(history: seq<seq<Grid>>, population: seq<Grid>)
    requires forall p :: 0 <= p < |history| ==> NoSolvedBoard(history[p])
    requires NoSolvedBoard(population)
    ensures forall p :: 0 <= p < |history| + 1 ==> NoSolvedBoard((history + [population])[p])
  {
    var after := history + [population];
    forall p | 0 <= p < |after| ensures NoSolvedBoard(after[p]) {
      if p < |history| {
        assert after[p] == history[p];
      } else {
        assert after[p] == population;
      }
    }
  }

  lemma NoSolvedBefore(history: seq<seq<Grid>>, population: seq<Grid>)
    requires forall p :: 0 <= p < |history| ==> NoSolvedBoard(history[p])
    ensures forall p :: 0 <= p < |history + [population]| - 1 ==> NoSolvedBoard((history + [population])[p])
  {
    forall p | 0 <= p < |history + [population]| - 1 ensures NoSolvedBoard((history + [population])[p]) {
      assert (history + [population])[p] == history[p];
    }
  }

  /** `g` is a consistent board with conflicts, taken from one of the
      populations of `history` and no worse than any board in them. */
  ghost predicate BestSoFar(puzzle: Grid, fixed: Mask, g: Grid, history: seq<seq<Grid>>)
    requires IsBoard(puzzle) && IsMask(fixed)
  {
    Consistent(puzzle, fixed, g) && FitnessOf(g) > 0 &&
    (forall p :: 0 <= p < |history| ==> NoWorseThan(g, history[p])) &&
    exists p :: 0 <= p < |history| && g in history[p]
  }

  /** The board `UpdateBest` keeps after evaluating a population without a
      solved board is the best so far over the longer history. */
  lemma BestSoFarExtend(puzzle: Grid, fixed: Mask, history: seq<seq<Grid>>, population: seq<Grid>, best: Option<Grid>,
                        next: Grid)
    requires IsBoard(puzzle) && IsMask(fixed)
    requires AllConsistent(puzzle, fixed, population) && NoSolvedBoard(population)
    requires best.Some? ==> BestSoFar(puzzle, fixed, best.value, history)
    requires best.None? ==> history == []
    requires IsBoard(next) && NoWorseThan(next, population)
    requires next in population || (best.Some? && next == best.value)
    requires best.Some? ==> FitnessOf(next) <= FitnessOf(best.value)
    ensures BestSoFar(puzzle, fixed, next, history + [population])
  {
    var after := history + [population];
    if next in population {
      var k :| 0 <= k < |population| && population[k] == next;
      assert Consistent(puzzle, fixed, population[k]);
      assert after[|history|] == population;
    } else {
      var p :| 0 <= p < |history| && best.value in history[p];
      assert after[p] == history[p];
    }
    if best.Some? {
      NoWorseThanHistory(best.value, next, history);
    }
    forall p | 0 <= p < |after| ensures NoWorseThan(next, after[p]) {
      if p < |history| {
        assert after[p] == history[p];
      } else {
        assert after[p] == population;
      }
    }
  }

  /** `genetic_algorithm`, with `population_size` individuals, elites
      `max(1, scaledElites)` where `scaledElites` is
      `int(elitism_rate * population_size)`, the random draws as parameters,
      and `history` the populations whose fitness was evaluated, the first
      being the initial population. A solved board is returned as soon as
      one has no conflicts; otherwise the fittest board ever evaluated is
      returned after `max_generations`. */
  method GeneticAlgorithm(puzzle: Grid, maxGenerations: int, populationSize: int, scaledElites: int, localIterations: int,
                          shuffles: seq<seq<seq<int>>>, draws: seq<GenerationDraws>)
    returns (outcome: Outcome, ghost history: seq<seq<Grid>>)
    requires IsBoard(puzzle)
    requires |shuffles| == (if populationSize > 0 then populationSize else 0)
    requires forall k :: 0 <= k < |shuffles| ==> |shuffles[k]| == 9
    requires forall k, br, bc :: 0 <= k < |shuffles| && 0 <= br < 3 && 0 <= bc < 3 ==>
      multiset(shuffles[k][3 * br + bc]) == multiset(Missing(FixedNums(puzzle, FixedMask(puzzle), br, bc)))
    requires |draws| >= maxGenerations
    requires forall gen :: 0 <= gen < |draws| ==>
      ValidGenerationDraws(FixedMask(puzzle), |shuffles|, if scaledElites > 1 then scaledElites else 1, draws[gen])
    ensures forall p :: 0 <= p < |history| ==>
      |history[p]| == |shuffles| && AllConsistent(puzzle, FixedMask(puzzle), history[p])
    ensures forall p :: 0 <= p < |history| - 1 ==>
      StepAt(FixedMask(puzzle), |shuffles|, if scaledElites > 1 then scaledElites else 1, draws, localIterations,
             p, history[p], history[p + 1])
    ensures |history| <= (if maxGenerations > 0 then maxGenerations else 0)
    ensures outcome.Solved? ==> SolvedIn(puzzle, FixedMask(puzzle), outcome.board, history)
    ensures outcome.Solved? ==> FitnessOf(outcome.board) == 0
    ensures outcome.Solved? && CluesDistinct(puzzle) ==> IsSolved(outcome.board)
    ensures outcome.Best? ==> (outcome.best.None? <==> maxGenerations <= 0)
    ensures outcome.Best? && outcome.best.Some? ==>
      |history| == maxGenerations && BestSoFar(puzzle, FixedMask(puzzle), outcome.best.value, history)
    ensures outcome.Raised? ==> maxGenerations > 0 && populationSize < 3 && |history| == 1
    ensures maxGenerations > 0 && populationSize <= 0 ==> outcome.Raised?
    ensures maxGenerations > 0 && populationSize < 3 ==> !outcome.Best?
  {
    var fixed := FixedMask(puzzle);
    var population := InitialPopulation(puzzle, fixed, shuffles);
    var eliteCount := if scaledElites > 1 then scaledElites else 1;
    outcome, history := Evolve(puzzle, fixed, population, maxGenerations, eliteCount, localIterations, draws);
  }
}
