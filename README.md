# Sudoku and Minesweeper solvers, modelled in Dafny

The repository solves Sudoku four ways and Minesweeper one way. This project models each solver and proves what it promises:

- **Breadth-first search** (`BFS_Sudoku.py`). A `Problem` finds the first empty cell and the numbers legal there, and builds one child grid per legal number. A FIFO frontier expands grids until one passes the sum-based `goal_test`.
- **Depth-first search** (`DFS_Sudoku.py`). The same `Problem` logic is split into `filter_row`, `filter_col` and `filter_quad`, and a LIFO stack replaces the queue.
- **Block-preserving genetic algorithm** (`main_2.py`). Each 3x3 block of an individual holds 1..9 once, and the clues are fixed. Crossover, mutation and the hill-climbing `local_improvement` only move values inside a block. Fitness counts repeated values in rows and columns. Generations keep an elite and fill the rest through tournament selection.
- **Row-permutation genetic algorithm** (`main.py`). Each row of a chromosome is a permutation of 1..9 built by `make_gene`, which swaps the clues into place. The score is minus the number of repeats in columns and blocks. Crossover swaps whole rows, and mutation regenerates rows.
- **Minesweeper backtracking** (`DFS_MineSweeper.py`). Each `'*'` cell is either a mine or clear. Cells are tried in row-major order, mine first, until every number clue sees exactly that many adjacent mines.

Files:

- `common.dfy`: `Option`, sums, `Distinct`, repeat counts and subsequences.
- `sudoku_problem.dfy`: the `Problem` logic shared by both searches. `filter_values`, `get_spot`, the row, column and block filters and `goal_test` are the same code in both files; the model cites the BFS copy.
- `bfs_sudoku.dfy`, `dfs_sudoku.dfy`: the two searches.
- `block_genetic.dfy`: `main_2.py`.
- `row_genetic.dfy`: `main.py`.
- `minesweeper.dfy`: `DFS_MineSweeper.py`.

How the source is modelled:

- **Random draws.** Every draw the source makes becomes a parameter: a shuffled list, a coin, a sampled pair, a tournament's candidates, a mating-pool pick.
- **Exceptions.** An exception the source can raise on a reachable input is an explicit outcome: `Raised`, or `None` of an `Option`.
- **Loops.** Loops that update variables are methods, each proved against a specification function. The properties are then lemmas about those functions.
- **Grids and chromosomes** are values.
- **The Minesweeper solver** is a class: its `mines` set is a field that `Dfs` adds to and removes from.

## Model

| member | source | states |
|---|---|---|
| SudokuProblem.FilterValues | BFS_Sudoku.py:17-18 | the result is a subsequence of `values`; a number is in it iff it is in `values` and not in `used` |
| SudokuProblem.GetSpot | BFS_Sudoku.py:21-25 | Some: the first cell holding 0 in row-major order; None exactly when no cell holds 0 |
| SudokuProblem.FilterRow | DFS_Sudoku.py:55-60 | strictly increasing; v is an option iff 1 <= v <= type and v is not in the row |
| SudokuProblem.FilterCol | DFS_Sudoku.py:63-69 | a subsequence of the options; keeps exactly the options that do not occur, non-zero, in the column |
| SudokuProblem.FilterQuad | DFS_Sudoku.py:72-82 | a subsequence of the options; keeps exactly the options absent from the height x 3 block at (row/height*height, column/3*3) |
| SudokuProblem.FilterChainIsLegalValues | DFS_Sudoku.py:89-91 | the row, column and block filters in turn yield exactly the increasing list of numbers legal at the cell |
| SudokuProblem.LegalValuesBound | BFS_Sudoku.py:29-54 | at most type legal numbers, strictly increasing, each listed iff legal in its row, column and block |
| SudokuProblem.Place | BFS_Sudoku.py:60-70 | same shape as the state; the cell holds `play` and every other cell is unchanged |
| SudokuProblem.PlaceFillsOneZero | BFS_Sudoku.py:60-70 | writing a number into an empty cell leaves exactly one fewer 0 |
| SudokuProblem.PlaceLegalKeepsInvariants | BFS_Sudoku.py:56-70 | placing a legal number keeps every clue and keeps rows, columns and blocks free of repeats |
| SudokuProblem.SolutionValueIsLegal | BFS_Sudoku.py:29-57 | a solution extending the grid puts a legal number in its first empty cell and extends the child with that number |
| SudokuProblem.LinesSumTo | BFS_Sudoku.py:76-87 | true iff every row has length type and sums to the total, and every column sums to the total |
| SudokuProblem.BlockTotal | BFS_Sudoku.py:93-97 | the sum of the height x 3 block at the given corner |
| SudokuProblem.BlocksSumTo | BFS_Sudoku.py:89-100 | true iff every block sums to the total |
| SudokuProblem.GoalTest | BFS_Sudoku.py:74-102 | true iff rows have length type and every row, column and block sums to type*(type+1)/2 |
| SudokuProblem.BlockIsPermutation | BFS_Sudoku.py:89-100 | a full grid of 1..type without repeats in a block has every block summing to type*(type+1)/2 |
| SudokuProblem.FullAndValidIsGoal | BFS_Sudoku.py:74-102 | a full grid without repeats passes `goal_test` |
| SudokuProblem.ValidGoalIsFull | BFS_Sudoku.py:74-102 | a grid without repeats that passes `goal_test` has no empty cell |
| SudokuProblem.SuccessorsStayOnPath | BFS_Sudoku.py:112-119 | at most type children, each keeping the clues and the absence of repeats, each with exactly one fewer 0 |
| SudokuProblem.SuccessorsKeepSolutions | BFS_Sudoku.py:27-57 | every solution extending a grid extends one of its children |
| SudokuProblem.ExpansionLowersWeight | BFS_Sudoku.py:133-140 | replacing a grid of the frontier by its children lowers the frontier's weight, which bounds the search |
| BfsSudoku.Actions | BFS_Sudoku.py:27-57 | raises (None) iff no cell is empty; otherwise one action per legal number at the first empty cell, in increasing order |
| BfsSudoku.Expand | BFS_Sudoku.py:112-119 | the children's grids are the successors of the node's grid, each child carrying its action |
| BfsSudoku.PutChildren | BFS_Sudoku.py:136-140 | returns the first child that passes `goal_test`, or none of them passes and all are queued behind the frontier |
| BfsSudoku.QueueStepCovers | BFS_Sudoku.py:133-140 | one FIFO step keeps every solution reachable from some queued grid |
| BfsSudoku.QueueStep | BFS_Sudoku.py:133-140 | one round of the loop keeps every queued grid on the search path and not a goal, keeps every solution covered, and lowers the weight of the queue |
| BfsSudoku.BFS | BFS_Sudoku.py:122-142 | Found: passes `goal_test` and keeps the clues, and is a solution when the puzzle has no repeats; NoSolution: no solution exists; Raised: the puzzle has a repeat |
| DfsSudoku.Actions | DFS_Sudoku.py:84-97 | raises (None) iff no cell is empty; otherwise the boards are exactly the successors, in increasing order of the placed number |
| DfsSudoku.Expand | DFS_Sudoku.py:105-107 | the children's grids are the successors of the node's grid |
| DfsSudoku.StackStep | DFS_Sudoku.py:118-123 | one LIFO step keeps every solution reachable from some stacked grid |
| DfsSudoku.DFS | DFS_Sudoku.py:110-125 | Found: passes `goal_test` and keeps the clues, and is a solution when the puzzle has no repeats; NoSolution: no solution exists; Raised: the puzzle has a repeat |
| BlockGenetic.GetBlockIndices | main_2.py:9-17 | the nine cells (3*br + k/3, 3*bc + k%3) in row-major order |
| BlockGenetic.BlockCellsAreTheBlock | main_2.py:9-17 | the nine cells are distinct, on the board, and exactly the cells of block (br, bc) |
| BlockGenetic.FixedAndMissing | main_2.py:28-29 | the block's distinct clues and its missing numbers together are 1..9 once each |
| BlockGenetic.Missing | main_2.py:29 | distinct, and holds exactly the numbers 1..9 absent from `used` |
| BlockGenetic.FillBlock | main_2.py:31-33 | pops the pool into the unfixed cells of one block and changes no other cell |
| BlockGenetic.InitializeBlock | main_2.py:27-33 | fills only the unfixed cells of one block, leaves the other blocks alone, and a block with distinct clues then holds 1..9 |
| BlockGenetic.InitializeBlockRow | main_2.py:26-33 | one pass of the outer block loop: keeps the clues and fills the three blocks of block row br, leaving the earlier block rows filled |
| BlockGenetic.InitializeIndividual | main_2.py:19-34 | keeps every fixed cell, and every block with distinct clues holds 1..9 once |
| BlockGenetic.Fitness | main_2.py:36-49 | the number of repeated values over all rows and all columns |
| BlockGenetic.NoRowConflicts | main_2.py:43-44 | the row conflicts are 0 iff every row is free of repeats |
| BlockGenetic.NoColumnConflicts | main_2.py:46-48 | the column conflicts are 0 iff every column is free of repeats |
| BlockGenetic.ZeroFitnessIsSolved | main_2.py:36-49 | for a board whose blocks hold 1..9, fitness 0 iff rows, columns and blocks are all free of repeats |
| BlockGenetic.TournamentWinner | main_2.py:59-60 | the first candidate of least fitness |
| BlockGenetic.Selection | main_2.py:51-62 | `len(population)` copies, copy t being the winner of tournament t |
| BlockGenetic.CrossoverOf | main_2.py:64-77 | unfixed cells of each flagged block come from parent2; every other cell comes from parent1 |
| BlockGenetic.Crossover | main_2.py:64-77 | the child is `CrossoverOf` the parents |
| BlockGenetic.CrossoverBlock | main_2.py:70-76 | each block of the child is wholly parent1's or wholly parent2's, when the parents agree on fixed cells |
| BlockGenetic.CrossoverKeepsConsistent | main_2.py:64-77 | children of consistent parents keep the clues and blocks of 1..9 |
| BlockGenetic.Unfixed | main_2.py:88 | exactly the given cells that are not fixed, without repeats when the cells have none |
| BlockGenetic.SwapKeepsConsistent | main_2.py:91 | swapping two unfixed cells of one block keeps the clues and the block's values |
| BlockGenetic.SwapInBlock | main_2.py:91 | a swap inside one block keeps that block's multiset of values and leaves every other block unchanged |
| BlockGenetic.MutateBlock | main_2.py:86-91 | one block of `mutate`: the result is that block's mutation step, swapping the chosen pair when the flag fires and at least two cells are unfixed |
| BlockGenetic.MutateBlockRow | main_2.py:84-91 | one pass of the outer block loop of `mutate`: the three blocks of block row br mutated in turn |
| BlockGenetic.Mutate | main_2.py:79-92 | the result is the chosen pair swapped in each flagged block with at least two unfixed cells, block by block |
| BlockGenetic.MutateRearranges | main_2.py:79-92 | for every board, mutation keeps every fixed cell and each block's multiset of values |
| BlockGenetic.MutateKeepsConsistent | main_2.py:79-92 | mutation keeps a board that is consistent with the puzzle consistent |
| BlockGenetic.ScanPairs | main_2.py:111-124 | the result is `ScanOf`, the first improving pair in loop order; Some: the swap (idx1, idx2) lowers the conflicts, and no pair before it in loop order does, idx1 being 0 when the flag was already set; None: no pair improves, or, with the flag set, no partner of idx1 = 0 improves |
| BlockGenetic.ScanPartners | main_2.py:112-122 | the result is `PartnerScan`: the swap of idx1 with its first partner idx2 > idx1 that lowers the conflicts, with the new conflict count, or None |
| BlockGenetic.PartnerScanIsFirst | main_2.py:112-122 | what `PartnerScan` finds is an improving swap of idx1 and no earlier partner improves; when it finds nothing, no partner of idx1 improves |
| BlockGenetic.FirstPartnerIsFirst | main_2.py:112-122 | the partner found from j on lowers the conflicts, and no partner between j and it does |
| BlockGenetic.NoFirstPartner | main_2.py:112-122 | when no partner is found from j on, none of the partners from j on lowers the conflicts |
| BlockGenetic.LocalOptimumNoImprovement | main_2.py:111-122 | a board with no improving swap in any block has none in block (br, bc) |
| BlockGenetic.VisitBlock | main_2.py:106-126 | one block of a pass: the row stops with the board and flag `RowPass` gives from this block, or goes on to the next block with the same row pass ahead; the pass invariants are kept |
| BlockGenetic.ImproveRow | main_2.py:105-126 | one block row of a pass: the board and flag are those of `RowPass`, and the pass invariants carry to the next row |
| BlockGenetic.ImprovementPass | main_2.py:103-126 | the board and flag are those of `PassOf`; a rearrangement within blocks; at most one swap per block row, each lowering the conflicts; no swap taken if and only if the board is a local optimum, and then it is unchanged |
| BlockGenetic.LocalImprovement | main_2.py:94-128 | the board returned is `ImproveOf(individual, fixed, iterations)`: passes while the last one took a swap, at most `iterations` of them; a rearrangement within blocks with no more conflicts; at most 3*iterations swaps, each lowering the conflicts; stops at a local optimum or after every pass improved |
| BlockGenetic.FixedMask | main_2.py:141 | a cell is fixed iff the puzzle's value there is not 0 |
| BlockGenetic.InitialPopulation | main_2.py:142 | one board per shuffle, each consistent with the puzzle |
| BlockGenetic.ConsistentZeroIsSolution | main_2.py:151-154 | a consistent board keeps every clue, and has fitness 0 iff it is a solved Sudoku |
| BlockGenetic.Fitnesses | main_2.py:148 | the fitness of every member, in order |
| BlockGenetic.UpdateBest | main_2.py:156-159 | with no best yet or a strictly better board, the new best is the first board of least fitness; otherwise the old best is kept; the new best is no worse than any board of the generation nor than the old best |
| BlockGenetic.IndexOf | main_2.py:152 | the first index holding the value; None iff the value is absent |
| BlockGenetic.Min | main_2.py:156 | a member of the list no larger than any other |
| BlockGenetic.SortedOrder | main_2.py:167 | a permutation of the indices, stably sorted by fitness |
| BlockGenetic.Breed | main_2.py:176-184 | the child is mutation applied to the crossover of the parents with its draws; after local improvement it is instead `ImproveOf` that, a rearrangement of it with no more conflicts, and a local optimum or `local_iterations` conflicts better; it stays consistent |
| BlockGenetic.BreedPair | main_2.py:174-184 | child1 is bred from (parent1, parent2) and child2 from (parent2, parent1), each with its own draws; both consistent |
| BlockGenetic.BreedPass | main_2.py:173-185 | the two children of the pass at i are bred from `selected[i]` and `selected[(i + 1) % len]`, the second child with the parents swapped |
| BlockGenetic.PartnerIsNextModulo | main_2.py:175 | the partner index, the next position wrapping round to 0, is `(i + 1) % population_size` |
| BlockGenetic.ConsistentChildrenExtend | main_2.py:185 | `next_population.extend([child1, child2])` keeps every child consistent and child k bred as the pair loop numbers it |
| BlockGenetic.BreedInto | main_2.py:173-185 | one pass of the pair loop at i = the number of children so far adds two children and keeps them all consistent and bred in loop order |
| BlockGenetic.ChildCount | main_2.py:173 | `range(0, remaining, 2)` yields two children per step: at least `remaining` children, fewer than `remaining + 2`, none when `remaining <= 0` |
| BlockGenetic.Offspring | main_2.py:172-185 | two children for every i in `range(0, population_size - elite_count, 2)`: child k is bred from `selected[2(k/2)]` and `selected[(2(k/2) + 1) % len]`, in that order for even k and swapped for odd k, with draws k; all consistent |
| BlockGenetic.Winners | main_2.py:51-62 | one tournament winner per tournament, each a board of the population |
| BlockGenetic.Children | main_2.py:171-187 | the first `population_size - elite_count` children the pair loop breeds from the tournament winners, all consistent |
| BlockGenetic.ElitesAreFittest | main_2.py:166-168 | the first `elite_count` indices of the stable fitness order have no more conflicts than any index after them |
| BlockGenetic.GenerationStepOf | main_2.py:165-187 | the elites in stable fitness order followed by the bred children make up the generation step |
| BlockGenetic.NextGeneration | main_2.py:165-187 | the same size; the elites are the boards at the first `elite_count` indices of the stable fitness order, no worse than any non-elite; the rest are the children bred from the tournament winners; every board is consistent |
| BlockGenetic.NoZeroFitness | main_2.py:151 | a population without fitness 0 holds no board of fitness 0 |
| BlockGenetic.EvolvedExtend | main_2.py:147-188 | appending a population that is the generation step from the last one keeps the history a chain of generation steps |
| BlockGenetic.SolvedInLast | main_2.py:151-154 | the board at the first 0 of the fitnesses is consistent, has fitness 0, is solved when the clues are distinct, and no earlier population had a fitness 0 |
| BlockGenetic.BestSoFarExtend | main_2.py:156-159 | the board kept as best after a population without a solution is a consistent board of some evaluated population, no worse than any of them |
| BlockGenetic.Round | main_2.py:148-163 | the evaluation half of a pass: stops with the first board of fitness 0 (no earlier population having one), raises on fewer than three boards, or otherwise keeps as best a consistent board of some evaluated population no worse than any of them |
| BlockGenetic.NextEvolving | main_2.py:156-188 | a pass that evaluates a population without stopping and breeds the generation step from it leaves the loop state of the next generation |
| BlockGenetic.BreedNext | main_2.py:165-188 | once no board is solved, the population bred from the evaluated one is a generation step from it, and the loop state moves to the next generation with the new best board |
| BlockGenetic.EvolveGeneration | main_2.py:147-188 | one pass of the generation loop: the evaluated population is appended to the history, which stays a chain of generation steps; it stops with a solved board or a raise (only in the first pass, on fewer than three boards), or leaves the loop state of the next generation |
| BlockGenetic.StoppedOutcome | main_2.py:151-154 | a return from inside the loop ends it with a solved board, first found in the last evaluated population, or with the raise of the first pass |
| BlockGenetic.FinishedOutcome | main_2.py:147-191 | a loop that ran all `max_generations` passes returns the fittest board of all of them, and None only when there were no passes |
| BlockGenetic.Evolve | main_2.py:147-191 | `history` is the populations evaluated: the first is the initial population, each next is the generation step from the one before with that generation's draws; Solved: the first 0-fitness board of the last population, no earlier one having any; Best: after `max_generations` populations, a board of one of them no worse than any; Raised: too small a population, after one evaluation |
| BlockGenetic.GeneticAlgorithm | main_2.py:130-191 | `history` starts with the initial population of `population_size` consistent boards, each next population being the generation step from the one before; a returned solution is the first 0-fitness board of the last population, no earlier population having one, and is solved for a puzzle with distinct clues; otherwise the best board of all populations evaluated, or None only when no generation ran; too small a population raises |
| RowGenetic.EmptyPuzzle | main.py:36-37 | the default puzzle `[[0] * 9] * 9` is accepted and has no clues |
| RowGenetic.GeneFromFails | main.py:14-25 | `make_gene` raises exactly when the row is shorter than 9 or holds a value outside 0..9 |
| RowGenetic.GeneFromIsPermutation | main.py:16-24 | a gene is a permutation of 1..9 |
| RowGenetic.GeneFromKeepsClues | main.py:20-24 | when the row's clues are distinct, every clue sits at its own index of the gene |
| RowGenetic.SwapKeepsInverse | main.py:22-24 | the swap and the two `mapp` updates keep `mapp` the inverse of `gene` |
| RowGenetic.MakeGene | main.py:14-25 | None exactly when the row raises; otherwise a permutation of 1..9 with each distinct clue at its index |
| RowGenetic.MakeChromosome | main.py:28-32 | None iff some row raises; otherwise nine genes, one per row, clues in place when they are distinct |
| RowGenetic.CreateFirstGeneration | main.py:35-41 | 1000 chromosomes made from the puzzle, or from the all-zero puzzle when none is given; None iff a row raises |
| RowGenetic.CountSeen | main.py:47-52 | the `seen` dictionary counts each value of the line, keys in first-seen order |
| RowGenetic.DeductRepeats | main.py:53-54 | subtracts the number of repeats in the line |
| RowGenetic.ScoreLine | main.py:47-54 | the score minus the number of repeats in one line |
| RowGenetic.CalcScore | main.py:44-67 | minus the number of repeats over the nine columns and the nine 3x3 blocks |
| RowGenetic.ScoreColumns | main.py:46-54 | minus the number of repeats over the nine columns |
| RowGenetic.ScoreBlockRow | main.py:57-66 | the score minus the repeats in the three blocks of block row m |
| RowGenetic.NoColumnRepeats | main.py:46-54 | the column repeats are 0 iff every column is free of repeats |
| RowGenetic.NoRowBlockRepeats | main.py:57-66 | the repeats in the first n blocks of block row m are 0 iff each of those blocks is free of repeats |
| RowGenetic.NoBlockRepeats | main.py:56-66 | the block repeats are 0 iff every block is free of repeats |
| RowGenetic.ZeroScoreIsSolved | main.py:44-67 | for a chromosome of permutation rows, score 0 iff rows, columns and blocks are free of repeats |
| RowGenetic.CrossoverOf | main.py:84-95 | row i of the children is either (ch1[i], ch2[i]) or (ch2[i], ch1[i]) |
| RowGenetic.Crossover | main.py:84-95 | the children are `CrossoverOf` the parents |
| RowGenetic.CrossoverKeepsGood | main.py:84-95 | children of chromosomes that keep the clues keep the clues |
| RowGenetic.MutationOf | main.py:98-103 | None iff a row whose draw fires raises; otherwise each row is kept, or, when the draw is below 10, regenerated from the puzzle's row |
| RowGenetic.Mutation | main.py:98-103 | the result is `MutationOf` the chromosome |
| RowGenetic.MutationKeepsGood | main.py:98-103 | with a puzzle with distinct clues, mutation does not raise and keeps the clues |
| RowGenetic.MutationKeepsChromosome | main.py:98-103 | mutation keeps every row a permutation of 1..9 |
| RowGenetic.MutationSucceeds | main.py:98-103 | with an accepted puzzle, mutation never raises |
| RowGenetic.BreedKeepsGood | main.py:110-115 | one pass of `create_new_generation` on good parents never raises and yields good children |
| RowGenetic.BreedKeepsChromosome | main.py:110-115 | one pass on chromosomes yields chromosomes |
| RowGenetic.Partner | main.py:111 | `(i + 1) % len(population)` is a member index, the next one when there is a next one |
| RowGenetic.BreedOf | main.py:110-115 | both children are nine rows when the pass does not raise |
| RowGenetic.BreedSucceeds | main.py:110-115 | with an accepted puzzle, one pass never raises |
| RowGenetic.CreateNewGeneration | main.py:106-118 | 2*ceil(len/2) chromosomes, pass t breeding members 2t and (2t+1) mod len; None iff some pass raises; never None with an accepted puzzle |
| RowGenetic.BredGood | main.py:106-118 | every chromosome of a bred generation from good members is good |
| RowGenetic.MatingPool | main.py:70-81 | `len(population)` members, slot k the member picked for it |
| RowGenetic.Scores | main.py:128 | the score of every member, in order |
| RowGenetic.MaxOf | main.py:129 | a member of the list no smaller than any other |
| RowGenetic.MatingPoolOf | main.py:78-80 | slot k of the pool holds member `picks[k]` |
| RowGenetic.MaxScoreIsZero | main.py:130-132 | `max(score_list) == 0` holds iff some member scores 0 |
| RowGenetic.Generation | main.py:125-129 | Some: 1000 chromosomes, pass t breeding slots 2t and (2t+1) mod 1000 of the mating pool the picks draw; None iff some pass raises; never None with an accepted puzzle; keeps the clues of good members |
| RowGenetic.BredNoFailure | main.py:106-118 | a generation that was bred had no pass that raised |
| RowGenetic.BredInTurnExtend | main.py:124-129 | appending a generation bred from the last one keeps the history bred in turn |
| RowGenetic.FirstGenerationStarts | main.py:122 | the first generation alone is a history bred in turn, and with distinct puzzle clues every chromosome of it keeps the clues and fills its rows with 1..9 |
| RowGenetic.Evolve | main.py:124-134 | `EvolveOutcome`: the history starts with the first generation and each entry is bred from the one before; Some: the last entry, no generation between holding a score of 0, and one that holds it if the loop stopped early; None: a pass of the last generation raised |
| RowGenetic.GeneticAlgorithm | main.py:121-134 | None with no history when the puzzle is refused; never None for an accepted puzzle; `EvolveOutcome` from the first generation made from the shuffles: the history is that generation, then each generation bred from the one before; Some: the last entry, after 1..1000 generations, stopping at the first one holding a score of 0; None otherwise: a pass of the last generation raised, which with no puzzle happens when a mutation fires; clues kept when distinct |
| Minesweeper.MinesweeperSolver.AdjacentCells | DFS_MineSweeper.py:11-13 | at most 8 cells, no repeats; exactly the in-bounds cells one step from (x, y), other than (x, y) |
| Minesweeper.MinesweeperSolver.CountAdjacent | DFS_MineSweeper.py:19 | the count summed over the adjacent cells is the number of mines around the cell |
| Minesweeper.MinesweeperSolver.ValidState | DFS_MineSweeper.py:15-22 | true iff every number clue equals the number of mines adjacent to its cell |
| Minesweeper.MinesweeperSolver.SolvableAtEnd | DFS_MineSweeper.py:25-26 | past the last row the search succeeds iff the current mines satisfy every clue |
| Minesweeper.MinesweeperSolver.SolvableStep | DFS_MineSweeper.py:28-36 | a completion from (i, j) exists iff one exists with an unknown (i, j) as a mine, or one exists with (i, j) clear |
| Minesweeper.MinesweeperSolver.Dfs | DFS_MineSweeper.py:24-36 | true iff some set of later `'*'` cells added to the mines satisfies every clue, the mine tried first; false leaves `mines` as it was; true leaves a valid state having added only later `'*'` cells |
| Minesweeper.MinesweeperSolver.Solve | DFS_MineSweeper.py:38-44 | succeeds iff the grid can be completed; on success the mines satisfy every clue and the solution marks exactly the mines with `'X'` |

## Left out

- Printing, `time.time` and file or console input are not modelled. This covers `solve_bfs`, `solve_dfs`, `read_file`, `print_chromosome`, `read_grid`, the `main` functions, the `print` calls in both `genetic_algorithm`s, and the printing in `solve`.
- The `random` module is not modelled: each outcome it returns is a parameter.
  - These parameters are only constrained to be valid outcomes, not to be random.
  - Nothing is claimed about convergence.
- Floating point is not modelled.
  - `randint(0, 100) < 0.1 * 100` and `< 0.95 * 100` in main.py become integer thresholds 10 and 95.
  - In main_2.py, the result of each `random.random() < rate` comparison is a boolean parameter.
  - `max(1, int(elitism_rate * population_size))` takes the integer `scaledElites` as a parameter.
  - The `float('inf')` sentinel becomes an `Option`.
- `copy.deepcopy` and in-place list updates are modelled on values. main.py's `mutation` writes rows into the chromosome object it is given, and `random.choices` can place one chromosome object in the mating pool twice. Through that aliasing, mutating one slot also changes the other. The model treats every slot as an independent value.
- `get_mating_pool`'s rank weights and its tuple sort, which compares chromosomes on ties, are not modelled. The pool is given as a list of picks. `RowGenetic.MatingPool` states only that slot k holds the picked member.
- `queue.Queue` is modelled as a plain sequence; its thread safety is left out.
- The Sudoku searches require `type % 3 == 0` and a grid of `type` rows of exactly `type` entries. For other shapes the source indexes outside the board, computes a zero block height, or, for rows longer than `type`, has `goal_test` return False; those paths are not modelled.
- `BlockGenetic.InitialPopulation`: each board is specified by its blocks' values (the clues, and 1..9 in each block whose clues are distinct), not by the order the shuffles put the missing numbers in.
- `BlockGenetic.Selection`: `random.sample` draws three distinct candidates; the model accepts any three valid indices, which covers every draw the source can make.
- `BlockGenetic.NextGeneration`: `selection` raises when the population is smaller than three; the model requires three. `GeneticAlgorithm` models that path as `Raised`.
- `BlockGenetic.LocalImprovement`: the swap count is ghost; it bounds the swaps taken. The boards visited between passes are not returned; only the final board, which `ImproveOf` fixes.
- `Minesweeper.MinesweeperSolver.constructor`: an empty grid raises `IndexError` at `len(grid[0])`; the model requires a non-empty grid.
- `Minesweeper.MinesweeperSolver.Dfs`: requires a non-empty first row and no row shorter than the first, and mines only before (i, j). A shorter row or an empty first row makes the source raise `IndexError`. Calling `solve` a second time on the same solver starts from the mines the first call left; that case is not modelled.
- `Minesweeper.MinesweeperSolver.Solve`: returns whether it solved the grid, with `solution` holding the marks; the printing of `-1` or of the rows is left out.
