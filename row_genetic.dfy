/** The row-permutation genetic solver (main.py). A chromosome is nine rows,
    each a shuffle of 1..9 repaired so that the row's clues sit in place;
    the score counts the values repeated within columns and 3x3 blocks, and
    a generation is bred from a mating pool by row-wise crossover and
    mutation that regenerates whole rows. */
module RowGenetic {
  import opened Common

  const PopulationSize: nat := 1000
  const MaxGeneration: nat := 1000
  /** `randint(0, 100) < MUTATION_PROBABILITY * 100`, where the product is 10.0. */
  const MutationThreshold: int := 10
  /** `randint(0, 100) < CROSSOVER_PROBABILITY * 100`, where the product is 95.0. */
  const CrossoverThreshold: int := 95

  /** Nine rows of values: a candidate solution, or the puzzle with 0 for an empty cell. */
  type Chromosome = seq<seq<int>>

  /** The digits 1..9 in some order, as `random.shuffle(list(range(1, 10)))` leaves them. */
  predicate IsDigitPermutation(s: seq<int>)
  {
    |s| == 9 && multiset(s) == multiset(Range(1, 10))
  }

  /** A puzzle row `make_gene` accepts: nine entries (or more), each 0 or a digit. */
  predicate IsClueRow(row: seq<int>)
  {
    |row| >= 9 && forall i :: 0 <= i < 9 ==> 0 <= row[i] <= 9
  }

  /** A puzzle `make_chromosome` accepts. */
  predicate IsPuzzle(initial: Chromosome)
  {
    |initial| >= 9 && forall i :: 0 <= i < 9 ==> IsClueRow(initial[i])
  }

  /** No clue digit occurs twice among the first nine entries of the row. */
  predicate DistinctClues(row: seq<int>)
  {
    forall i, j :: 0 <= i < 9 && 0 <= j < 9 && i != j && i < |row| && j < |row| && row[i] != 0 ==> row[i] != row[j]
  }

  predicate DistinctPuzzleClues(initial: Chromosome)
  {
    forall i :: 0 <= i < 9 && i < |initial| ==> DistinctClues(initial[i])
  }

  /** `gene` holds every clue of `row` at the clue's own index. */
  predicate KeepsClues(gene: seq<int>, row: seq<int>)
  {
    forall i :: 0 <= i < 9 && i < |row| && i < |gene| && row[i] != 0 ==> gene[i] == row[i]
  }

  /** Nine rows of nine values. */
  predicate IsGrid(ch: Chromosome)
  {
    |ch| == 9 && forall i :: 0 <= i < 9 ==> |ch[i]| == 9
  }

  /** Nine rows, each the digits 1..9 in some order. */
  predicate IsChromosome(ch: Chromosome)
  {
    IsGrid(ch) && forall i :: 0 <= i < 9 ==> IsDigitPermutation(ch[i])
  }

  /** A chromosome for `initial`: nine permutations of 1..9 keeping the clues. */
  predicate IsGood(ch: Chromosome, initial: Chromosome)
  {
    IsChromosome(ch) && |initial| >= 9 && forall i :: 0 <= i < 9 ==> KeepsClues(ch[i], initial[i])
  }

  /** `[[0] * 9] * 9`, the puzzle used when none is given. */
  function EmptyPuzzle(): (p: Chromosome)
    ensures IsPuzzle(p) && DistinctPuzzleClues(p) && forall i, j :: 0 <= i < 9 && 0 <= j < 9 ==> p[i][j] == 0
  {
    seq(9, _ => seq(9, _ => 0))
  }

  lemma DigitPermutationFacts(s: seq<int>)
    requires IsDigitPermutation(s)
    ensures Distinct(s)
    ensures forall v :: v in s <==> 1 <= v <= 9
  {
    PermutationOfDigits(s);
    forall v | 1 <= v <= 9 ensures v in s {
      assert Range(1, 10)[v - 1] == v;
      assert v in multiset(s);
    }
  }

  // ---------------------------------------------------------------------
  // make_gene

  /** The first index of v in s. */
  function Find(s: seq<int>, v: int): (p: nat)
    requires v in s
    ensures p < |s| && s[p] == v && forall k :: 0 <= k < p ==> s[k] != v
  {
    if s[0] == v then 0 else 1 + Find(s[1..], v)
  }

  /** `s[a], s[b] = s[b], s[a]` */
  function Exchange(s: seq<int>, a: nat, b: nat): (r: seq<int>)
    requires a < |s| && b < |s|
    ensures |r| == |s| && r[a] == s[b] && r[b] == s[a] && forall k :: 0 <= k < |s| && k != a && k != b ==> r[k] == s[k]
  {
    s[a := s[b]][b := s[a]]
  }

  lemma ExchangeMultiset(s: seq<int>, a: nat, b: nat)
    requires a < |s| && b < |s|
    ensures multiset(Exchange(s, a, b)) == multiset(s)
  {
    if a != b {
      assert multiset(s[a := s[b]]) == multiset(s) - multiset{s[a]} + multiset{s[b]};
    }
  }

  /** The second loop of `make_gene` from index i on, finding each clue by
      search instead of through the position map: a clue that is not yet in
      place is swapped in from where it stands. None is the IndexError of a
      short row or the KeyError of a clue that is not a digit. */
  function GeneFrom(row: seq<int>, gene: seq<int>, i: nat): (r: Option<seq<int>>)
    requires i <= 9 <= |gene|
    ensures r.Some? ==> |r.value| == |gene|
    decreases 9 - i
  {
    if i == 9 then Some(gene)
    else if i >= |row| then None
    else if row[i] != 0 && gene[i] != row[i] then
      if row[i] in gene then GeneFrom(row, Exchange(gene, Find(gene, row[i]), i), i + 1) else None
    else GeneFrom(row, gene, i + 1)
  }

  /** The repair fails exactly on a row that is short or holds a non-digit. */
  lemma {:induction false} GeneFromFails(row: seq<int>, gene: seq<int>, i: nat)
    requires |gene| == 9 && i <= 9 && IsDigitPermutation(gene)
    requires i <= |row| && forall k :: 0 <= k < i ==> 0 <= row[k] <= 9
    ensures GeneFrom(row, gene, i).None? <==> !IsClueRow(row)
    decreases 9 - i, 1
  {
    if i < 9 && i < |row| {
      var v := row[i];
      DigitPermutationFacts(gene);
      if v != 0 && gene[i] != v {
        if v in gene {
          SwapStepFails(row, gene, i);
        } else {
          assert !(0 <= row[i] <= 9);
        }
      } else {
        assert gene[i] in gene;
        GeneFromFails(row, gene, i + 1);
      }
    }
  }

  lemma {:induction false} SwapStepFails(row: seq<int>, gene: seq<int>, i: nat)
    requires |gene| == 9 && i < 9 && IsDigitPermutation(gene)
    requires i < |row| && forall k :: 0 <= k < i ==> 0 <= row[k] <= 9
    requires row[i] != 0 && gene[i] != row[i] && row[i] in gene
    ensures GeneFrom(row, gene, i).None? <==> !IsClueRow(row)
    decreases 9 - i, 0
  {
    var next := Exchange(gene, Find(gene, row[i]), i);
    assert GeneFrom(row, gene, i) == GeneFrom(row, next, i + 1);
    ExchangeMultiset(gene, Find(gene, row[i]), i);
    assert IsDigitPermutation(next);
    DigitPermutationFacts(gene);
    assert 1 <= row[i] <= 9;
    assert forall k :: 0 <= k < i + 1 ==> 0 <= row[k] <= 9;
    GeneFromFails(row, next, i + 1);
  }

  /** The repair only swaps, so it returns a permutation of 1..9. */
  lemma {:induction false} GeneFromIsPermutation(row: seq<int>, gene: seq<int>, i: nat)
    requires |gene| == 9 && i <= 9 && IsDigitPermutation(gene)
    ensures GeneFrom(row, gene, i).Some? ==> IsDigitPermutation(GeneFrom(row, gene, i).value)
    decreases 9 - i
  {
    if i < 9 && i < |row| {
      if row[i] != 0 && gene[i] != row[i] {
        if row[i] in gene {
          ExchangeMultiset(gene, Find(gene, row[i]), i);
          GeneFromIsPermutation(row, Exchange(gene, Find(gene, row[i]), i), i + 1);
        }
      } else {
        GeneFromIsPermutation(row, gene, i + 1);
      }
    }
  }

  /** With distinct clues, a clue put in place is never moved again, so
      every clue ends at its own index. */
  lemma {:induction false} GeneFromKeepsClues(row: seq<int>, gene: seq<int>, i: nat)
    requires |gene| == 9 && i <= 9 && DistinctClues(row)
    requires forall k :: 0 <= k < i && k < |row| && row[k] != 0 ==> gene[k] == row[k]
    ensures GeneFrom(row, gene, i).Some? ==> KeepsClues(GeneFrom(row, gene, i).value, row)
    decreases 9 - i
  {
    if i < 9 && i < |row| {
      if row[i] != 0 && gene[i] != row[i] {
        if row[i] in gene {
          var p := Find(gene, row[i]);
          var next := Exchange(gene, p, i);
          forall k | 0 <= k < i + 1 && k < |row| && row[k] != 0 ensures next[k] == row[k] {
            if k < i {
              assert gene[k] == row[k];
              assert p != k;
            }
          }
          GeneFromKeepsClues(row, next, i + 1);
        }
      } else {
        GeneFromKeepsClues(row, gene, i + 1);
      }
    }
  }

  /** `mapp` is the inverse of `gene` on its first n positions. */
  ghost predicate InverseUpTo(gene: seq<int>, mapp: map<int, int>, n: nat)
    requires n <= |gene|
  {
    (forall k :: 0 <= k < n ==> gene[k] in mapp && mapp[gene[k]] == k) &&
    (forall v :: v in mapp ==> 0 <= mapp[v] < n && gene[mapp[v]] == v)
  }

  /** One swap of the second loop keeps `mapp` the inverse of `gene`. */
  lemma SwapKeepsInverse(gene: seq<int>, mapp: map<int, int>, i: nat, v: int)
    requires |gene| == 9 && i < 9 && Distinct(gene) && InverseUpTo(gene, mapp, 9)
    requires v in mapp && gene[i] != v
    ensures InverseUpTo(Exchange(gene, mapp[v], i), mapp[v := i][gene[i] := mapp[v]], 9)
  {
    var p := mapp[v];
    var g, m := Exchange(gene, p, i), mapp[v := i][gene[i] := p];
    forall k | 0 <= k < 9 ensures g[k] in m && m[g[k]] == k {
      if k != p && k != i {
        assert gene[k] != v && gene[k] != gene[i];
      }
    }
  }

  /** `make_gene`: shuffle 1..9, record each digit's index in `mapp`, then
      for every clue not yet in place swap it in from the index `mapp`
      gives and update `mapp`. None is the IndexError of a row shorter than
      nine or the KeyError of a clue that is not a digit. */
  method MakeGene(initialGene: seq<int>, shuffled: seq<int>) returns (gene: Option<seq<int>>)
    requires IsDigitPermutation(shuffled)
    ensures gene == GeneFrom(initialGene, shuffled, 0)
    ensures gene.None? <==> !IsClueRow(initialGene)
    ensures gene.Some? ==> IsDigitPermutation(gene.value) && |gene.value| == 9
    ensures gene.Some? && DistinctClues(initialGene) ==> KeepsClues(gene.value, initialGene)
  {
    DigitPermutationFacts(shuffled);
    GeneFromFails(initialGene, shuffled, 0);
    GeneFromIsPermutation(initialGene, shuffled, 0);
    if DistinctClues(initialGene) {
      GeneFromKeepsClues(initialGene, shuffled, 0);
    }
    var g := shuffled;
    var mapp: map<int, int> := map[];
    for i := 0 to 9
      invariant InverseUpTo(g, mapp, i)
    {
      mapp := mapp[g[i] := i];
    }
    for i := 0 to 9
      invariant |g| == 9 && IsDigitPermutation(g) && InverseUpTo(g, mapp, 9)
      invariant GeneFrom(initialGene, g, i) == GeneFrom(initialGene, shuffled, 0)
    {
      DigitPermutationFacts(g);
      if i >= |initialGene| {
        return None;
      }
      var v := initialGene[i];
      if v != 0 && g[i] != v {
        if v !in mapp {
          return None;
        }
        var p := mapp[v];
        assert Find(g, v) == p;
        SwapKeepsInverse(g, mapp, i, v);
        ExchangeMultiset(g, p, i);
        var temp := (g[i], g[p]);
        g := g[p := temp.0][i := temp.1];
        mapp := mapp[v := i][temp.0 := p];
      }
    }
    return Some(g);
  }

  // ---------------------------------------------------------------------
  // make_chromosome, create_first_generation

  /** `ch` is the chromosome `make_chromosome` builds from `initial` with
      these shuffles: row i is the repaired i-th shuffle. */
  ghost predicate MadeFrom(initial: Chromosome, shuffles: seq<seq<int>>, ch: Chromosome)
  {
    IsChromosome(ch) && |initial| >= 9 && |shuffles| == 9 &&
    forall i :: 0 <= i < 9 ==> |shuffles[i]| == 9 && GeneFrom(initial[i], shuffles[i], 0) == Some(ch[i])
  }

  /** A chromosome made from a puzzle with distinct clues keeps them. */
  lemma MadeFromIsGood(initial: Chromosome, shuffles: seq<seq<int>>, ch: Chromosome)
    requires MadeFrom(initial, shuffles, ch) && DistinctPuzzleClues(initial)
    ensures IsGood(ch, initial)
  {
    forall i | 0 <= i < 9 ensures KeepsClues(ch[i], initial[i]) {
      GeneFromKeepsClues(initial[i], shuffles[i], 0);
    }
  }

  /** `gene` is what `make_gene` makes of `row` from `shuffle`. */
  ghost predicate MadeRow(row: seq<int>, shuffle: seq<int>, gene: seq<int>)
  {
    IsClueRow(row) && IsDigitPermutation(gene) && |gene| == 9 && |shuffle| == 9 &&
    GeneFrom(row, shuffle, 0) == Some(gene)
  }

  /** The first rows of a chromosome under construction. */
  ghost predicate MadeRows(initial: Chromosome, shuffles: seq<seq<int>>, rows: Chromosome)
  {
    |rows| <= |initial| && |rows| <= |shuffles| &&
    forall k :: 0 <= k < |rows| ==> MadeRow(initial[k], shuffles[k], rows[k])
  }

  lemma MadeRowsExtend(initial: Chromosome, shuffles: seq<seq<int>>, rows: Chromosome, gene: seq<int>)
    requires MadeRows(initial, shuffles, rows) && |rows| < |initial| && |rows| < |shuffles|
    requires MadeRow(initial[|rows|], shuffles[|rows|], gene)
    ensures MadeRows(initial, shuffles, rows + [gene])
  {
    var next := rows + [gene];
    forall k | 0 <= k < |next| ensures MadeRow(initial[k], shuffles[k], next[k]) {
      if k < |rows| {
        assert next[k] == rows[k];
      } else {
        assert next[k] == gene;
      }
    }
  }

  /** `make_chromosome`: row i is `make_gene(initial_chromosome[i])`, the
      i-th shuffle supplying its `random.shuffle`. None is the error of a
      puzzle with fewer than nine rows or a row `make_gene` refuses. */
  method MakeChromosome(initial: Chromosome, shuffles: seq<seq<int>>) returns (chromosome: Option<Chromosome>)
    requires |shuffles| == 9 && forall i :: 0 <= i < 9 ==> |shuffles[i]| == 9 && IsDigitPermutation(shuffles[i])
    ensures chromosome.None? <==> !IsPuzzle(initial)
    ensures chromosome.Some? ==> MadeFrom(initial, shuffles, chromosome.value)
    ensures chromosome.Some? && DistinctPuzzleClues(initial) ==> IsGood(chromosome.value, initial)
  {
    var rows: Chromosome := [];
    for i := 0 to 9
      invariant |rows| == i && MadeRows(initial, shuffles, rows)
    {
      if i >= |initial| {
        return None;
      }
      var gene := MakeGene(initial[i], shuffles[i]);
      if gene.None? {
        return None;
      }
      MadeRowsExtend(initial, shuffles, rows, gene.value);
      rows := rows + [gene.value];
    }
    assert MadeFrom(initial, shuffles, rows);
    if DistinctPuzzleClues(initial) {
      MadeFromIsGood(initial, shuffles, rows);
    }
    return Some(rows);
  }

  /** The puzzle `create_first_generation` works from. */
  function PuzzleOrEmpty(initial: Option<Chromosome>): (p: Chromosome)
    ensures initial.None? ==> IsPuzzle(p) && DistinctPuzzleClues(p)
    ensures initial.Some? ==> p == initial.value
  {
    if initial.None? then EmptyPuzzle() else initial.value
  }

  /** Each of `members` is made from the puzzle with its own shuffles, and
      keeps the clues when they are distinct. */
  ghost predicate MadeMembers(puzzle: Chromosome, shuffles: seq<seq<seq<int>>>, members: seq<Chromosome>)
    requires |members| <= |shuffles|
  {
    forall q :: 0 <= q < |members| ==>
      MadeFrom(puzzle, shuffles[q], members[q]) && (DistinctPuzzleClues(puzzle) ==> IsGood(members[q], puzzle))
  }

  lemma MadeMembersExtend(puzzle: Chromosome, shuffles: seq<seq<seq<int>>>, members: seq<Chromosome>, ch: Chromosome)
    requires |members| < |shuffles| && MadeMembers(puzzle, shuffles, members)
    requires MadeFrom(puzzle, shuffles[|members|], ch) && (DistinctPuzzleClues(puzzle) ==> IsGood(ch, puzzle))
    ensures MadeMembers(puzzle, shuffles, members + [ch])
  {
    var next := members + [ch];
    forall q | 0 <= q < |next|
      ensures MadeFrom(puzzle, shuffles[q], next[q]) && (DistinctPuzzleClues(puzzle) ==> IsGood(next[q], puzzle))
    {
      if q < |members| {
        assert next[q] == members[q];
      }
    }
  }

  /** `create_first_generation`: `POPULATION_SIZE` chromosomes of the
      puzzle, or of the empty puzzle when none is given. */
  method CreateFirstGeneration(initial: Option<Chromosome>, shuffles: seq<seq<seq<int>>>)
    returns (population: Option<seq<Chromosome>>)
    requires |shuffles| == PopulationSize
    requires forall p :: 0 <= p < PopulationSize ==> |shuffles[p]| == 9
    requires forall p, i :: 0 <= p < PopulationSize && 0 <= i < 9 ==>
      |shuffles[p][i]| == 9 && IsDigitPermutation(shuffles[p][i])
    ensures population.None? <==> !IsPuzzle(PuzzleOrEmpty(initial))
    ensures population.Some? ==>
      |population.value| == PopulationSize &&
      forall p :: 0 <= p < PopulationSize ==> MadeFrom(PuzzleOrEmpty(initial), shuffles[p], population.value[p])
    ensures population.Some? && DistinctPuzzleClues(PuzzleOrEmpty(initial)) ==>
      forall p :: 0 <= p < PopulationSize ==> IsGood(population.value[p], PuzzleOrEmpty(initial))
  {
    var puzzle := PuzzleOrEmpty(initial);
    var members: seq<Chromosome> := [];
    for p := 0 to PopulationSize
      invariant |members| == p && (p > 0 ==> IsPuzzle(puzzle))
      invariant MadeMembers(puzzle, shuffles, members)
    {
      var chromosome := MakeChromosome(puzzle, shuffles[p]);
      if chromosome.None? {
        return None;
      }
      MadeMembersExtend(puzzle, shuffles, members, chromosome.value);
      members := members + [chromosome.value];
    }
    return Some(members);
  }
  // ---------------------------------------------------------------------
  // calc_score

  /** `chromosome[j][i]` for j in `range(9)`: column i as the first loop reads it. */
  function ColumnOf(ch: Chromosome, i: nat): (s: seq<int>)
    requires IsGrid(ch) && i < 9
    ensures |s| == 9 && forall j :: 0 <= j < 9 ==> s[j] == ch[j][i]
  {
    seq(9, j requires 0 <= j < 9 => ch[j][i])
  }

  /** Block (m, n), rows `3m..3m+2` and columns `3n..3n+2`, read as the
      second loop reads it: column by column, each column top to bottom. */
  function BlockOf(ch: Chromosome, m: nat, n: nat): (s: seq<int>)
    requires IsGrid(ch) && m < 3 && n < 3
    ensures |s| == 9
  {
    seq(9, k requires 0 <= k < 9 => ch[3 * m + k % 3][3 * n + k / 3])
  }

  /** Repeated values in the first c columns. */
  function ColumnRepeats(ch: Chromosome, c: nat): nat
    requires IsGrid(ch) && c <= 9
  {
    if c == 0 then 0 else ColumnRepeats(ch, c - 1) + DupCount(ColumnOf(ch, c - 1))
  }

  /** Repeated values in blocks (m, 0) .. (m, n - 1) of block row m. */
  function RowBlockRepeats(ch: Chromosome, m: nat, n: nat): nat
    requires IsGrid(ch) && m < 3 && n <= 3
  {
    if n == 0 then 0 else RowBlockRepeats(ch, m, n - 1) + DupCount(BlockOf(ch, m, n - 1))
  }

  /** Repeated values in the blocks of the first m block rows. */
  function BlockRepeats(ch: Chromosome, m: nat): nat
    requires IsGrid(ch) && m <= 3
  {
    if m == 0 then 0 else BlockRepeats(ch, m - 1) + RowBlockRepeats(ch, m - 1, 3)
  }

  /** The score: minus the number of repeated values over all columns and
      all blocks (rows are permutations and never repeat). */
  function ScoreOf(ch: Chromosome): (score: int)
    requires IsGrid(ch)
    ensures score <= 0
  {
    -((ColumnRepeats(ch, 9) + BlockRepeats(ch, 3)) as int)
  }

  /** A Python dict counting occurrences: its keys in insertion order, the
      order `for key in seen` visits them, and the count of each key. */
  datatype Seen = Seen(keys: seq<int>, counts: map<int, int>)

  /** The sum of the counts of `keys`. */
  function CountTotal(keys: seq<int>, counts: map<int, int>): int
    requires forall k :: 0 <= k < |keys| ==> keys[k] in counts
  {
    if keys == [] then 0 else CountTotal(keys[..|keys| - 1], counts) + counts[keys[|keys| - 1]]
  }

  /** `seen` counts the values of `line`: one key per distinct value, the
      counts adding up to the length of the line. */
  ghost predicate Tallies(seen: Seen, line: seq<int>)
  {
    Distinct(seen.keys) && (forall k :: 0 <= k < |seen.keys| ==> seen.keys[k] in seen.counts) &&
    (forall v :: v in seen.counts ==> v in seen.keys) &&
    Elements(seen.keys) == Elements(line) && CountTotal(seen.keys, seen.counts) == |line|
  }

  /** Counting one more occurrence of a key raises the total by one. */
  lemma {:induction false} CountTotalBump(keys: seq<int>, counts: map<int, int>, v: int)
    requires forall k :: 0 <= k < |keys| ==> keys[k] in counts
    requires Distinct(keys) && v in keys
    ensures CountTotal(keys, counts[v := counts[v] + 1]) == CountTotal(keys, counts) + 1
    decreases |keys|
  {
    var front := keys[..|keys| - 1];
    assert Distinct(front) by {
      forall a, b | 0 <= a < b < |front| ensures front[a] != front[b] {
        assert front[a] == keys[a] && front[b] == keys[b];
      }
    }
    if keys[|keys| - 1] == v {
      assert v !in front by {
        forall a | 0 <= a < |front| ensures front[a] != v {
          assert front[a] == keys[a];
        }
      }
      CountTotalFresh(front, counts, v, counts[v] + 1);
    } else {
      assert v in front by {
        var a :| 0 <= a < |keys| && keys[a] == v;
        assert front[a] == v;
      }
      CountTotalBump(front, counts, v);
    }
  }

  /** Setting the count of a value that is not a key leaves the total alone. */
  lemma {:induction false} CountTotalFresh(keys: seq<int>, counts: map<int, int>, v: int, c: int)
    requires forall k :: 0 <= k < |keys| ==> keys[k] in counts
    requires v !in keys
    ensures CountTotal(keys, counts[v := c]) == CountTotal(keys, counts)
    decreases |keys|
  {
    if keys != [] {
      var front := keys[..|keys| - 1];
      assert v !in front by {
        forall a | 0 <= a < |front| ensures front[a] != v {
          assert front[a] == keys[a];
        }
      }
      CountTotalFresh(front, counts, v, c);
    }
  }

  lemma ElementsAppend(s: seq<int>, v: int)
    ensures Elements(s + [v]) == Elements(s) + {v}
  {
    assert forall x :: x in s + [v] <==> x in s || x == v;
  }

  /** `seen[v] += 1` for a value already seen. */
  lemma TallyAgain(seen: Seen, line: seq<int>, v: int)
    requires Tallies(seen, line) && v in seen.counts
    ensures Tallies(seen.(counts := seen.counts[v := seen.counts[v] + 1]), line + [v])
  {
    ElementsAppend(line, v);
    CountTotalBump(seen.keys, seen.counts, v);
  }

  /** `seen[v] = 1` for a value not seen before. */
  lemma TallyFirst(seen: Seen, line: seq<int>, v: int)
    requires Tallies(seen, line) && v !in seen.counts
    ensures Tallies(Seen(seen.keys + [v], seen.counts[v := 1]), line + [v])
  {
    ElementsAppend(line, v);
    ElementsAppend(seen.keys, v);
    CountTotalFresh(seen.keys, seen.counts, v, 1);
    var keys := seen.keys + [v];
    assert keys[..|keys| - 1] == seen.keys;
  }

  /** The inner loops of `calc_score` that fill `seen`. */
  method CountSeen(line: seq<int>) returns (seen: Seen)
    ensures Tallies(seen, line)
  {
    seen := Seen([], map[]);
    for j := 0 to |line|
      invariant Tallies(seen, line[..j])
    {
      var v := line[j];
      assert line[..j + 1] == line[..j] + [v];
      if v in seen.counts {
        TallyAgain(seen, line[..j], v);
        seen := seen.(counts := seen.counts[v := seen.counts[v] + 1]);
      } else {
        TallyFirst(seen, line[..j], v);
        seen := Seen(seen.keys + [v], seen.counts[v := 1]);
      }
    }
    assert line[..|line|] == line;
  }

  /** `for key in seen: score -= (seen[key] - 1)`: the values of the line
      that repeat an earlier one are deducted. */
  method DeductRepeats(score: int, seen: Seen, ghost line: seq<int>) returns (newScore: int)
    requires Tallies(seen, line)
    ensures newScore == score - DupCount(line)
  {
    newScore := score;
    for k := 0 to |seen.keys|
      invariant newScore == score - (CountTotal(seen.keys[..k], seen.counts) - k)
    {
      assert seen.keys[..k + 1][..k] == seen.keys[..k];
      newScore := newScore - (seen.counts[seen.keys[k]] - 1);
    }
    assert seen.keys[..|seen.keys|] == seen.keys;
    DistinctElements(seen.keys);
    DupCountIsLengthMinusDistinct(line);
  }

  /** One column or block of `calc_score`: count it into `seen`, then
      deduct its repeats from the score. */
  method ScoreLine(score: int, line: seq<int>) returns (newScore: int)
    ensures newScore == score - DupCount(line)
  {
    var seen := CountSeen(line);
    newScore := DeductRepeats(score, seen, line);
  }

  /** The first loop of `calc_score`, over the columns. */
  method ScoreColumns(chromosome: Chromosome) returns (score: int)
    requires IsGrid(chromosome)
    ensures score == -(ColumnRepeats(chromosome, 9) as int)
  {
    score := 0;
    for i := 0 to 9
      invariant score == -(ColumnRepeats(chromosome, i) as int)
    {
      var column := seq(9, j requires 0 <= j < 9 => chromosome[j][i]);
      assert column == ColumnOf(chromosome, i);
      score := ScoreLine(score, column);
    }
  }

  /** One pass of the outer block loop of `calc_score`: the three blocks
      of block row m, each deducting its repeats. */
  method ScoreBlockRow(chromosome: Chromosome, m: nat, score: int) returns (newScore: int)
    requires IsGrid(chromosome) && m < 3
    ensures newScore == score - RowBlockRepeats(chromosome, m, 3)
  {
    newScore := score;
    for n := 0 to 3
      invariant newScore == score - RowBlockRepeats(chromosome, m, n)
    {
      newScore := ScoreLine(newScore, BlockOf(chromosome, m, n));
    }
  }

  /** `calc_score` */
  method CalcScore(chromosome: Chromosome) returns (score: int)
    requires IsGrid(chromosome)
    ensures score == ScoreOf(chromosome)
  {
    score := ScoreColumns(chromosome);
    for m := 0 to 3
      invariant score == -((ColumnRepeats(chromosome, 9) + BlockRepeats(chromosome, m)) as int)
    {
      score := ScoreBlockRow(chromosome, m, score);
    }
  }

  lemma {:induction false} NoColumnRepeats(ch: Chromosome, c: nat)
    requires IsGrid(ch) && c <= 9
    ensures ColumnRepeats(ch, c) == 0 <==> forall i :: 0 <= i < c ==> Distinct(ColumnOf(ch, i))
  {
    if c > 0 {
      NoColumnRepeats(ch, c - 1);
      NoDuplicatesIffDistinct(ColumnOf(ch, c - 1));
    }
  }

  lemma {:induction false} NoRowBlockRepeats(ch: Chromosome, m: nat, n: nat)
    requires IsGrid(ch) && m < 3 && n <= 3
    ensures RowBlockRepeats(ch, m, n) == 0 <==> forall k :: 0 <= k < n ==> Distinct(BlockOf(ch, m, k))
  {
    if n > 0 {
      NoRowBlockRepeats(ch, m, n - 1);
      NoDuplicatesIffDistinct(BlockOf(ch, m, n - 1));
    }
  }

  lemma {:induction false} NoBlockRepeats(ch: Chromosome, m: nat)
    requires IsGrid(ch) && m <= 3
    ensures BlockRepeats(ch, m) == 0 <==> forall b, k :: 0 <= b < m && 0 <= k < 3 ==> Distinct(BlockOf(ch, b, k))
  {
    if m > 0 {
      NoBlockRepeats(ch, m - 1);
      NoRowBlockRepeats(ch, m - 1, 3);
    }
  }

  /** A solved grid: every row, column and block holds 1..9 once each. */
  ghost predicate IsSolved(ch: Chromosome)
    requires IsGrid(ch)
  {
    (forall i :: 0 <= i < 9 ==> Distinct(ch[i])) &&
    (forall i :: 0 <= i < 9 ==> Distinct(ColumnOf(ch, i))) &&
    (forall m, n :: 0 <= m < 3 && 0 <= n < 3 ==> Distinct(BlockOf(ch, m, n)))
  }

  /** A chromosome scores 0 exactly when it is a solved grid. */
  lemma ZeroScoreIsSolved(ch: Chromosome)
    requires IsChromosome(ch)
    ensures ScoreOf(ch) == 0 <==> IsSolved(ch)
  {
    NoColumnRepeats(ch, 9);
    NoBlockRepeats(ch, 3);
    forall i | 0 <= i < 9 ensures Distinct(ch[i]) {
      DigitPermutationFacts(ch[i]);
    }
  }

  // ---------------------------------------------------------------------
  // crossover, mutation

  /** The two children of row-wise crossover: row i of the first child
      comes from `ch1` when the i-th coin (`randint(0, 1) == 1`) is up and
      from `ch2` otherwise, and the second child takes the other row. */
  function CrossoverOf(ch1: Chromosome, ch2: Chromosome, coins: seq<bool>): (children: (Chromosome, Chromosome))
    requires |ch1| >= 9 && |ch2| >= 9 && |coins| == 9
    ensures |children.0| == 9 && |children.1| == 9
    ensures forall i :: 0 <= i < 9 ==>
      (children.0[i] == ch1[i] && children.1[i] == ch2[i]) || (children.0[i] == ch2[i] && children.1[i] == ch1[i])
  {
    (seq(9, i requires 0 <= i < 9 => if coins[i] then ch1[i] else ch2[i]),
     seq(9, i requires 0 <= i < 9 => if coins[i] then ch2[i] else ch1[i]))
  }

  /** Crossover swaps whole rows, so children of good parents are good. */
  lemma CrossoverKeepsGood(ch1: Chromosome, ch2: Chromosome, coins: seq<bool>, initial: Chromosome)
    requires |coins| == 9 && IsGood(ch1, initial) && IsGood(ch2, initial)
    ensures IsGood(CrossoverOf(ch1, ch2, coins).0, initial) && IsGood(CrossoverOf(ch1, ch2, coins).1, initial)
  {
    var (child1, child2) := CrossoverOf(ch1, ch2, coins);
    forall i | 0 <= i < 9
      ensures |child1[i]| == 9 && IsDigitPermutation(child1[i]) && KeepsClues(child1[i], initial[i])
      ensures |child2[i]| == 9 && IsDigitPermutation(child2[i]) && KeepsClues(child2[i], initial[i])
    {
      if coins[i] {
        assert child1[i] == ch1[i] && child2[i] == ch2[i];
      } else {
        assert child1[i] == ch2[i] && child2[i] == ch1[i];
      }
    }
  }

  /** `crossover` */
  method Crossover(ch1: Chromosome, ch2: Chromosome, coins: seq<bool>) returns (newChild1: Chromosome, newChild2: Chromosome)
    requires |ch1| >= 9 && |ch2| >= 9 && |coins| == 9
    ensures (newChild1, newChild2) == CrossoverOf(ch1, ch2, coins)
  {
    newChild1, newChild2 := [], [];
    for i := 0 to 9
      invariant |newChild1| == i && |newChild2| == i
      invariant forall k :: 0 <= k < i ==>
        newChild1[k] == (if coins[k] then ch1[k] else ch2[k]) && newChild2[k] == (if coins[k] then ch2[k] else ch1[k])
    {
      if coins[i] {
        newChild1 := newChild1 + [ch1[i]];
        newChild2 := newChild2 + [ch2[i]];
      } else {
        newChild2 := newChild2 + [ch1[i]];
        newChild1 := newChild1 + [ch2[i]];
      }
    }
    assert newChild1 == CrossoverOf(ch1, ch2, coins).0;
    assert newChild2 == CrossoverOf(ch1, ch2, coins).1;
  }

  /** The outcome of `randint(0, 100)` for one row of `mutation`, and the
      shuffle `make_gene` uses if the row is regenerated. */
  datatype RowDraw = RowDraw(x: int, shuffle: seq<int>)

  predicate ValidRowDraws(draws: seq<RowDraw>)
  {
    |draws| == 9 && forall i :: 0 <= i < 9 ==>
      0 <= draws[i].x <= 100 && |draws[i].shuffle| == 9 && IsDigitPermutation(draws[i].shuffle)
  }

  /** Row i is regenerated and `make_gene(initial[i])` raises: no puzzle
      (the TypeError of indexing None), too few rows, or a refused row. */
  predicate RowFails(initial: Option<Chromosome>, d: RowDraw, i: nat)
    requires |d.shuffle| == 9 && i < 9
  {
    d.x < MutationThreshold &&
    (initial.None? || i >= |initial.value| || GeneFrom(initial.value[i], d.shuffle, 0).None?)
  }

  /** Some row that is regenerated raises. */
  predicate SomeRowFails(initial: Option<Chromosome>, draws: seq<RowDraw>)
    requires ValidRowDraws(draws)
  {
    exists i :: 0 <= i < 9 && RowFails(initial, draws[i], i)
  }

  /** Row i after `mutation`: kept when its draw is at least
      `MUTATION_PROBABILITY * 100`, otherwise `make_gene(initial[i])`. */
  predicate RowMutated(before: seq<int>, initial: Option<Chromosome>, d: RowDraw, i: nat, row: seq<int>)
    requires |d.shuffle| == 9
  {
    (d.x >= MutationThreshold ==> row == before) &&
    (d.x < MutationThreshold ==>
      initial.Some? && i < |initial.value| && GeneFrom(initial.value[i], d.shuffle, 0) == Some(row))
  }

  /** `mutation` on values: None when a regenerated row raises, otherwise
      each row kept or replaced by `make_gene(initial[i])`. */
  function MutationOf(ch: Chromosome, initial: Option<Chromosome>, draws: seq<RowDraw>): (r: Option<Chromosome>)
    requires |ch| == 9 && ValidRowDraws(draws)
    ensures r.None? <==> SomeRowFails(initial, draws)
    ensures r.Some? ==> |r.value| == 9 && forall i :: 0 <= i < 9 ==> RowMutated(ch[i], initial, draws[i], i, r.value[i])
  {
    if SomeRowFails(initial, draws) then None
    else Some(seq(9, i requires 0 <= i < 9 =>
      if draws[i].x >= MutationThreshold then ch[i] else GeneFrom(initial.value[i], draws[i].shuffle, 0).value))
  }

  /** With a puzzle whose clues are distinct, mutation never raises and
      keeps a good chromosome good. */
  lemma MutationKeepsGood(ch: Chromosome, initial: Chromosome, draws: seq<RowDraw>)
    requires ValidRowDraws(draws) && IsPuzzle(initial) && DistinctPuzzleClues(initial) && IsGood(ch, initial)
    ensures MutationOf(ch, Some(initial), draws).Some?
    ensures IsGood(MutationOf(ch, Some(initial), draws).value, initial)
  {
    forall i | 0 <= i < 9 ensures !RowFails(Some(initial), draws[i], i) {
      GeneFromFails(initial[i], draws[i].shuffle, 0);
    }
    var r := MutationOf(ch, Some(initial), draws).value;
    forall i | 0 <= i < 9 ensures |r[i]| == 9 && IsDigitPermutation(r[i]) && KeepsClues(r[i], initial[i]) {
      if draws[i].x < MutationThreshold {
        GeneFromIsPermutation(initial[i], draws[i].shuffle, 0);
        GeneFromKeepsClues(initial[i], draws[i].shuffle, 0);
      }
    }
  }

  /** Mutation keeps every row a permutation of 1..9, whatever the puzzle. */
  lemma MutationKeepsChromosome(ch: Chromosome, initial: Option<Chromosome>, draws: seq<RowDraw>)
    requires ValidRowDraws(draws) && IsChromosome(ch) && MutationOf(ch, initial, draws).Some?
    ensures IsChromosome(MutationOf(ch, initial, draws).value)
  {
    var r := MutationOf(ch, initial, draws).value;
    forall i | 0 <= i < 9 ensures |r[i]| == 9 && IsDigitPermutation(r[i]) {
      if draws[i].x < MutationThreshold {
        GeneFromIsPermutation(initial.value[i], draws[i].shuffle, 0);
      }
    }
  }

  /** `mutation`, on values: row i is regenerated when its draw is below
      `MUTATION_PROBABILITY * 100`. */
  method Mutation(chromosome: Chromosome, initial: Option<Chromosome>, draws: seq<RowDraw>)
    returns (mutated: Option<Chromosome>)
    requires |chromosome| == 9 && ValidRowDraws(draws)
    ensures mutated == MutationOf(chromosome, initial, draws)
  {
    var rows := chromosome;
    for i := 0 to 9
      invariant |rows| == 9 && forall k :: i <= k < 9 ==> rows[k] == chromosome[k]
      invariant forall k :: 0 <= k < i ==> !RowFails(initial, draws[k], k)
      invariant forall k :: 0 <= k < i ==> RowMutated(chromosome[k], initial, draws[k], k, rows[k])
    {
      if draws[i].x < MutationThreshold {
        if initial.None? || i >= |initial.value| {
          assert RowFails(initial, draws[i], i);
          return None;
        }
        var gene := MakeGene(initial.value[i], draws[i].shuffle);
        if gene.None? {
          assert RowFails(initial, draws[i], i);
          return None;
        }
        rows := rows[i := gene.value];
      }
    }
    MutatedRowsAre(chromosome, initial, draws, rows);
    return Some(rows);
  }

  /** Rows each kept or regenerated as their draws say, with no row
      raising, are what `MutationOf` gives. */
  lemma MutatedRowsAre(ch: Chromosome, initial: Option<Chromosome>, draws: seq<RowDraw>, rows: Chromosome)
    requires |ch| == 9 && ValidRowDraws(draws) && |rows| == 9
    requires forall k :: 0 <= k < 9 ==> !RowFails(initial, draws[k], k)
    requires forall k :: 0 <= k < 9 ==> RowMutated(ch[k], initial, draws[k], k, rows[k])
    ensures MutationOf(ch, initial, draws) == Some(rows)
  {
    assert !SomeRowFails(initial, draws);
    var r := MutationOf(ch, initial, draws).value;
    forall k | 0 <= k < 9 ensures r[k] == rows[k] {
      assert RowMutated(ch[k], initial, draws[k], k, r[k]);
    }
    assert r == rows;
  }
  /** With a puzzle that `make_chromosome` accepts, no regenerated row
      raises. */
  lemma MutationSucceeds(ch: Chromosome, initial: Chromosome, draws: seq<RowDraw>)
    requires |ch| == 9 && ValidRowDraws(draws) && IsPuzzle(initial)
    ensures MutationOf(ch, Some(initial), draws).Some?
  {
    forall i | 0 <= i < 9 ensures !RowFails(Some(initial), draws[i], i) {
      GeneFromFails(initial[i], draws[i].shuffle, 0);
    }
  }

  // ---------------------------------------------------------------------
  // create_new_generation

  /** The outcomes behind one pass of the loop of `create_new_generation`:
      the crossover draw `randint(0, 100)`, the crossover coins, and the
      mutation draws of each child. */
  datatype PairDraw = PairDraw(x: int, coins: seq<bool>, mutation1: seq<RowDraw>, mutation2: seq<RowDraw>)

  predicate ValidPairDraw(d: PairDraw)
  {
    0 <= d.x <= 100 && |d.coins| == 9 && ValidRowDraws(d.mutation1) && ValidRowDraws(d.mutation2)
  }

  /** One pass: crossover when the draw is below
      `CROSSOVER_PROBABILITY * 100`, then mutation of each child; None when
      a mutation raises. */
  function BreedOf(ch1: Chromosome, ch2: Chromosome, initial: Option<Chromosome>, d: PairDraw): (r: Option<(Chromosome, Chromosome)>)
    requires |ch1| == 9 && |ch2| == 9 && ValidPairDraw(d)
    ensures r.Some? ==> |r.value.0| == 9 && |r.value.1| == 9
  {
    var crossed := if d.x < CrossoverThreshold then CrossoverOf(ch1, ch2, d.coins) else (ch1, ch2);
    var mutated1 := MutationOf(crossed.0, initial, d.mutation1);
    var mutated2 := MutationOf(crossed.1, initial, d.mutation2);
    if mutated1.Some? && mutated2.Some? then Some((mutated1.value, mutated2.value)) else None
  }

  /** Children of good parents are good, and with a puzzle that is
      accepted no mutation raises. */
  lemma BreedKeepsGood(ch1: Chromosome, ch2: Chromosome, initial: Chromosome, d: PairDraw)
    requires ValidPairDraw(d) && IsPuzzle(initial) && DistinctPuzzleClues(initial)
    requires IsGood(ch1, initial) && IsGood(ch2, initial)
    ensures BreedOf(ch1, ch2, Some(initial), d).Some?
    ensures IsGood(BreedOf(ch1, ch2, Some(initial), d).value.0, initial)
    ensures IsGood(BreedOf(ch1, ch2, Some(initial), d).value.1, initial)
  {
    var crossed := if d.x < CrossoverThreshold then CrossoverOf(ch1, ch2, d.coins) else (ch1, ch2);
    if d.x < CrossoverThreshold {
      CrossoverKeepsGood(ch1, ch2, d.coins, initial);
    }
    MutationKeepsGood(crossed.0, initial, d.mutation1);
    MutationKeepsGood(crossed.1, initial, d.mutation2);
  }

  /** With an accepted puzzle, a pass never raises. */
  lemma BreedSucceeds(ch1: Chromosome, ch2: Chromosome, initial: Chromosome, d: PairDraw)
    requires |ch1| == 9 && |ch2| == 9 && ValidPairDraw(d) && IsPuzzle(initial)
    ensures BreedOf(ch1, ch2, Some(initial), d).Some?
  {
    var crossed := if d.x < CrossoverThreshold then CrossoverOf(ch1, ch2, d.coins) else (ch1, ch2);
    MutationSucceeds(crossed.0, initial, d.mutation1);
    MutationSucceeds(crossed.1, initial, d.mutation2);
  }

  /** Children of chromosomes are chromosomes, with or without a puzzle. */
  lemma BreedKeepsChromosome(ch1: Chromosome, ch2: Chromosome, initial: Option<Chromosome>, d: PairDraw)
    requires ValidPairDraw(d) && IsChromosome(ch1) && IsChromosome(ch2)
    requires BreedOf(ch1, ch2, initial, d).Some?
    ensures IsChromosome(BreedOf(ch1, ch2, initial, d).value.0) && IsChromosome(BreedOf(ch1, ch2, initial, d).value.1)
  {
    var crossed := if d.x < CrossoverThreshold then CrossoverOf(ch1, ch2, d.coins) else (ch1, ch2);
    if d.x < CrossoverThreshold {
      assert IsGood(ch1, EmptyPuzzle()) && IsGood(ch2, EmptyPuzzle());
      CrossoverKeepsGood(ch1, ch2, d.coins, EmptyPuzzle());
    }
    MutationKeepsChromosome(crossed.0, initial, d.mutation1);
    MutationKeepsChromosome(crossed.1, initial, d.mutation2);
  }

  /** `len(range(0, size, 2))`: the passes of the loop. */
  function PairCount(size: nat): (p: nat)
    ensures size <= 2 * p <= size + 1
  {
    (size + 1) / 2
  }

  /** `(i + 1) % len(population)`: the second parent of the pass at i. */
  function Partner(i: nat, size: nat): (j: nat)
    requires size > 0
    ensures j < size && (i + 1 < size ==> j == i + 1)
  {
    (i + 1) % size
  }

  /** The first `pairs` passes produced `next`: pass t bred
      `population[2t]` with its partner using the t-th draws. */
  ghost predicate BredPairs(population: seq<Chromosome>, initial: Option<Chromosome>, draws: seq<PairDraw>,
                            next: seq<Chromosome>, pairs: nat)
  {
    |population| > 0 && 2 * pairs <= |population| + 1 && pairs <= |draws| && |next| == 2 * pairs &&
    forall t :: 0 <= t < pairs ==> PairBred(population, initial, draws, next, t)
  }

  /** Pass t bred `population[2t]` with its partner into `next[2t]` and
      `next[2t + 1]`, using the t-th draws. */
  ghost predicate PairBred(population: seq<Chromosome>, initial: Option<Chromosome>, draws: seq<PairDraw>,
                           next: seq<Chromosome>, t: nat)
    requires 2 * t < |population| && t < |draws| && 2 * t + 1 < |next|
  {
    |population[2 * t]| == 9 && |population[Partner(2 * t, |population|)]| == 9 && ValidPairDraw(draws[t]) &&
    BreedOf(population[2 * t], population[Partner(2 * t, |population|)], initial, draws[t]) == Some((next[2 * t], next[2 * t + 1]))
  }

  lemma BredPairsExtend(population: seq<Chromosome>, initial: Option<Chromosome>, draws: seq<PairDraw>,
                        next: seq<Chromosome>, pairs: nat, child1: Chromosome, child2: Chromosome)
    requires BredPairs(population, initial, draws, next, pairs) && 2 * pairs < |population| && pairs < |draws|
    requires |population[2 * pairs]| == 9 && |population[Partner(2 * pairs, |population|)]| == 9 && ValidPairDraw(draws[pairs])
    requires BreedOf(population[2 * pairs], population[Partner(2 * pairs, |population|)], initial, draws[pairs]) == Some((child1, child2))
    ensures BredPairs(population, initial, draws, next + [child1, child2], pairs + 1)
  {
    var after := next + [child1, child2];
    forall t | 0 <= t < pairs + 1 ensures PairBred(population, initial, draws, after, t) {
      if t < pairs {
        assert PairBred(population, initial, draws, next, t);
        assert after[2 * t] == next[2 * t] && after[2 * t + 1] == next[2 * t + 1];
      }
    }
  }

  /** Children bred from chromosomes are chromosomes. */
  lemma BredChromosomes(population: seq<Chromosome>, initial: Option<Chromosome>, draws: seq<PairDraw>,
                        next: seq<Chromosome>, pairs: nat)
    requires BredPairs(population, initial, draws, next, pairs)
    requires forall k :: 0 <= k < |population| ==> IsChromosome(population[k])
    ensures forall k :: 0 <= k < |next| ==> IsChromosome(next[k])
  {
    forall k | 0 <= k < |next| ensures IsChromosome(next[k]) {
      var t := k / 2;
      assert k == 2 * t || k == 2 * t + 1;
      assert PairBred(population, initial, draws, next, t);
      BreedKeepsChromosome(population[2 * t], population[Partner(2 * t, |population|)], initial, draws[t]);
    }
  }

  /** Children bred from good chromosomes are good. */
  lemma BredGood(population: seq<Chromosome>, initial: Chromosome, draws: seq<PairDraw>,
                 next: seq<Chromosome>, pairs: nat)
    requires BredPairs(population, Some(initial), draws, next, pairs)
    requires IsPuzzle(initial) && DistinctPuzzleClues(initial)
    requires forall k :: 0 <= k < |population| ==> IsGood(population[k], initial)
    ensures forall k :: 0 <= k < |next| ==> IsGood(next[k], initial)
  {
    forall k | 0 <= k < |next| ensures IsGood(next[k], initial) {
      var t := k / 2;
      assert k == 2 * t || k == 2 * t + 1;
      assert PairBred(population, Some(initial), draws, next, t);
      BreedKeepsGood(population[2 * t], population[Partner(2 * t, |population|)], initial, draws[t]);
    }
  }

  /** `create_new_generation`: passes at i = 0, 2, 4, ... while i is below
      the population size, each appending two children. */
  method CreateNewGeneration(population: seq<Chromosome>, initial: Option<Chromosome>, draws: seq<PairDraw>)
    returns (newPopulation: Option<seq<Chromosome>>)
    requires forall k :: 0 <= k < |population| ==> |population[k]| == 9
    requires |draws| >= PairCount(|population|) && forall t :: 0 <= t < |draws| ==> ValidPairDraw(draws[t])
    ensures newPopulation.Some? && |population| > 0 ==>
      BredPairs(population, initial, draws, newPopulation.value, PairCount(|population|))
    ensures newPopulation.Some? ==> |newPopulation.value| == 2 * PairCount(|population|)
    ensures newPopulation.None? ==>
      (|population| > 0 &&
       exists t :: (0 <= t < PairCount(|population|) &&
         BreedOf(population[2 * t], population[Partner(2 * t, |population|)], initial, draws[t]).None?))
    ensures initial.Some? && IsPuzzle(initial.value) ==> newPopulation.Some?
  {
    var next: seq<Chromosome> := [];
    if |population| == 0 {
      return Some(next);
    }
    var i := 0;
    var pair := 0;
    while i < |population|
      invariant i == 2 * pair && BredPairs(population, initial, draws, next, pair)
      decreases |population| - i
    {
      var ch1 := population[i];
      var ch2 := population[(i + 1) % |population|];
      assert ch2 == population[Partner(i, |population|)];
      var d := draws[pair];
      ghost var bred := BreedOf(ch1, ch2, initial, d);
      if initial.Some? && IsPuzzle(initial.value) {
        BreedSucceeds(ch1, ch2, initial.value, d);
      }
      if d.x < CrossoverThreshold {
        ch1, ch2 := Crossover(ch1, ch2, d.coins);
      }
      var mutated1 := Mutation(ch1, initial, d.mutation1);
      if mutated1.None? {
        return None;
      }
      var mutated2 := Mutation(ch2, initial, d.mutation2);
      if mutated2.None? {
        return None;
      }
      BredPairsExtend(population, initial, draws, next, pair, mutated1.value, mutated2.value);
      next := next + [mutated1.value, mutated2.value];
      i := i + 2;
      pair := pair + 1;
    }
    return Some(next);
  }

  // ---------------------------------------------------------------------
  // get_mating_pool, genetic_algorithm

  /** `get_mating_pool` followed by `random.shuffle(mating_pool)`: slot k
      of the pool holds member `picks[k]` of the population. */
  method MatingPool(population: seq<Chromosome>, picks: seq<nat>) returns (pool: seq<Chromosome>)
    requires |picks| == |population| && forall k :: 0 <= k < |picks| ==> picks[k] < |population|
    ensures |pool| == |population| && forall k :: 0 <= k < |pool| ==> pool[k] == population[picks[k]]
  {
    pool := [];
    for k := 0 to |population|
      invariant |pool| == k && forall j :: 0 <= j < k ==> pool[j] == population[picks[j]]
    {
      pool := pool + [population[picks[k]]];
    }
  }

  /** The outcomes behind one generation: the mating pool and the draws of
      each pass of `create_new_generation`. */
  datatype GenerationDraw = GenerationDraw(picks: seq<nat>, pairs: seq<PairDraw>)

  predicate ValidGenerationDraw(d: GenerationDraw)
  {
    |d.picks| == PopulationSize && (forall k :: 0 <= k < PopulationSize ==> d.picks[k] < PopulationSize) &&
    |d.pairs| >= PairCount(PopulationSize) && forall t :: 0 <= t < |d.pairs| ==> ValidPairDraw(d.pairs[t])
  }

  /** `[calc_score(chromosome) for chromosome in population]` */
  method Scores(population: seq<Chromosome>) returns (scores: seq<int>)
    requires forall k :: 0 <= k < |population| ==> IsGrid(population[k])
    ensures |scores| == |population| && forall k :: 0 <= k < |population| ==> scores[k] == ScoreOf(population[k])
  {
    scores := [];
    for k := 0 to |population|
      invariant |scores| == k && forall j :: 0 <= j < k ==> scores[j] == ScoreOf(population[j])
    {
      var score := CalcScore(population[k]);
      scores := scores + [score];
    }
  }

  /** `max(s)` */
  function MaxOf(s: seq<int>): (m: int)
    requires |s| > 0
    ensures m in s && forall k :: 0 <= k < |s| ==> s[k] <= m
  {
    if |s| == 1 then s[0]
    else
      var rest := MaxOf(s[1..]);
      if s[0] >= rest then s[0] else rest
  }

  /** `max(score_list) == 0` for `score_list` the scores of the
      population: scores are never positive, so the maximum is 0 exactly
      when some member scores 0. */
  method MaxScoreIsZero(population: seq<Chromosome>) returns (solved: bool)
    requires |population| > 0 && forall k :: 0 <= k < |population| ==> IsGrid(population[k])
    ensures solved <==> exists k :: 0 <= k < |population| && ScoreOf(population[k]) == 0
  {
    var scores := Scores(population);
    var maxScore := MaxOf(scores);
    solved := maxScore == 0;
  }

  /** Every member of every population in `history` is a grid that does
      not score 0. */
  ghost predicate NoneSolved(history: seq<seq<Chromosome>>)
  {
    forall g, k :: 0 <= g < |history| && 0 <= k < |history[g]| ==> IsGrid(history[g][k]) && ScoreOf(history[g][k]) != 0
  }

  lemma NoneSolvedExtend(history: seq<seq<Chromosome>>, population: seq<Chromosome>)
    requires NoneSolved(history)
    requires forall k :: 0 <= k < |population| ==> IsGrid(population[k]) && ScoreOf(population[k]) != 0
    ensures NoneSolved(history + [population])
  {
    var after := history + [population];
    forall g, k | 0 <= g < |after| && 0 <= k < |after[g]| ensures IsGrid(after[g][k]) && ScoreOf(after[g][k]) != 0 {
      if g < |history| {
        assert after[g] == history[g];
      }
    }
  }

  lemma NoneSolvedPrefix(history: seq<seq<Chromosome>>, n: nat)
    requires NoneSolved(history) && n <= |history|
    ensures NoneSolved(history[..n])
  {
    forall g, k | 0 <= g < n && 0 <= k < |history[..n][g]|
      ensures IsGrid(history[..n][g][k]) && ScoreOf(history[..n][g][k]) != 0
    {
      assert history[..n][g] == history[g];
    }
  }

  /** A full population of chromosomes. */
  ghost predicate FullPopulation(population: seq<Chromosome>)
  {
    |population| == PopulationSize && forall k :: 0 <= k < PopulationSize ==> IsChromosome(population[k])
  }

  /** Every member keeps the clues of an accepted puzzle. */
  ghost predicate AllGood(population: seq<Chromosome>, initial: Chromosome)
  {
    IsPuzzle(initial) && DistinctPuzzleClues(initial) && forall k :: 0 <= k < |population| ==> IsGood(population[k], initial)
  }

  /** The mating pool as a value: slot k holds member `picks[k]`. */
  function MatingPoolOf(population: seq<Chromosome>, picks: seq<nat>): (pool: seq<Chromosome>)
    requires forall k :: 0 <= k < |picks| ==> picks[k] < |population|
    ensures |pool| == |picks| && forall k :: 0 <= k < |picks| ==> pool[k] == population[picks[k]]
  {
    seq(|picks|, k requires 0 <= k < |picks| => population[picks[k]])
  }

  /** `next` is what `create_new_generation` breeds, with the passes' draws
      `d.pairs`, from the mating pool that `d.picks` draws from `current`. */
  ghost predicate GenerationBred(current: seq<Chromosome>, initial: Option<Chromosome>, d: GenerationDraw,
                                 next: seq<Chromosome>)
  {
    |current| == PopulationSize && ValidGenerationDraw(d) &&
    BredPairs(MatingPoolOf(current, d.picks), initial, d.pairs, next, PairCount(PopulationSize))
  }

  /** Some pass of `create_new_generation` on the mating pool raises. */
  ghost predicate GenerationFails(current: seq<Chromosome>, initial: Option<Chromosome>, d: GenerationDraw)
    requires FullPopulation(current) && ValidGenerationDraw(d)
  {
    var pool := MatingPoolOf(current, d.picks);
    exists t :: 0 <= t < PairCount(PopulationSize) &&
      BreedOf(pool[2 * t], pool[Partner(2 * t, PopulationSize)], initial, d.pairs[t]).None?
  }

  /** One generation of the loop of `genetic_algorithm`: the mating pool,
      then `create_new_generation` on it. */
  method Generation(current: seq<Chromosome>, initial: Option<Chromosome>, d: GenerationDraw)
    returns (next: Option<seq<Chromosome>>)
    requires FullPopulation(current) && ValidGenerationDraw(d)
    ensures next.Some? ==> GenerationBred(current, initial, d, next.value)
    ensures next.None? <==> GenerationFails(current, initial, d)
    ensures initial.Some? && IsPuzzle(initial.value) ==> next.Some?
    ensures next.Some? ==> FullPopulation(next.value)
    ensures next.Some? && initial.Some? && AllGood(current, initial.value) ==> AllGood(next.value, initial.value)
  {
    var matingPool := MatingPool(current, d.picks);
    assert matingPool == MatingPoolOf(current, d.picks);
    next := CreateNewGeneration(matingPool, initial, d.pairs);
    if next.Some? {
      BredChromosomes(matingPool, initial, d.pairs, next.value, PairCount(PopulationSize));
      if initial.Some? && AllGood(current, initial.value) {
        BredGood(matingPool, initial.value, d.pairs, next.value, PairCount(PopulationSize));
      }
      BredNoFailure(current, initial, d, next.value);
    }
  }

  /** A generation that was bred has no pass that raised. */
  lemma BredNoFailure(current: seq<Chromosome>, initial: Option<Chromosome>, d: GenerationDraw, next: seq<Chromosome>)
    requires FullPopulation(current) && GenerationBred(current, initial, d, next)
    ensures !GenerationFails(current, initial, d)
  {
    var pool := MatingPoolOf(current, d.picks);
    forall t | 0 <= t < PairCount(PopulationSize)
      ensures BreedOf(pool[2 * t], pool[Partner(2 * t, PopulationSize)], initial, d.pairs[t]).Some?
    {
      assert PairBred(pool, initial, d.pairs, next, t);
    }
  }

  /** `population` is the first generation: member p is made from the
      puzzle (or the empty puzzle) with the p-th shuffles. */
  ghost predicate FirstGeneration(initial: Option<Chromosome>, shuffles: seq<seq<seq<int>>>, population: seq<Chromosome>)
  {
    |population| == PopulationSize && |shuffles| == PopulationSize &&
    forall p :: 0 <= p < PopulationSize ==> MadeFrom(PuzzleOrEmpty(initial), shuffles[p], population[p])
  }

  /** `history` starts with the first generation, and each later entry is
      bred from the one before with that generation's draws. */
  ghost predicate BredInTurn(initial: Option<Chromosome>, shuffles: seq<seq<seq<int>>>, draws: seq<GenerationDraw>,
                             history: seq<seq<Chromosome>>)
  {
    1 <= |history| <= |draws| + 1 && FirstGeneration(initial, shuffles, history[0]) &&
    (forall g :: 0 <= g < |history| ==> FullPopulation(history[g])) &&
    forall g :: 0 <= g < |history| - 1 ==> GenerationBred(history[g], initial, draws[g], history[g + 1])
  }

  lemma BredInTurnExtend(initial: Option<Chromosome>, shuffles: seq<seq<seq<int>>>, draws: seq<GenerationDraw>,
                         history: seq<seq<Chromosome>>, next: seq<Chromosome>)
    requires BredInTurn(initial, shuffles, draws, history) && |history| <= |draws|
    requires GenerationBred(history[|history| - 1], initial, draws[|history| - 1], next) && FullPopulation(next)
    ensures BredInTurn(initial, shuffles, draws, history + [next])
  {
    var after := history + [next];
    assert after[0] == history[0];
    forall g | 0 <= g < |after| ensures FullPopulation(after[g]) {
      if g < |history| {
        assert after[g] == history[g];
      }
    }
    forall g | 0 <= g < |after| - 1 ensures GenerationBred(after[g], initial, draws[g], after[g + 1]) {
      if g < |history| - 1 {
        assert after[g] == history[g] && after[g + 1] == history[g + 1];
      }
    }
  }

  /** The loop of `genetic_algorithm`, from the first generation on: at
      most `MAX_GENERATION` generations, each bred from a mating pool of
      the last, stopping after the first one in which some chromosome
      scores 0. `history` holds `first` and every generation bred, in
      order; None is a pass that raised. */
  method Evolve(first: seq<Chromosome>, initial: Option<Chromosome>, draws: seq<GenerationDraw>,
                ghost shuffles: seq<seq<seq<int>>>)
    returns (population: Option<seq<Chromosome>>, ghost history: seq<seq<Chromosome>>)
    requires |draws| == MaxGeneration && forall g :: 0 <= g < MaxGeneration ==> ValidGenerationDraw(draws[g])
    requires BredInTurn(initial, shuffles, draws, [first])
    requires initial.Some? && DistinctPuzzleClues(initial.value) ==> AllGood(first, initial.value)
    ensures initial.Some? && IsPuzzle(initial.value) ==> population.Some?
    ensures EvolveOutcome(first, initial, shuffles, draws, population, history)
  {
    var current := first;
    history := [first];
    var generation := 0;
    while generation < MaxGeneration
      invariant generation + 1 == |history|
      invariant EvolvingAt(first, initial, shuffles, draws, history, current)
      decreases MaxGeneration - generation
    {
      var next := Generation(current, initial, draws[generation]);
      if next.None? {
        EvolveFailed(first, initial, shuffles, draws, history, current);
        return None, history;
      }
      var solved := MaxScoreIsZero(next.value);
      if solved {
        EvolvedSolved(first, initial, shuffles, draws, history, current, next.value);
        return Some(next.value), history + [next.value];
      }
      EvolvingExtend(first, initial, shuffles, draws, history, current, next.value);
      current := next.value;
      history := history + [current];
      generation := generation + 1;
    }
    EvolveFinished(first, initial, shuffles, draws, history, current);
    return Some(current), history;
  }

  /** What `Evolve` promises: `history` holds `first` and every
      generation bred, in order; Some is the last generation, bred at
      most `MAX_GENERATION` times, holding a chromosome that scores 0
      unless the cap was reached, with no generation before it solved;
      None is a pass that raised while breeding the next generation. */
  ghost predicate EvolveOutcome(first: seq<Chromosome>, initial: Option<Chromosome>, shuffles: seq<seq<seq<int>>>,
                                draws: seq<GenerationDraw>, population: Option<seq<Chromosome>>,
                                history: seq<seq<Chromosome>>)
  {
    BredInTurn(initial, shuffles, draws, history) && history[0] == first &&
    (initial.Some? && IsPuzzle(initial.value) ==> population.Some?) &&
    (population.Some? ==>
      2 <= |history| <= MaxGeneration + 1 && history[|history| - 1] == population.value &&
      NoneSolved(history[1..|history| - 1])) &&
    (population.Some? && |history| <= MaxGeneration ==>
      exists k :: 0 <= k < PopulationSize && ScoreOf(population.value[k]) == 0) &&
    (population.None? ==>
      |history| <= MaxGeneration && |draws| == MaxGeneration &&
      FullPopulation(history[|history| - 1]) && ValidGenerationDraw(draws[|history| - 1]) &&
      GenerationFails(history[|history| - 1], initial, draws[|history| - 1])) &&
    (population.Some? && initial.Some? && DistinctPuzzleClues(initial.value) ==>
      AllGood(population.value, initial.value))
  }

  /** The invariant of the loop of `genetic_algorithm`: `history` starts
      with `first`, is bred in turn, ends with `current`, and no
      generation bred so far holds a chromosome that scores 0. */
  ghost predicate EvolvingAt(first: seq<Chromosome>, initial: Option<Chromosome>, shuffles: seq<seq<seq<int>>>,
                             draws: seq<GenerationDraw>, history: seq<seq<Chromosome>>, current: seq<Chromosome>)
  {
    1 <= |history| <= MaxGeneration + 1 && |draws| == MaxGeneration &&
    BredInTurn(initial, shuffles, draws, history) && history[0] == first && history[|history| - 1] == current &&
    NoneSolved(history[1..]) &&
    (initial.Some? && DistinctPuzzleClues(initial.value) ==> AllGood(current, initial.value))
  }

  /** A generation bred from `current` in which nothing scores 0 extends
      the loop invariant. */
  lemma EvolvingExtend(first: seq<Chromosome>, initial: Option<Chromosome>, shuffles: seq<seq<seq<int>>>,
                       draws: seq<GenerationDraw>, history: seq<seq<Chromosome>>, current: seq<Chromosome>,
                       next: seq<Chromosome>)
    requires EvolvingAt(first, initial, shuffles, draws, history, current) && |history| <= MaxGeneration
    requires GenerationBred(current, initial, draws[|history| - 1], next) && FullPopulation(next)
    requires initial.Some? && AllGood(current, initial.value) ==> AllGood(next, initial.value)
    requires !exists k :: 0 <= k < |next| && ScoreOf(next[k]) == 0
    ensures EvolvingAt(first, initial, shuffles, draws, history + [next], next)
  {
    BredInTurnExtend(initial, shuffles, draws, history, next);
    NoneSolvedExtend(history[1..], next);
    assert (history + [next])[1..] == history[1..] + [next];
  }

  /** A generation bred from `current` that holds a chromosome scoring 0
      ends the loop with that generation. */
  lemma EvolvedSolved(first: seq<Chromosome>, initial: Option<Chromosome>, shuffles: seq<seq<seq<int>>>,
                      draws: seq<GenerationDraw>, history: seq<seq<Chromosome>>, current: seq<Chromosome>,
                      next: seq<Chromosome>)
    requires EvolvingAt(first, initial, shuffles, draws, history, current) && |history| <= MaxGeneration
    requires GenerationBred(current, initial, draws[|history| - 1], next) && FullPopulation(next)
    requires initial.Some? && AllGood(current, initial.value) ==> AllGood(next, initial.value)
    requires exists k :: 0 <= k < |next| && ScoreOf(next[k]) == 0
    ensures EvolveOutcome(first, initial, shuffles, draws, Some(next), history + [next])
  {
    BredInTurnExtend(initial, shuffles, draws, history, next);
    assert (history + [next])[1..|history|] == history[1..];
  }

  /** A pass that raised while breeding from `current` ends the loop with
      None. */
  lemma EvolveFailed(first: seq<Chromosome>, initial: Option<Chromosome>, shuffles: seq<seq<seq<int>>>,
                     draws: seq<GenerationDraw>, history: seq<seq<Chromosome>>, current: seq<Chromosome>)
    requires EvolvingAt(first, initial, shuffles, draws, history, current) && |history| <= MaxGeneration
    requires FullPopulation(current) && ValidGenerationDraw(draws[|history| - 1])
    requires GenerationFails(current, initial, draws[|history| - 1])
    requires initial.Some? && IsPuzzle(initial.value) ==> !GenerationFails(current, initial, draws[|history| - 1])
    ensures EvolveOutcome(first, initial, shuffles, draws, None, history)
  {
  }

  /** After `MAX_GENERATION` generations without a solution the loop ends
      with the last one. */
  lemma EvolveFinished(first: seq<Chromosome>, initial: Option<Chromosome>, shuffles: seq<seq<seq<int>>>,
                       draws: seq<GenerationDraw>, history: seq<seq<Chromosome>>, current: seq<Chromosome>)
    requires EvolvingAt(first, initial, shuffles, draws, history, current) && |history| == MaxGeneration + 1
    ensures EvolveOutcome(first, initial, shuffles, draws, Some(current), history)
  {
    NoneSolvedPrefix(history[1..], |history| - 2);
    assert history[1..][..|history| - 2] == history[1..|history| - 1];
  }

  /** The first generation starts a history bred in turn, and keeps the
      clues when they are distinct. */
  lemma FirstGenerationStarts(initial: Option<Chromosome>, shuffles: seq<seq<seq<int>>>, draws: seq<GenerationDraw>,
                              first: seq<Chromosome>)
    requires |shuffles| == PopulationSize && |first| == PopulationSize && IsPuzzle(PuzzleOrEmpty(initial))
    requires forall p :: 0 <= p < PopulationSize ==> MadeFrom(PuzzleOrEmpty(initial), shuffles[p], first[p])
    requires DistinctPuzzleClues(PuzzleOrEmpty(initial)) ==>
      forall p :: 0 <= p < PopulationSize ==> IsGood(first[p], PuzzleOrEmpty(initial))
    ensures BredInTurn(initial, shuffles, draws, [first])
    ensures initial.Some? && DistinctPuzzleClues(initial.value) ==> AllGood(first, initial.value)
  {
    assert FirstGeneration(initial, shuffles, first) && FullPopulation(first);
  }

  /** `genetic_algorithm`: `create_first_generation`, then the loop.
      `history` holds the first generation and every generation bred, in
      order. None is an exception raised on the way: a puzzle
      `make_chromosome` refuses, or a mutation without a puzzle. */
  method GeneticAlgorithm(initial: Option<Chromosome>, shuffles: seq<seq<seq<int>>>, draws: seq<GenerationDraw>)
    returns (population: Option<seq<Chromosome>>, ghost history: seq<seq<Chromosome>>)
    requires |shuffles| == PopulationSize
    requires forall p :: 0 <= p < PopulationSize ==> |shuffles[p]| == 9
    requires forall p, i :: 0 <= p < PopulationSize && 0 <= i < 9 ==>
      |shuffles[p][i]| == 9 && IsDigitPermutation(shuffles[p][i])
    requires |draws| == MaxGeneration && forall g :: 0 <= g < MaxGeneration ==> ValidGenerationDraw(draws[g])
    ensures !IsPuzzle(PuzzleOrEmpty(initial)) ==> population.None? && history == []
    ensures initial.Some? && IsPuzzle(initial.value) ==> population.Some?
    ensures IsPuzzle(PuzzleOrEmpty(initial)) ==>
      |history| > 0 && EvolveOutcome(history[0], initial, shuffles, draws, population, history)
  {
    var first := CreateFirstGeneration(initial, shuffles);
    if first.None? {
      return None, [];
    }
    FirstGenerationStarts(initial, shuffles, draws, first.value);
    population, history := Evolve(first.value, initial, draws, shuffles);
  }
}
