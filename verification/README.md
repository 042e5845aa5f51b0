# Sudoku: genetic algorithm, local-search genetic algorithm and puzzle generator

This project models the algorithmic core of a Sudoku benchmark application,
`lib/sudoku-algorithms.ts`:

- the board utilities: the placement check (`isValidPlacement`) and the
  fitness (`calculateFitness`), which counts repeated values in columns and
  boxes;
- the genetic operators shared by the two solvers:
  - building a random individual from the puzzle;
  - the row-level crossover;
  - the same-row swap mutation;
- the local search of the LSGA solver (`applyLocalSearch`) and its
  per-cell conflict counter (`countCellConflicts`);
- the driver loops of the plain genetic algorithm (`geneticAlgorithmSolver`)
  and of the local-search genetic algorithm (`lsgaSolver`), with the metrics
  they report;
- the puzzle generator (`generateSudokuPuzzle`):
  - diagonal-box seeding;
  - completion by backtracking;
  - random puncturing down to the difficulty's clue count.

Boards are immutable 9×9 `seq<seq<int>>` values, with 0 for an empty cell.
The source draws every random choice from `Math.random`. In the model each
draw is an input:

- the shuffled list of missing digits for each row;
- the crossover coin flips for each row;
- each mutation attempt (whether it fires, and its row and two columns);
- the parent indices;
- the three diagonal shuffles;
- the cells drawn for puncturing.

Each theorem holds for every choice of these inputs.

Modules, following the structure of the source file:

| file | module | models |
|---|---|---|
| `board.dfy` | `Board` | grid shape, columns, boxes, placement check, clue counts |
| `sums.dfy`, `counting.dfy` | `Sums`, `Counting` | finite sums; counting equal values in a unit |
| `fitness.dfy` | `Fitness` | `calculateFitness` |
| `conflicts.dfy` | `Conflicts` | `countCellConflicts` and the board-wide conflict total it controls |
| `operators.dfy` | `Operators` | `createIndividual`, crossover, mutation |
| `localsearch.dfy` | `LocalSearch` | `applyLocalSearch` |
| `population.dfy` | `Population` | individuals and ranking by fitness |
| `solvers.dfy` | `Solvers` | the GA and LSGA loops, their initial populations and metrics |
| `generator.dfy` | `Generator` | `generateSudokuPuzzle` and its `solveBoard` |
| `options.dfy` | `Options` | the `Option` type |

## Model

| member | source | states |
|---|---|---|
| Board.IsValidPlacement | lib/sudoku-algorithms.ts:13-28 | true exactly when `num` occurs nowhere in the row, nowhere in the column, and nowhere in the 3×3 block starting at (⌊row/3⌋·3, ⌊col/3⌋·3) |
| Fitness.DupsCount | lib/sudoku-algorithms.ts:38-49 | one unit's scan with a seen-set counts the unit's nonzero cells minus its distinct nonzero values |
| Fitness.DupsZero | lib/sudoku-algorithms.ts:38-49 | one unit's scan counts nothing exactly when the unit repeats no nonzero value |
| Fitness.FamilyDupsZero | lib/sudoku-algorithms.ts:38-67 | the total over a family of units is non-negative, and zero exactly when no unit repeats a nonzero value |
| Fitness.FitnessZero | lib/sudoku-algorithms.ts:34-70 | fitness is zero if and only if no column and no box repeats a nonzero value |
| Fitness.FitnessZeroConsistent | lib/sudoku-algorithms.ts:34-70 | on a board whose rows repeat nothing, fitness is zero if and only if no row, column or box repeats a value |
| Fitness.SolutionFitness | lib/sudoku-algorithms.ts:34-70 | every solved Sudoku has fitness zero |
| Fitness.FitnessIgnoresRows | lib/sudoku-algorithms.ts:34-70 | some board has fitness zero while its first row repeats a value, because rows are never scored |
| Operators.MissingUpToCounts | lib/sudoku-algorithms.ts:92-102 | the candidate list holds each digit absent from the row exactly once, and nothing else |
| Operators.MissingUpToSorted | lib/sudoku-algorithms.ts:93-101 | before the shuffle, the candidate list is in ascending order |
| Operators.MissingCoversBlanks | lib/sudoku-algorithms.ts:92-111 | a row is missing at least as many digits as it has blanks, and exactly as many when its clues are distinct digits, so the `numIdx < nums.length` guard never leaves a blank |
| Operators.FillRow | lib/sudoku-algorithms.ts:106-111 | the fill keeps every clue; it gives each blank a digit that is not among the row's clues; it makes the row a permutation of 1..9 when the clues are distinct digits |
| Operators.CreateIndividual | lib/sudoku-algorithms.ts:89-114 | a random individual is 9×9 and keeps every clue of the puzzle |
| Operators.CreateIndividualFills | lib/sudoku-algorithms.ts:89-114 | no empty cell is left, and every filled cell holds a digit its puzzle row is missing |
| Operators.CreateIndividualPerms | lib/sudoku-algorithms.ts:89-114 | every row whose clues are distinct digits becomes a permutation of 1..9 |
| Operators.Crossover | lib/sudoku-algorithms.ts:138-145 | every row of the child is the first parent's row or the second parent's row; with no coin flip set, the child is the first parent |
| Operators.CrossoverKeepsClues | lib/sudoku-algorithms.ts:138-145 | a child of two parents that keep the clues keeps them too |
| Operators.CrossoverRows | lib/sudoku-algorithms.ts:138-145 | each row of the child has the values of one parent's row, so rows that are permutations stay permutations |
| Operators.Mutate | lib/sudoku-algorithms.ts:149-157 | a mutation attempt changes the board only if it fires and both drawn cells are empty in the puzzle; it touches only the drawn row; it keeps that row's values and every clue |
| Operators.MutateAll | lib/sudoku-algorithms.ts:147-158 | a series of attempts keeps the values of every row and every clue cell, and does nothing when no attempt fires |
| Operators.MutateAllKeeps | lib/sudoku-algorithms.ts:147-158 | mutation keeps the puzzle's clues and keeps rows that are permutations of 1..9 |
| Conflicts.CountCellConflicts | lib/sudoku-algorithms.ts:358-382 | the count lies in 0..24; for a nonzero value it is zero exactly when the value passes the placement check on the board with that cell cleared |
| Conflicts.SwapConflictDelta | lib/sudoku-algorithms.ts:305-312 | swapping two cells changes the conflict total (ordered equal pairs over the 27 units) by exactly twice the change in the two cells' own counts |
| Conflicts.TotalConflictsZero | lib/sudoku-algorithms.ts:358-382 | the conflict total is never negative, and it is zero exactly when no row, column or box holds a value twice (zeros included) |
| Conflicts.TotalIsCellSum | lib/sudoku-algorithms.ts:358-382 | the conflict total equals the sum, over all 81 cells, of each cell's own `countCellConflicts` |
| Conflicts.BoxReindex | lib/sudoku-algorithms.ts:371-379 | enumerating the nine boxes position by position visits every cell of the board exactly once, so a sum over the cells can be taken box by box |
| LocalSearch.TrySwap | lib/sudoku-algorithms.ts:305-315 | a trial swap is kept exactly when the pair's conflict sum after it is at most the sum before (equal-or-better swaps stay), and undone exactly when the sum would rise; no other cell changes, and the board's conflict total does not rise |
| LocalSearch.RunSwaps | lib/sudoku-algorithms.ts:299-354 | a sequence of trial swaps never raises the conflict total |
| LocalSearch.FreeCells | lib/sudoku-algorithms.ts:301-303 | the candidate cells of a unit are exactly those that are empty in the puzzle |
| LocalSearch.ColumnCells | lib/sudoku-algorithms.ts:299-303 | the column sweep's unit holds nine cells, exactly the cells of the column |
| LocalSearch.BoxCells | lib/sudoku-algorithms.ts:323-332 | the box sweep's unit holds nine cells, exactly the cells of the 3×3 box |
| LocalSearch.PairsOfCount | lib/sudoku-algorithms.ts:335-336 | a unit with n candidate cells gives n(n−1)/2 trial swaps |
| LocalSearch.PairsOfComplete | lib/sudoku-algorithms.ts:335-338 | every pair (cells[i], cells[j]) with i < j is tried |
| LocalSearch.SweepPairs | lib/sudoku-algorithms.ts:298-354 | every trial swap pairs two cells that are empty in the puzzle and lie in one unit |
| LocalSearch.ColumnSweepShape | lib/sudoku-algorithms.ts:299-320 | the column sweep only swaps cells of the same column |
| LocalSearch.BoxSweepShape | lib/sudoku-algorithms.ts:323-354 | the box sweep only swaps cells of the same box |
| LocalSearch.SweepsKeepUnits | lib/sudoku-algorithms.ts:298-354 | the column sweep keeps the values of every column, and the box sweep keeps the values of every box |
| LocalSearch.PassKeepsClues | lib/sudoku-algorithms.ts:298-354 | a pass never changes a clue cell |
| LocalSearch.LocalSearchPass | lib/sudoku-algorithms.ts:298-354 | a pass (column sweep, then box sweep) does not raise the conflict total |
| LocalSearch.ApplyLocalSearch | lib/sudoku-algorithms.ts:295-356 | three passes keep every clue cell and do not raise the conflict total |
| Population.SortByFitness | lib/sudoku-algorithms.ts:117 | ranking gives a sequence of the population's length, sorted by ascending fitness |
| Population.SortMultiset | lib/sudoku-algorithms.ts:117 | the ranked population is a permutation of the population: same individuals, same multiplicities |
| Population.SortedPopulation | lib/sudoku-algorithms.ts:117-120 | a ranked population is still an evaluated population, and its leader's fitness is at most every member's |
| Solvers.SeedEvaluated | lib/sudoku-algorithms.ts:221-228 | every initial individual keeps the clues and records its board's fitness, for GA and, after its local search, for LSGA |
| Solvers.InitialPopulation | lib/sudoku-algorithms.ts:221-228 | the initial population has one evaluated individual per shuffle; for GA on a puzzle whose rows' clues are distinct digits, every row is a permutation of 1..9 |
| Solvers.Start | lib/sudoku-algorithms.ts:230-233 | the first state holds the ranked population, and its best fitness is at most every individual's |
| Solvers.Examine | lib/sudoku-algorithms.ts:123-128 | examination ranks the population and never raises the best fitness, which ends at most every individual's fitness |
| Solvers.NextGeneration | lib/sudoku-algorithms.ts:132-165 | the next generation has the population's size and starts with the leader (elitism) |
| Solvers.NextGenerationParents | lib/sudoku-algorithms.ts:134-163 | every member after the leader is the crossed-over and mutated child of two parents drawn from the parent pool (any individual under GA, the first min(10, popSize) under LSGA), and carries its own board's fitness |
| Solvers.OffspringKeepsClues | lib/sudoku-algorithms.ts:138-158 | a child of parents that keep the clues keeps them, after local search too |
| Solvers.NextGenerationPopulation | lib/sudoku-algorithms.ts:132-165 | the next generation is again a population of evaluated individuals that keep the clues |
| Solvers.NextGenerationPerms | lib/sudoku-algorithms.ts:132-165 | under GA, rows that are permutations of 1..9 stay so from one generation to the next |
| Solvers.Advance | lib/sudoku-algorithms.ts:132-165 | breeding advances the generation counter by one, adds popSize − 1 evaluations and leaves the best board untouched |
| Solvers.GaLoop | lib/sudoku-algorithms.ts:122-166 | the GA loop stops within the limit; it stops early only with best fitness 0; the best fitness never rises and ends at most every starting individual's; it counts popSize − 1 evaluations per generation it breeds |
| Solvers.LsgaLoop | lib/sudoku-algorithms.ts:235-279 | the LSGA loop has the same guarantees, with its stop test placed before examination |
| Solvers.Report | lib/sudoku-algorithms.ts:170-179 | a solution is reported exactly when the best fitness is zero, and it is the best board seen |
| Solvers.GeneticAlgorithmSolver | lib/sudoku-algorithms.ts:79-180 | the GA reports a solution exactly when its best fitness is 0, and reports the population size as iterations; generations stay within the limit, and an early stop means best fitness 0; evaluations equal generations·(popSize − 1); the best fitness is at least 0 and at most every initial individual's; a reported solution keeps the clues and has fitness 0, and when every row's clues are distinct digits it is a solved Sudoku |
| Solvers.FitnessZeroSolution | lib/sudoku-algorithms.ts:34-70 | a board whose rows are permutations of 1..9 and whose fitness is zero is a solved Sudoku |
| Solvers.LsgaSolver | lib/sudoku-algorithms.ts:184-293 | the LSGA reports a solution exactly when its best fitness is 0, and reports the population size as iterations; generations stay within the limit, and an early stop means best fitness 0; evaluations equal popSize + generations·(popSize − 1), because the initial local search is counted; the best fitness is bounded as for GA; a reported solution keeps the clues and has fitness 0 |
| Solvers.GaLastGenerationIgnored | lib/sudoku-algorithms.ts:122-166 | the GA report does not depend on the draws of the last generation, whose children are never examined |
| Solvers.LsgaLastGenerationIgnored | lib/sudoku-algorithms.ts:235-279 | the LSGA report does not depend on the draws of the last generation |
| Generator.CluesCount | lib/sudoku-algorithms.ts:387-392 | every difficulty keeps between 20 and 40 clues |
| Generator.SeedDiagonal | lib/sudoku-algorithms.ts:398-406 | the seeded board is a 9×9 board with values in 0..9 |
| Generator.SeedConsistent | lib/sudoku-algorithms.ts:398-406 | the seeded board repeats no value in any row, column or box |
| Generator.SeedClues | lib/sudoku-algorithms.ts:398-406 | the seeded board has exactly 27 filled cells |
| Generator.FirstEmptySpec | lib/sudoku-algorithms.ts:410-412 | the scan finds no empty cell exactly on a filled board, and the cell it finds is the first empty one in row-major order |
| Generator.Solve | lib/sudoku-algorithms.ts:409-427 | a success fills every cell and keeps every clue, and it is consistent when the input is |
| Generator.TryValues | lib/sudoku-algorithms.ts:413-422 | trying digits num..9 at the first empty cell only succeeds with a completion of the board |
| Generator.SolveComplete | lib/sudoku-algorithms.ts:409-427 | the backtracking finds a completion whenever some solved Sudoku keeps the board's clues |
| Generator.SolveExactly | lib/sudoku-algorithms.ts:409-428 | from a consistent seed, `solveBoard` succeeds if and only if a solved Sudoku keeps the seed, and its result is a solved Sudoku |
| Generator.Puncture | lib/sudoku-algorithms.ts:430-441 | the punctured board keeps its remaining clues from the completed board and has exactly `toRemove` fewer clues |
| Generator.GenerateSudokuPuzzle | lib/sudoku-algorithms.ts:386-444 | a generated puzzle has values in 0..9 and exactly the difficulty's clue count; it was cut from a completed board that is a solved Sudoku |

## Left out

- `copyBoard` (lib/sudoku-algorithms.ts:30-32) is the identity on immutable values, so the model has no counterpart.
- The `executionTime` metric and `performance.now` are not modelled: they read the clock.
- The random number generator is not modelled. Its probabilities (0.3 and 0.6 for crossover, 0.7 and 0.15 for mutation) are folded into boolean inputs. `sort(() => Math.random() - 0.5)` is modelled as an arbitrary permutation of the candidate digits. No statement is made about distributions.
- The default arguments `maxGenerations = 500` and `populationSize = 30` are ordinary parameters in the model.
- With `populationSize` 0 the source fails when it reads `population[0]`. The model requires a population of at least one.
- The puncture loop of the generator draws cells until it has cleared enough of them, and never ends when too few clues are left. The model consumes a finite list of draws and returns `None` when the list runs out.
- Generator.GenerateSudokuPuzzle: it does not prove that every diagonal seed has a completion, so a `None` from the backtracking is not ruled out. The source then goes on with the 27-clue seed, and its puncture loop never ends for any difficulty. The model gives `None` in that case.
- `solveBoard` is written in place, with undo on failure. It is modelled as a pure function returning an `Option`; on failure the caller keeps the seed, which is exactly the board the source leaves behind after undoing.
- Solvers.LsgaSolver: a reported LSGA solution is not claimed to be a solved Sudoku. The column sweep swaps cells between rows, so rows need not remain permutations, and the fitness ignores rows.
- Generator.CluesCount: its contract only bounds the count to 20..40. The exact count of each difficulty is stated where it matters: as the clue count of the generated puzzle in GenerateSudokuPuzzle.
- The rest of the repository (user interface, pages, styling, configuration) is not part of this model.

## Notes on the source's behaviour

- **No blanks survive `createIndividual`.** In a 9-cell row, the number of digits missing from the row is at least the number of blanks (Operators.MissingCoversBlanks). So the guard `numIdx < nums.length` at line 108 never leaves a blank, even when a row repeats a clue. Repeated clues only mean that the filled row repeats a value.
- **Rows are not scored.** The fitness counts repeats in columns and boxes only (Fitness.FitnessIgnoresRows).
  - The GA keeps every row a permutation of 1..9 whenever the puzzle's rows have distinct clues. A fitness of zero then means a solved Sudoku (Solvers.GeneticAlgorithmSolver).
  - The LSGA's column sweep breaks that invariant.
- **The local search uses its own measure.** Swaps are judged by `countCellConflicts`, which also counts rows and counts zeros as equal values. What the search provably never increases is the board-wide total of that measure, that is the sum of `countCellConflicts` over all 81 cells (Conflicts.TotalIsCellSum, Conflicts.SwapConflictDelta, LocalSearch.ApplyLocalSearch), not the fitness.
- **The LSGA tests for success first.** Its loop tests `bestFitness === 0` before ranking (line 236), while the GA tests after ranking (line 130).
- **The last generation is wasted.** In both loops, the children bred in the last generation are evaluated and counted but never examined (Solvers.GaLastGenerationIgnored, Solvers.LsgaLastGenerationIgnored).
- **Difficulty tiers.** The "evil" tier keeps 22 clues, two more than "hard" (line 391). The model follows the code.
