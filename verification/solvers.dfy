/**
 * The driver loops of the two solvers: the plain genetic algorithm (GA) and
 * the local-search genetic algorithm (LSGA). Both rank the population, keep
 * the best board seen so far, copy the leader into the next generation
 * (elitism) and breed the rest from parents drawn at random; they stop on a
 * best fitness of zero or after the generation limit, and report metrics.
 *
 * The variants differ in where parents are drawn from (the whole population
 * for GA, its ten leaders for LSGA), in the number of mutation attempts per
 * child (three for GA, one for LSGA), in LSGA's local search of every new
 * individual, in the place of the stop test inside the loop, and in whether
 * the evaluations of the initial population are counted.
 */
module Solvers {
  import opened Board
  import opened Fitness
  import opened Options
  import opened Operators
  import opened LocalSearch
  import opened Population

  datatype Variant = Ga | Lsga

  /** What a solver reports besides its solution (the wall-clock time is not modelled). */
  datatype Metrics = Metrics(generations: nat, iterations: nat, fitnessEvaluations: nat, bestFitness: int)

  datatype SolverResult = SolverResult(solution: Option<Grid>, metrics: Metrics)

  /** The random choices behind one child: its parents, the crossover coin flips and the mutation attempts. */
  datatype ChildDraw = ChildDraw(parent1: nat, parent2: nat, takeSecond: seq<bool>, mutations: seq<SwapDraw>)

  /** Parents are drawn from the first ParentPool individuals of the ranked population. */
  function ParentPool(v: Variant, popSize: nat): nat
  {
    if v == Ga then popSize else if popSize < 10 then popSize else 10
  }

  /** The number of mutation attempts per child. */
  function Attempts(v: Variant): nat
  {
    if v == Ga then 3 else 1
  }

  predicate GoodDraw(v: Variant, popSize: nat, d: ChildDraw)
  {
    d.parent1 < ParentPool(v, popSize) && d.parent2 < ParentPool(v, popSize)
    && |d.takeSecond| == 9 && |d.mutations| == Attempts(v)
  }

  /** The draws of one generation: one per child, that is one less than the population size. */
  predicate GoodGeneration(v: Variant, popSize: nat, ds: seq<ChildDraw>)
  {
    popSize >= 1 && |ds| == popSize - 1 && forall i :: 0 <= i < |ds| ==> GoodDraw(v, popSize, ds[i])
  }

  /** The draws of every generation the loop may run. */
  predicate GoodDraws(v: Variant, popSize: nat, maxGenerations: nat, draws: seq<seq<ChildDraw>>)
  {
    |draws| == maxGenerations && forall k :: 0 <= k < |draws| ==> GoodGeneration(v, popSize, draws[k])
  }

  /** A board and its fitness. */
  function Evaluate(g: Grid): (x: Individual)
    requires IsBoard(g)
    ensures x.grid == g && x.fitness >= 0
  {
    Individual(g, CalculateFitness(g))
  }

  /** Every individual's rows, and the best board's rows, are permutations of the digits. */
  predicate AllRowsArePerms(pop: seq<Individual>)
  {
    forall i :: 0 <= i < |pop| ==> RowsArePerms(pop[i].grid)
  }

  // ---------------------------------------------------------------------
  // Breeding.

  /**
   * One child of parents p1 and p2: the first parent's board with some rows
   * taken from the second, then the mutation attempts, then (LSGA only) the
   * local search.
   */
  function Offspring(v: Variant, original: Grid, p1: Grid, p2: Grid, d: ChildDraw): (g: Grid)
    requires IsBoard(original) && IsBoard(p1) && IsBoard(p2) && |d.takeSecond| == 9
    ensures IsBoard(g)
  {
    var mixed := MutateAll(Crossover(p1, p2, d.takeSecond), original, d.mutations);
    if v == Lsga then ApplyLocalSearch(mixed, original) else mixed
  }

  /** A child keeps the clues its parents keep. */
  lemma OffspringKeepsClues(v: Variant, original: Grid, p1: Grid, p2: Grid, d: ChildDraw)
    requires IsBoard(original) && IsBoard(p1) && IsBoard(p2) && |d.takeSecond| == 9
    requires KeepsClues(original, p1) && KeepsClues(original, p2)
    ensures KeepsClues(original, Offspring(v, original, p1, p2, d))
  {
    var child := Crossover(p1, p2, d.takeSecond);
    CrossoverKeepsClues(original, p1, p2, d.takeSecond);
    MutateAllKeeps(child, original, d.mutations);
  }

  /** A GA child of parents whose rows are permutations of the digits has such rows too. */
  lemma OffspringRows(original: Grid, p1: Grid, p2: Grid, d: ChildDraw)
    requires IsBoard(original) && IsBoard(p1) && IsBoard(p2) && |d.takeSecond| == 9
    requires RowsArePerms(p1) && RowsArePerms(p2)
    ensures RowsArePerms(Offspring(Ga, original, p1, p2, d))
  {
    var child := Crossover(p1, p2, d.takeSecond);
    CrossoverRows(p1, p2, d.takeSecond);
    MutateAllKeeps(child, original, d.mutations);
  }

  /** Every individual holds a board. */
  predicate Boards(pop: seq<Individual>)
  {
    forall i :: 0 <= i < |pop| ==> IsBoard(pop[i].grid)
  }

  /** The child bred from draw d. */
  function Breed(v: Variant, original: Grid, pop: seq<Individual>, d: ChildDraw): Individual
    requires IsBoard(original) && Boards(pop) && GoodDraw(v, |pop|, d)
  {
    hide Offspring;
    Evaluate(Offspring(v, original, pop[d.parent1].grid, pop[d.parent2].grid, d))
  }

  /** The next generation: the leader of the ranked population, then one child per draw. */
  function NextGeneration(v: Variant, original: Grid, pop: seq<Individual>, ds: seq<ChildDraw>): (next: seq<Individual>)
    requires IsBoard(original) && Boards(pop) && GoodGeneration(v, |pop|, ds)
    ensures |next| == |pop| && next[0] == pop[0]
  {
    [pop[0]] + seq(|ds|, i requires 0 <= i < |ds| => Breed(v, original, pop, ds[i]))
  }

  /** After the leader, the next generation holds the children of the draws, in order. */
  lemma NextGenerationChildren(v: Variant, original: Grid, pop: seq<Individual>, ds: seq<ChildDraw>)
    requires IsBoard(original) && Boards(pop) && GoodGeneration(v, |pop|, ds)
    ensures forall i :: 1 <= i < |pop| ==> NextGeneration(v, original, pop, ds)[i] == Breed(v, original, pop, ds[i - 1])
  {
    hide Breed, Offspring;
  }

  /**
   * x is the offspring of two individuals drawn from the parent pool (the
   * whole population under GA, the first ten under LSGA), carrying the
   * fitness of its own board.
   */
  predicate ChildOfPool(v: Variant, original: Grid, pop: seq<Individual>, x: Individual, d: ChildDraw)
    requires IsBoard(original) && Boards(pop) && |d.takeSecond| == 9
  {
    && IsBoard(x.grid)
    && x.fitness == CalculateFitness(x.grid)
    && exists j1, j2 :: 0 <= j1 < |pop| && 0 <= j2 < |pop| && j1 < ParentPool(v, |pop|) && j2 < ParentPool(v, |pop|) &&
         x.grid == Offspring(v, original, pop[j1].grid, pop[j2].grid, d)
  }

  /** Every member after the leader is a child of the parent pool, bred with its own draw. */
  lemma NextGenerationParents(v: Variant, original: Grid, pop: seq<Individual>, ds: seq<ChildDraw>)
    requires IsBoard(original) && Boards(pop) && GoodGeneration(v, |pop|, ds)
    ensures forall i :: 1 <= i < |pop| ==> ChildOfPool(v, original, pop, NextGeneration(v, original, pop, ds)[i], ds[i - 1])
  {
    var next := NextGeneration(v, original, pop, ds);
    NextGenerationChildren(v, original, pop, ds);
    hide NextGeneration, Breed, ChildOfPool;
    forall i | 1 <= i < |pop|
      ensures ChildOfPool(v, original, pop, next[i], ds[i - 1])
    {
      assert GoodDraw(v, |pop|, ds[i - 1]);
      BreedChild(v, original, pop, ds[i - 1]);
    }
  }

  /** The child bred from draw d descends from the two parents the draw names. */
  lemma BreedChild(v: Variant, original: Grid, pop: seq<Individual>, d: ChildDraw)
    requires IsBoard(original) && Boards(pop) && GoodDraw(v, |pop|, d)
    ensures ChildOfPool(v, original, pop, Breed(v, original, pop, d), d)
  {
    hide Offspring, CalculateFitness;
    var x := Breed(v, original, pop, d);
    assert x.grid == Offspring(v, original, pop[d.parent1].grid, pop[d.parent2].grid, d);
  }

  /** A bred child is an evaluated individual that keeps the clues. */
  lemma BreedEvaluated(v: Variant, original: Grid, pop: seq<Individual>, d: ChildDraw)
    requires IsBoard(original) && IsPopulation(original, pop, |pop|) && GoodDraw(v, |pop|, d)
    ensures Evaluated(original, Breed(v, original, pop, d))
  {
    hide Offspring, CalculateFitness;
    OffspringKeepsClues(v, original, pop[d.parent1].grid, pop[d.parent2].grid, d);
  }

  /** A GA child of a population whose rows are permutations of the digits has such rows too. */
  lemma BreedPerms(original: Grid, pop: seq<Individual>, d: ChildDraw)
    requires IsBoard(original) && Boards(pop) && AllRowsArePerms(pop) && GoodDraw(Ga, |pop|, d)
    ensures RowsArePerms(Breed(Ga, original, pop, d).grid)
  {
    hide Offspring, CalculateFitness;
    OffspringRows(original, pop[d.parent1].grid, pop[d.parent2].grid, d);
  }

  /** The next generation is again a population of the same size. */
  lemma NextGenerationPopulation(v: Variant, original: Grid, pop: seq<Individual>, ds: seq<ChildDraw>)
    requires IsBoard(original) && IsPopulation(original, pop, |pop|) && GoodGeneration(v, |pop|, ds)
    ensures IsPopulation(original, NextGeneration(v, original, pop, ds), |pop|)
  {
    hide NextGeneration, Breed, Offspring, CalculateFitness, KeepsClues;
    var next := NextGeneration(v, original, pop, ds);
    NextGenerationChildren(v, original, pop, ds);
    forall i | 1 <= i < |next|
      ensures Evaluated(original, next[i])
    {
      BreedEvaluated(v, original, pop, ds[i - 1]);
    }
  }

  /** GA keeps every row of every individual a permutation of the digits. */
  lemma NextGenerationPerms(v: Variant, original: Grid, pop: seq<Individual>, ds: seq<ChildDraw>)
    requires IsBoard(original) && Boards(pop) && GoodGeneration(v, |pop|, ds)
    ensures v == Ga && AllRowsArePerms(pop) ==> AllRowsArePerms(NextGeneration(v, original, pop, ds))
  {
    hide NextGeneration, Breed, Offspring, CalculateFitness, RowsArePerms;
    if v == Ga && AllRowsArePerms(pop) {
      var next := NextGeneration(v, original, pop, ds);
      NextGenerationChildren(v, original, pop, ds);
      forall i | 1 <= i < |next|
        ensures RowsArePerms(next[i].grid)
      {
        BreedPerms(original, pop, ds[i - 1]);
      }
    }
  }

  // ---------------------------------------------------------------------
  // The loop.

  /** The loop's variables: the population, the best board so far and its fitness, and the two counters. */
  datatype RunState = RunState(population: seq<Individual>, bestEver: Grid, bestFitness: int, generations: nat, evaluations: nat)

  predicate ValidState(original: Grid, popSize: nat, s: RunState)
  {
    && IsPopulation(original, s.population, popSize)
    && IsBoard(s.bestEver) && KeepsClues(original, s.bestEver)
    && s.bestFitness == CalculateFitness(s.bestEver)
  }

  /** The rows of every board of the state are permutations of the digits. */
  predicate PermState(s: RunState)
  {
    AllRowsArePerms(s.population) && RowsArePerms(s.bestEver)
  }

  /** Ranking a population whose rows are permutations of the digits keeps them so. */
  lemma RankedPerms(pop: seq<Individual>)
    ensures AllRowsArePerms(pop) ==> AllRowsArePerms(SortByFitness(pop))
  {
    var ranked := SortByFitness(pop);
    forall i | 0 <= i < |pop|
      ensures ranked[i] in pop
    {
      SortedMember(pop, i);
    }
  }

  /** The top of a generation: rank the population and take its leader as best when it is strictly better. */
  function Examine(original: Grid, popSize: nat, s: RunState): (e: RunState)
    requires popSize >= 1 && ValidState(original, popSize, s)
    ensures ValidState(original, popSize, e)
    ensures e.bestFitness <= s.bestFitness
    ensures forall i :: 0 <= i < popSize ==> e.bestFitness <= s.population[i].fitness
    ensures e.generations == s.generations && e.evaluations == s.evaluations
    ensures PermState(s) ==> PermState(e)
  {
    SortedPopulation(original, s.population, popSize);
    RankedPerms(s.population);
    var pop := SortByFitness(s.population);
    if pop[0].fitness < s.bestFitness then
      RunState(pop, pop[0].grid, pop[0].fitness, s.generations, s.evaluations)
    else
      RunState(pop, s.bestEver, s.bestFitness, s.generations, s.evaluations)
  }

  /** The state after breeding generation s.generations from the examined state e. */
  function Advance(v: Variant, original: Grid, popSize: nat, e: RunState, ds: seq<ChildDraw>): (n: RunState)
    requires popSize >= 1 && ValidState(original, popSize, e) && GoodGeneration(v, popSize, ds)
    ensures ValidState(original, popSize, n)
    ensures n.bestEver == e.bestEver && n.bestFitness == e.bestFitness
    ensures n.generations == e.generations + 1 && n.evaluations == e.evaluations + (popSize - 1)
    ensures v == Ga && PermState(e) ==> PermState(n)
  {
    hide NextGeneration, Breed, Offspring, CalculateFitness;
    NextGenerationPopulation(v, original, e.population, ds);
    NextGenerationPerms(v, original, e.population, ds);
    RunState(NextGeneration(v, original, e.population, ds), e.bestEver, e.bestFitness, e.generations + 1, e.evaluations + (popSize - 1))
  }

  /** Every recorded fitness is at least zero. */
  lemma FitnessesNonNegative(original: Grid, pop: seq<Individual>, size: nat)
    requires IsPopulation(original, pop, size)
    ensures forall i :: 0 <= i < size ==> pop[i].fitness >= 0
  {
  }

  /**
   * The GA loop from state s: examine, stop on a best fitness of zero,
   * otherwise breed the next generation. The best fitness never rises, the
   * loop stops early only on success, and each generation bred adds one
   * evaluation per child.
   */
  function GaLoop(original: Grid, popSize: nat, maxGenerations: nat, draws: seq<seq<ChildDraw>>, s: RunState): (r: RunState)
    requires popSize >= 1 && ValidState(original, popSize, s) && GoodDraws(Ga, popSize, maxGenerations, draws)
    requires s.generations <= maxGenerations
    ensures ValidState(original, popSize, r)
    ensures s.generations <= r.generations <= maxGenerations
    ensures r.bestFitness <= s.bestFitness
    ensures r.generations < maxGenerations ==> r.bestFitness == 0
    ensures s.generations < maxGenerations ==> forall i :: 0 <= i < popSize ==> r.bestFitness <= s.population[i].fitness
    ensures PermState(s) ==> PermState(r)
    ensures Counted(s, r, popSize - 1)
    decreases maxGenerations - s.generations
  {
    hide Examine, Advance, NextGeneration, Breed, Offspring, CalculateFitness, KeepsClues, RowsArePerms, SortByFitness, Evaluated, Counted;
    if s.generations == maxGenerations then
      CountedNone(s, s, popSize - 1);
      s
    else
      var e := Examine(original, popSize, s);
      CountedNone(s, e, popSize - 1);
      if e.bestFitness == 0 then e
      else
        var n := Advance(Ga, original, popSize, e, draws[s.generations]);
        var r := GaLoop(original, popSize, maxGenerations, draws, n);
        CountedStep(s, n, r, popSize - 1);
        r
  }

  /**
   * The LSGA loop from state s: stop on a best fitness of zero, otherwise
   * examine and breed. The stop test comes before the examination, so a
   * leader of fitness zero found at the top of a generation is only acted on
   * at the next one.
   */
  function LsgaLoop(original: Grid, popSize: nat, maxGenerations: nat, draws: seq<seq<ChildDraw>>, s: RunState): (r: RunState)
    requires popSize >= 1 && ValidState(original, popSize, s) && GoodDraws(Lsga, popSize, maxGenerations, draws)
    requires s.generations <= maxGenerations
    ensures ValidState(original, popSize, r)
    ensures s.generations <= r.generations <= maxGenerations
    ensures r.bestFitness <= s.bestFitness
    ensures r.generations < maxGenerations ==> r.bestFitness == 0
    ensures s.generations < maxGenerations ==> forall i :: 0 <= i < popSize ==> r.bestFitness <= s.population[i].fitness
    ensures Counted(s, r, popSize - 1)
    decreases maxGenerations - s.generations
  {
    hide Examine, Advance, NextGeneration, Breed, Offspring, CalculateFitness, KeepsClues, RowsArePerms, SortByFitness, Evaluated, Counted;
    if s.generations == maxGenerations || s.bestFitness == 0 then
      FitnessesNonNegative(original, s.population, popSize);
      CountedNone(s, s, popSize - 1);
      s
    else
      var e := Examine(original, popSize, s);
      var n := Advance(Lsga, original, popSize, e, draws[s.generations]);
      var r := LsgaLoop(original, popSize, maxGenerations, draws, n);
      CountedStep(s, n, r, popSize - 1);
      r
  }

  /** From state s to state r, the run counted m evaluations per generation. */
  predicate Counted(s: RunState, r: RunState, m: int)
  {
    r.evaluations == s.evaluations + (r.generations - s.generations) * m
  }

  /** A run that breeds nothing counts nothing. */
  lemma CountedNone(s: RunState, r: RunState, m: int)
    requires r.evaluations == s.evaluations && r.generations == s.generations
    ensures Counted(s, r, m)
  {
  }

  /** Counted from the first state of the loop, whose generation count is zero. */
  lemma CountedFromStart(s: RunState, r: RunState, m: int)
    requires s.generations == 0 && Counted(s, r, m)
    ensures r.evaluations == s.evaluations + r.generations * m
  {
  }

  /** One more generation bred adds m evaluations to the count of the rest of the run. */
  lemma CountedStep(s: RunState, n: RunState, r: RunState, m: int)
    requires n.evaluations == s.evaluations + m && n.generations == s.generations + 1
    requires Counted(n, r, m)
    ensures Counted(s, r, m)
  {
    assert (r.generations - s.generations) * m == (r.generations - n.generations) * m + m;
  }

  // ---------------------------------------------------------------------
  // The solvers.

  /** Shuffles of the missing digits for each individual of the initial population. */
  predicate GoodShuffles(board: Grid, popSize: nat, shuffles: seq<seq<seq<int>>>)
    requires IsBoard(board)
  {
    |shuffles| == popSize && forall i :: 0 <= i < popSize ==> AreShuffles(board, shuffles[i])
  }

  /**
   * One individual of the initial population: the puzzle with each row's
   * empty cells filled from a shuffle of the row's missing digits, evaluated;
   * LSGA applies the local search first.
   */
  function Seed(v: Variant, board: Grid, shuffle: seq<seq<int>>): (x: Individual)
    requires IsBoard(board) && AreShuffles(board, shuffle)
    ensures IsBoard(x.grid)
  {
    var g := CreateIndividual(board, shuffle);
    Evaluate(if v == Lsga then ApplyLocalSearch(g, board) else g)
  }

  /** A seed keeps the puzzle's clues and records its board's fitness. */
  lemma SeedEvaluated(v: Variant, board: Grid, shuffle: seq<seq<int>>)
    requires IsBoard(board) && AreShuffles(board, shuffle)
    ensures Evaluated(board, Seed(v, board, shuffle))
  {
    hide ApplyLocalSearch, CalculateFitness, CreateIndividual, KeepsClues, AreShuffles;
    var g := CreateIndividual(board, shuffle);
    if v == Lsga {
      SearchKeepsClues(g, board);
      assert Seed(v, board, shuffle) == Evaluate(ApplyLocalSearch(g, board));
    } else {
      assert Seed(v, board, shuffle) == Evaluate(g);
    }
  }

  /** A GA seed of a puzzle whose rows' clues are distinct digits has rows that are permutations of the digits. */
  lemma SeedRows(v: Variant, board: Grid, shuffle: seq<seq<int>>)
    requires IsBoard(board) && AreShuffles(board, shuffle)
    ensures v == Ga && (forall r :: 0 <= r < 9 ==> DistinctClues(board[r])) ==> RowsArePerms(Seed(v, board, shuffle).grid)
  {
    hide ApplyLocalSearch, CalculateFitness, RowsArePerms, DistinctClues;
    CreateIndividualRows(board, shuffle);
  }

  /** The local search keeps the clues of a board that has them. */
  lemma SearchKeepsClues(g: Grid, board: Grid)
    requires IsBoard(g) && IsBoard(board) && KeepsClues(board, g)
    ensures KeepsClues(board, ApplyLocalSearch(g, board))
  {
    hide ApplyLocalSearch;
  }

  /** The initial population, one seed per shuffle. */
  function InitialPopulation(v: Variant, board: Grid, shuffles: seq<seq<seq<int>>>): (pop: seq<Individual>)
    requires IsBoard(board) && GoodShuffles(board, |shuffles|, shuffles)
    ensures IsPopulation(board, pop, |shuffles|)
    ensures forall i :: 0 <= i < |shuffles| ==> pop[i] == Seed(v, board, shuffles[i])
    ensures v == Ga && (forall r :: 0 <= r < 9 ==> DistinctClues(board[r])) ==> AllRowsArePerms(pop)
  {
    forall i | 0 <= i < |shuffles|
      ensures Evaluated(board, Seed(v, board, shuffles[i]))
      ensures v == Ga && (forall r :: 0 <= r < 9 ==> DistinctClues(board[r])) ==> RowsArePerms(Seed(v, board, shuffles[i]).grid)
    {
      SeedEvaluated(v, board, shuffles[i]);
      SeedRows(v, board, shuffles[i]);
    }
    seq(|shuffles|, i requires 0 <= i < |shuffles| => Seed(v, board, shuffles[i]))
  }

  /** The first state of the loop: the ranked initial population and its leader as the best board. */
  function Start(board: Grid, pop: seq<Individual>, evaluations: nat): (s: RunState)
    requires IsBoard(board) && |pop| >= 1 && IsPopulation(board, pop, |pop|)
    ensures ValidState(board, |pop|, s) && s.generations == 0 && s.evaluations == evaluations
    ensures forall i :: 0 <= i < |pop| ==> s.bestFitness <= pop[i].fitness
    ensures AllRowsArePerms(pop) ==> PermState(s)
  {
    SortedPopulation(board, pop, |pop|);
    RankedPerms(pop);
    var ranked := SortByFitness(pop);
    RunState(ranked, ranked[0].grid, ranked[0].fitness, 0, evaluations)
  }

  /** The reported result of a finished loop. */
  function Report(r: RunState): (res: SolverResult)
    ensures res.solution.Some? <==> res.metrics.bestFitness == 0
    ensures res.solution.Some? ==> res.solution.value == r.bestEver
  {
    SolverResult(if r.bestFitness == 0 then Some(r.bestEver) else None,
                 Metrics(r.generations, |r.population|, r.evaluations, r.bestFitness))
  }

  /**
   * The GA solver: seed and rank a population, run the GA loop and report.
   * A solution is reported exactly when the best fitness is zero; it keeps
   * the puzzle's clues, and it is a solved Sudoku when every row's clues are
   * distinct digits. The run stops early only on success, counts one
   * evaluation per child bred and none for the initial population, and its
   * best fitness is no worse than that of any individual of the initial
   * population.
   */
  function GeneticAlgorithmSolver(board: Grid, maxGenerations: nat, populationSize: nat,
                                  shuffles: seq<seq<seq<int>>>, draws: seq<seq<ChildDraw>>): (res: SolverResult)
    requires IsBoard(board) && populationSize >= 1
    requires GoodShuffles(board, populationSize, shuffles) && GoodDraws(Ga, populationSize, maxGenerations, draws)
    ensures res.solution.Some? <==> res.metrics.bestFitness == 0
    ensures res.metrics.iterations == populationSize
    ensures res.metrics.generations <= maxGenerations
    ensures res.metrics.generations < maxGenerations ==> res.metrics.bestFitness == 0
    ensures res.metrics.fitnessEvaluations == res.metrics.generations * (populationSize - 1)
    ensures 0 <= res.metrics.bestFitness
    ensures forall i :: 0 <= i < populationSize ==> res.metrics.bestFitness <= Seed(Ga, board, shuffles[i]).fitness
    ensures res.solution.Some? ==> KeepsClues(board, res.solution.value) && CalculateFitness(res.solution.value) == 0
    ensures res.solution.Some? && (forall r :: 0 <= r < 9 ==> DistinctClues(board[r])) ==> IsSolution(res.solution.value)
  {
    var r := GaLoop(board, populationSize, maxGenerations, draws, Start(board, InitialPopulation(Ga, board, shuffles), 0));
    GaRun(board, maxGenerations, populationSize, shuffles, draws);
    Report(r)
  }

  /** The facts about the GA loop's final state behind GeneticAlgorithmSolver's contract. */
  lemma GaRun(board: Grid, maxGenerations: nat, populationSize: nat,
              shuffles: seq<seq<seq<int>>>, draws: seq<seq<ChildDraw>>)
    requires IsBoard(board) && populationSize >= 1
    requires GoodShuffles(board, populationSize, shuffles) && GoodDraws(Ga, populationSize, maxGenerations, draws)
    ensures var r := GaLoop(board, populationSize, maxGenerations, draws, Start(board, InitialPopulation(Ga, board, shuffles), 0));
      && |r.population| == populationSize
      && r.generations <= maxGenerations
      && (r.generations < maxGenerations ==> r.bestFitness == 0)
      && r.evaluations == r.generations * (populationSize - 1)
      && 0 <= r.bestFitness
      && (forall i :: 0 <= i < populationSize ==> r.bestFitness <= Seed(Ga, board, shuffles[i]).fitness)
      && KeepsClues(board, r.bestEver) && CalculateFitness(r.bestEver) == r.bestFitness
      && (r.bestFitness == 0 && (forall row :: 0 <= row < 9 ==> DistinctClues(board[row])) ==> IsSolution(r.bestEver))
  {
    hide Start, InitialPopulation, GaLoop, Seed, CalculateFitness, KeepsClues, RowsArePerms, IsSolution, DistinctClues;
    hide Evaluated, SortByFitness, Counted;
    var pop := InitialPopulation(Ga, board, shuffles);
    var start := Start(board, pop, 0);
    var r := GaLoop(board, populationSize, maxGenerations, draws, start);
    FitnessesNonNegative(board, pop, populationSize);
    CountedFromStart(start, r, populationSize - 1);
    FitnessZeroSolution(r.bestEver);
  }

  /** A board whose rows are permutations of the digits and whose fitness is zero is a solved Sudoku. */
  lemma FitnessZeroSolution(b: Grid)
    requires IsBoard(b)
    ensures RowsArePerms(b) && CalculateFitness(b) == 0 ==> IsSolution(b)
  {
    if RowsArePerms(b) {
      RowsArePermsValid(b);
      FitnessZeroConsistent(b);
    }
  }

  /**
   * The LSGA solver: seed, search and rank a population, run the LSGA loop
   * and report. A solution is reported exactly when the best fitness is
   * zero, and it keeps the puzzle's clues. The run stops early only on
   * success, counts the evaluations of the initial population and one per
   * child bred, and its best fitness is no worse than that of any
   * individual of the initial population.
   */
  function LsgaSolver(board: Grid, maxGenerations: nat, populationSize: nat,
                      shuffles: seq<seq<seq<int>>>, draws: seq<seq<ChildDraw>>): (res: SolverResult)
    requires IsBoard(board) && populationSize >= 1
    requires GoodShuffles(board, populationSize, shuffles) && GoodDraws(Lsga, populationSize, maxGenerations, draws)
    ensures res.solution.Some? <==> res.metrics.bestFitness == 0
    ensures res.metrics.iterations == populationSize
    ensures res.metrics.generations <= maxGenerations
    ensures res.metrics.generations < maxGenerations ==> res.metrics.bestFitness == 0
    ensures res.metrics.fitnessEvaluations == populationSize + res.metrics.generations * (populationSize - 1)
    ensures 0 <= res.metrics.bestFitness
    ensures forall i :: 0 <= i < populationSize ==> res.metrics.bestFitness <= Seed(Lsga, board, shuffles[i]).fitness
    ensures res.solution.Some? ==> KeepsClues(board, res.solution.value) && CalculateFitness(res.solution.value) == 0
  {
    var r := LsgaLoop(board, populationSize, maxGenerations, draws, Start(board, InitialPopulation(Lsga, board, shuffles), populationSize));
    LsgaRun(board, maxGenerations, populationSize, shuffles, draws);
    Report(r)
  }

  /** The facts about the LSGA loop's final state behind LsgaSolver's contract. */
  lemma LsgaRun(board: Grid, maxGenerations: nat, populationSize: nat,
                shuffles: seq<seq<seq<int>>>, draws: seq<seq<ChildDraw>>)
    requires IsBoard(board) && populationSize >= 1
    requires GoodShuffles(board, populationSize, shuffles) && GoodDraws(Lsga, populationSize, maxGenerations, draws)
    ensures var r := LsgaLoop(board, populationSize, maxGenerations, draws, Start(board, InitialPopulation(Lsga, board, shuffles), populationSize));
      && |r.population| == populationSize
      && r.generations <= maxGenerations
      && (r.generations < maxGenerations ==> r.bestFitness == 0)
      && r.evaluations == populationSize + r.generations * (populationSize - 1)
      && 0 <= r.bestFitness
      && (forall i :: 0 <= i < populationSize ==> r.bestFitness <= Seed(Lsga, board, shuffles[i]).fitness)
      && KeepsClues(board, r.bestEver) && CalculateFitness(r.bestEver) == r.bestFitness
  {
    hide Start, InitialPopulation, LsgaLoop, Seed, CalculateFitness, KeepsClues, RowsArePerms, DistinctClues;
    hide Evaluated, SortByFitness, Counted, PermState, AllRowsArePerms;
    var pop := InitialPopulation(Lsga, board, shuffles);
    var start := Start(board, pop, populationSize);
    var r := LsgaLoop(board, populationSize, maxGenerations, draws, start);
    FitnessesNonNegative(board, pop, populationSize);
    CountedFromStart(start, r, populationSize - 1);
  }

  // ---------------------------------------------------------------------
  // The last generation bred is never examined.

  /** Two finished runs that agree on everything the report reads. */
  predicate SameReport(r1: RunState, r2: RunState)
  {
    r1.bestEver == r2.bestEver && r1.bestFitness == r2.bestFitness && r1.generations == r2.generations
    && r1.evaluations == r2.evaluations && |r1.population| == |r2.population|
  }

  /** From any state, the GA loop's report does not depend on the draws of the last generation. */
  lemma {:induction false} GaLoopIgnoresLast(original: Grid, popSize: nat, maxGenerations: nat,
                                             draws: seq<seq<ChildDraw>>, draws': seq<seq<ChildDraw>>, s: RunState)
    requires popSize >= 1 && ValidState(original, popSize, s) && s.generations <= maxGenerations
    requires GoodDraws(Ga, popSize, maxGenerations, draws) && GoodDraws(Ga, popSize, maxGenerations, draws')
    requires forall k :: s.generations <= k < maxGenerations - 1 ==> draws[k] == draws'[k]
    ensures SameReport(GaLoop(original, popSize, maxGenerations, draws, s), GaLoop(original, popSize, maxGenerations, draws', s))
    decreases maxGenerations - s.generations
  {
    hide Examine, Advance, NextGeneration, Breed, Offspring, CalculateFitness, KeepsClues, RowsArePerms, SortByFitness, Evaluated;
    if s.generations < maxGenerations {
      var e := Examine(original, popSize, s);
      if e.bestFitness != 0 {
        var n := Advance(Ga, original, popSize, e, draws[s.generations]);
        var n' := Advance(Ga, original, popSize, e, draws'[s.generations]);
        if s.generations < maxGenerations - 1 {
          GaLoopIgnoresLast(original, popSize, maxGenerations, draws, draws', n);
        } else {
          assert GaLoop(original, popSize, maxGenerations, draws, n) == n;
          assert GaLoop(original, popSize, maxGenerations, draws', n') == n';
        }
      }
    }
  }

  /** From any state, the LSGA loop's report does not depend on the draws of the last generation. */
  lemma {:induction false} LsgaLoopIgnoresLast(original: Grid, popSize: nat, maxGenerations: nat,
                                               draws: seq<seq<ChildDraw>>, draws': seq<seq<ChildDraw>>, s: RunState)
    requires popSize >= 1 && ValidState(original, popSize, s) && s.generations <= maxGenerations
    requires GoodDraws(Lsga, popSize, maxGenerations, draws) && GoodDraws(Lsga, popSize, maxGenerations, draws')
    requires forall k :: s.generations <= k < maxGenerations - 1 ==> draws[k] == draws'[k]
    ensures SameReport(LsgaLoop(original, popSize, maxGenerations, draws, s), LsgaLoop(original, popSize, maxGenerations, draws', s))
    decreases maxGenerations - s.generations
  {
    hide Examine, Advance, NextGeneration, Breed, Offspring, CalculateFitness, KeepsClues, RowsArePerms, SortByFitness, Evaluated;
    if s.generations < maxGenerations && s.bestFitness != 0 {
      var e := Examine(original, popSize, s);
      var n := Advance(Lsga, original, popSize, e, draws[s.generations]);
      var n' := Advance(Lsga, original, popSize, e, draws'[s.generations]);
      if s.generations < maxGenerations - 1 {
        LsgaLoopIgnoresLast(original, popSize, maxGenerations, draws, draws', n);
      } else {
        assert LsgaLoop(original, popSize, maxGenerations, draws, n) == n;
        assert LsgaLoop(original, popSize, maxGenerations, draws', n') == n';
      }
    }
  }

  /**
   * The population bred in the last generation is never ranked: GA runs that
   * differ only in the draws of their last generation report the same result.
   */
  lemma GaLastGenerationIgnored(board: Grid, maxGenerations: nat, populationSize: nat, shuffles: seq<seq<seq<int>>>,
                                draws: seq<seq<ChildDraw>>, draws': seq<seq<ChildDraw>>)
    requires IsBoard(board) && populationSize >= 1 && GoodShuffles(board, populationSize, shuffles)
    requires GoodDraws(Ga, populationSize, maxGenerations, draws) && GoodDraws(Ga, populationSize, maxGenerations, draws')
    requires forall k :: 0 <= k < maxGenerations - 1 ==> draws[k] == draws'[k]
    ensures GeneticAlgorithmSolver(board, maxGenerations, populationSize, shuffles, draws)
         == GeneticAlgorithmSolver(board, maxGenerations, populationSize, shuffles, draws')
  {
    hide Start, InitialPopulation, GaLoop, Seed, CalculateFitness, KeepsClues, RowsArePerms;
    var s := Start(board, InitialPopulation(Ga, board, shuffles), 0);
    GaLoopIgnoresLast(board, populationSize, maxGenerations, draws, draws', s);
  }

  /** The same for LSGA: runs that differ only in the draws of their last generation report the same result. */
  lemma LsgaLastGenerationIgnored(board: Grid, maxGenerations: nat, populationSize: nat, shuffles: seq<seq<seq<int>>>,
                                  draws: seq<seq<ChildDraw>>, draws': seq<seq<ChildDraw>>)
    requires IsBoard(board) && populationSize >= 1 && GoodShuffles(board, populationSize, shuffles)
    requires GoodDraws(Lsga, populationSize, maxGenerations, draws) && GoodDraws(Lsga, populationSize, maxGenerations, draws')
    requires forall k :: 0 <= k < maxGenerations - 1 ==> draws[k] == draws'[k]
    ensures LsgaSolver(board, maxGenerations, populationSize, shuffles, draws)
         == LsgaSolver(board, maxGenerations, populationSize, shuffles, draws')
  {
    hide Start, InitialPopulation, LsgaLoop, Seed, CalculateFitness, KeepsClues, RowsArePerms;
    var s := Start(board, InitialPopulation(Lsga, board, shuffles), populationSize);
    LsgaLoopIgnoresLast(board, populationSize, maxGenerations, draws, draws', s);
  }
}
