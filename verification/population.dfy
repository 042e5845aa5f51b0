/**
 * Individuals of the two solvers and the ranking of a population by
 * fitness, lowest first.
 */
module Population {
  import opened Board
  import opened Fitness

  /** A candidate board and the fitness recorded for it. */
  datatype Individual = Individual(grid: Grid, fitness: int)

  /** The fitness recorded is the board's fitness, and the puzzle's clues are in place. */
  predicate Evaluated(original: Grid, x: Individual)
  {
    IsBoard(x.grid) && KeepsClues(original, x.grid) && x.fitness == CalculateFitness(x.grid)
  }

  /** A population of the given size made of evaluated individuals. */
  predicate IsPopulation(original: Grid, pop: seq<Individual>, size: nat)
  {
    |pop| == size && forall i :: 0 <= i < |pop| ==> Evaluated(original, pop[i])
  }

  /** Fitness never decreases along the sequence. */
  predicate Sorted(s: seq<Individual>)
  {
    forall i, j :: 0 <= i < j < |s| ==> s[i].fitness <= s[j].fitness
  }

  /** x placed after every leading member of s whose fitness is not larger than its own. */
  function Insert(x: Individual, s: seq<Individual>): (t: seq<Individual>)
    ensures |t| == |s| + 1
    decreases |s|
  {
    if |s| == 0 || x.fitness < s[0].fitness then [x] + s
    else [s[0]] + Insert(x, s[1..])
  }

  /** Insertion adds x and keeps every other member. */
  lemma {:induction false} InsertMultiset(x: Individual, s: seq<Individual>)
    ensures multiset(Insert(x, s)) == multiset(s) + multiset{x}
    decreases |s|
  {
    if |s| > 0 && x.fitness >= s[0].fitness {
      InsertMultiset(x, s[1..]);
      assert s == [s[0]] + s[1..];
    }
  }

  /** Inserting into a sorted sequence keeps it sorted. */
  lemma {:induction false} InsertSorted(x: Individual, s: seq<Individual>)
    requires Sorted(s)
    ensures Sorted(Insert(x, s))
    decreases |s|
  {
    if |s| > 0 && x.fitness >= s[0].fitness {
      var rest := s[1..];
      InsertSorted(x, rest);
      var t := Insert(x, rest);
      InsertMultiset(x, rest);
      forall k | 0 <= k < |t|
        ensures s[0].fitness <= t[k].fitness
      {
        assert t[k] in multiset(t);
        if t[k] != x {
          var m :| 0 <= m < |rest| && rest[m] == t[k];
          assert s[m + 1] == t[k];
        }
      }
      LeadSorted(s[0], t);
    } else {
      LeadSorted(x, s);
    }
  }

  lemma LeadSorted(x: Individual, t: seq<Individual>)
    requires Sorted(t) && forall k :: 0 <= k < |t| ==> x.fitness <= t[k].fitness
    ensures Sorted([x] + t)
  {
    assert forall k :: 1 <= k <= |t| ==> ([x] + t)[k] == t[k - 1];
  }

  /**
   * The population ranked by fitness, lowest first (SortMultiset: a
   * permutation of it). Ties keep their order, as with a stable sort.
   */
  function SortByFitness(pop: seq<Individual>): (s: seq<Individual>)
    ensures Sorted(s)
    ensures |s| == |pop|
    decreases |pop|
  {
    if |pop| == 0 then []
    else
      var n := |pop| - 1;
      InsertSorted(pop[n], SortByFitness(pop[..n]));
      Insert(pop[n], SortByFitness(pop[..n]))
  }

  /** Ranking is a permutation of the population. */
  lemma {:induction false} SortMultiset(pop: seq<Individual>)
    ensures multiset(SortByFitness(pop)) == multiset(pop)
    decreases |pop|
  {
    if |pop| > 0 {
      var n := |pop| - 1;
      var prev := SortByFitness(pop[..n]);
      assert SortByFitness(pop) == Insert(pop[n], prev);
      hide SortByFitness, Insert, Sorted;
      SortMultiset(pop[..n]);
      InsertMultiset(pop[n], prev);
      MultisetLast(pop);
    }
  }

  lemma MultisetLast(pop: seq<Individual>)
    requires |pop| > 0
    ensures multiset(pop) == multiset(pop[..|pop| - 1]) + multiset{pop[|pop| - 1]}
  {
    assert pop == pop[..|pop| - 1] + [pop[|pop| - 1]];
  }

  /** Ranking neither adds nor drops an individual, and a fittest one comes first. */
  lemma SortedMember(pop: seq<Individual>, i: int)
    requires 0 <= i < |pop|
    ensures SortByFitness(pop)[i] in pop
    ensures SortByFitness(pop)[0].fitness <= pop[i].fitness
  {
    var s := SortByFitness(pop);
    SortMultiset(pop);
    assert s[i] in multiset(pop);
    assert pop[i] in multiset(s);
    var j :| 0 <= j < |s| && s[j] == pop[i];
    assert 0 == j || 0 < j;
  }

  /** A ranked population is still a population, led by a fittest member. */
  lemma SortedPopulation(original: Grid, pop: seq<Individual>, size: nat)
    requires IsPopulation(original, pop, size)
    ensures IsPopulation(original, SortByFitness(pop), size)
    ensures forall i :: 0 <= i < size ==> SortByFitness(pop)[0].fitness <= pop[i].fitness
  {
    var s := SortByFitness(pop);
    forall i | 0 <= i < size
      ensures Evaluated(original, s[i]) && s[0].fitness <= pop[i].fitness
    {
      SortedMember(pop, i);
      var j :| 0 <= j < |pop| && pop[j] == s[i];
    }
  }
}
