/** The genetic search over the two merge biases (adjacency bias, long-range bias). Every random
    draw is an explicit argument, a unit draw `u` in [0, 1] as returned by `random.random()`, and
    the fitness of a bias pair is an oracle argument. */
module GeneticOptim {
  import opened Results

  datatype Individual = Individual(adjBias: real, lrBias: real)

  /** An individual with its fitness: one `(adj_bias, lr_bias, fitness)` triple. */
  datatype Scored = Scored(adjBias: real, lrBias: real, fitness: real)

  /** A `(low, high)` bias range as handed to `random.uniform`; `low > high` is allowed. */
  datatype Range = Range(low: real, high: real)

  /** The random draws that make one offspring: two parent picks, the blend factor, the
      mutation roll and the two unit draws behind the mutation noise. */
  datatype ChildDraw = ChildDraw(pick1: nat, pick2: nat, alpha: real, roll: real, uAdj: real, uLr: real)

  /** The unit draws behind one initial individual. */
  datatype InitDraw = InitDraw(uAdj: real, uLr: real)

  datatype OptimError =
    | EmptyChoice     // random.choice on an empty parent list (population of one)
    | NoGenerations   // the result reads the fitness list of a generation that never ran

  /** The defaults `mutate` is called with. */
  const MutationRate: real := 0.1
  const MutationStrength: real := 0.1

  predicate Unit(u: real) {
    0.0 <= u <= 1.0
  }

  predicate UnitDraws(d: ChildDraw) {
    Unit(d.alpha) && Unit(d.roll) && Unit(d.uAdj) && Unit(d.uLr)
  }

  /** `x` lies between `a` and `b`, inclusive, in either order. */
  predicate Between(x: real, a: real, b: real) {
    (a <= x <= b) || (b <= x <= a)
  }

  /** `x` lies between `a` and `b` widened by `slack` on both sides. */
  predicate NearBetween(x: real, a: real, b: real, slack: real) {
    (a - slack <= x <= b + slack) || (b - slack <= x <= a + slack)
  }

  /** A blend by a factor in [0, 1] lies between the two blended values. */
  lemma BlendBetween(x: real, y: real, alpha: real)
    ensures Unit(alpha) ==> Between(alpha * x + (1.0 - alpha) * y, x, y)
  {
    if !Unit(alpha) { return; }
    var e := x - y;
    assert alpha * x + (1.0 - alpha) * y == y + alpha * e;
    assert (1.0 - alpha) * e == e - alpha * e;
    if x >= y {
      ProductNonNegative(alpha, e);
      ProductNonNegative(1.0 - alpha, e);
    } else {
      ProductNonNegative(alpha, -e);
      ProductNonNegative(1.0 - alpha, -e);
    }
  }

  lemma ProductNonNegative(a: real, b: real)
    requires a >= 0.0 && b >= 0.0
    ensures a * b >= 0.0
  {
  }

  /** A uniform draw between `a` and `b` made from the unit draw `u`: `a` moved towards `b` by the
      fraction `u` of the distance between them. */
  function Uniform(a: real, b: real, u: real): (r: real)
    ensures Unit(u) ==> Between(r, a, b)
    ensures u == 0.0 ==> r == a
  {
    BlendBetween(b, a, u);
    a + (b - a) * u
  }

  /** `crossover`: each component of the child blends the parents' by the factor `alpha`. */
  function Crossover(parent1: Individual, parent2: Individual, alpha: real): (child: Individual)
    ensures Unit(alpha) ==> Between(child.adjBias, parent1.adjBias, parent2.adjBias)
    ensures Unit(alpha) ==> Between(child.lrBias, parent1.lrBias, parent2.lrBias)
    ensures alpha == 1.0 ==> child == parent1
    ensures alpha == 0.0 ==> child == parent2
    ensures parent1 == parent2 ==> child == parent1
  {
    BlendBetween(parent1.adjBias, parent2.adjBias, alpha);
    BlendBetween(parent1.lrBias, parent2.lrBias, alpha);
    Individual(alpha * parent1.adjBias + (1.0 - alpha) * parent2.adjBias,
               alpha * parent1.lrBias + (1.0 - alpha) * parent2.lrBias)
  }

  /** Noise drawn from `[-strength, strength]` vanishes only for a zero strength or the draw
      at the middle of the unit interval. */
  lemma NoiseZeroOnlyAtMidpoint(strength: real, u: real)
    ensures Uniform(-strength, strength, u) == 0.0 <==> strength == 0.0 || u == 0.5
  {
    assert Uniform(-strength, strength, u) == strength * (2.0 * u - 1.0);
    if strength != 0.0 && u != 0.5 {
      NonZeroProduct(strength, 2.0 * u - 1.0);
    }
  }

  lemma NonZeroProduct(a: real, b: real)
    requires a != 0.0 && b != 0.0
    ensures a * b != 0.0
  {
  }

  /** `mutate`: when the roll is below the rate, both components receive noise drawn from
      `[-strength, strength]`; otherwise the individual is returned as it is. */
  function Mutate(ind: Individual, rate: real, strength: real, roll: real, uAdj: real, uLr: real): (r: Individual)
    ensures roll >= rate ==> r == ind
    ensures roll < rate && Unit(uAdj) ==> Between(r.adjBias - ind.adjBias, -strength, strength)
    ensures roll < rate && Unit(uLr) ==> Between(r.lrBias - ind.lrBias, -strength, strength)
    ensures roll < rate ==> (r.adjBias != ind.adjBias <==> strength != 0.0 && uAdj != 0.5)
    ensures roll < rate ==> (r.lrBias != ind.lrBias <==> strength != 0.0 && uLr != 0.5)
  {
    NoiseZeroOnlyAtMidpoint(strength, uAdj);
    NoiseZeroOnlyAtMidpoint(strength, uLr);
    if roll < rate then
      Individual(ind.adjBias + Uniform(-strength, strength, uAdj),
                 ind.lrBias + Uniform(-strength, strength, uLr))
    else ind
  }

  /** The initial population: one individual per pair of draws, each component drawn uniformly
      from its configured range. */
  function InitialPopulation(populationSize: nat, adjRange: Range, lrRange: Range, draws: seq<InitDraw>): (pop: seq<Individual>)
    requires |draws| == populationSize
    ensures |pop| == populationSize
    ensures forall k :: 0 <= k < |pop| && Unit(draws[k].uAdj) ==> Between(pop[k].adjBias, adjRange.low, adjRange.high)
    ensures forall k :: 0 <= k < |pop| && Unit(draws[k].uLr) ==> Between(pop[k].lrBias, lrRange.low, lrRange.high)
  {
    seq(populationSize, k requires 0 <= k < populationSize =>
      Individual(Uniform(adjRange.low, adjRange.high, draws[k].uAdj),
                 Uniform(lrRange.low, lrRange.high, draws[k].uLr)))
  }

  /** The individuals of a scored list: each triple with its fitness dropped. */
  function Strip(scored: seq<Scored>): (pop: seq<Individual>)
    ensures |pop| == |scored|
  {
    seq(|scored|, k requires 0 <= k < |scored| => Individual(scored[k].adjBias, scored[k].lrBias))
  }

  /** Scores every individual with the fitness oracle, in population order. */
  function Evaluate(pop: seq<Individual>, fitness: (real, real) -> real): (scored: seq<Scored>)
    ensures Strip(scored) == pop
    ensures forall k :: 0 <= k < |scored| ==> scored[k].fitness == fitness(pop[k].adjBias, pop[k].lrBias)
  {
    var scored := seq(|pop|, k requires 0 <= k < |pop| => Scored(pop[k].adjBias, pop[k].lrBias, fitness(pop[k].adjBias, pop[k].lrBias)));
    assert forall k :: 0 <= k < |pop| ==> Strip(scored)[k] == pop[k];
    scored
  }

  /** Non-increasing by fitness, highest first: the order the population is ranked in. */
  predicate SortedDesc(s: seq<Scored>) {
    forall i, j :: 0 <= i < j < |s| ==> s[i].fitness >= s[j].fitness
  }

  /** Inserts `x` ahead of every entry whose fitness it equals or exceeds, so that among equal
      fitness values the original order is kept, as in Python's stable sort. */
  function Insert(x: Scored, s: seq<Scored>): (r: seq<Scored>)
    requires SortedDesc(s)
    ensures SortedDesc(r)
    ensures |r| == |s| + 1
    ensures forall y :: y in r ==> y == x || y in s
    ensures multiset(r) == multiset(s) + multiset{x}
  {
    if |s| == 0 || x.fitness >= s[0].fitness then [x] + s
    else
      var t := Insert(x, s[1..]);
      assert s == [s[0]] + s[1..];
      assert forall k :: 0 <= k < |t| ==> s[0].fitness >= t[k].fitness by {
        forall k | 0 <= k < |t| ensures s[0].fitness >= t[k].fitness {
          assert t[k] in t;
          if t[k] != x {
            var m :| 0 <= m < |s[1..]| && s[1..][m] == t[k];
            assert s[m + 1] == t[k];
          }
        }
      }
      [s[0]] + t
  }

  /** Sorts by fitness, highest first; entries of equal fitness keep their original order. */
  function SortDesc(s: seq<Scored>): (r: seq<Scored>)
    ensures SortedDesc(r)
    ensures |r| == |s|
    ensures multiset(r) == multiset(s)
  {
    if |s| == 0 then []
    else
      assert s == [s[0]] + s[1..];
      Insert(s[0], SortDesc(s[1..]))
  }

  /** Sorting an already sorted list changes nothing, so the final re-sort of the last
      generation's sorted fitness list returns it as it is. */
  lemma {:induction false} SortSortedIsIdentity(s: seq<Scored>)
    requires SortedDesc(s)
    ensures SortDesc(s) == s
  {
    if |s| > 0 {
      SortSortedIsIdentity(s[1..]);
      assert s == [s[0]] + s[1..];
    }
  }

  /** `random.choice`: the draw `pick` names an index, reduced into range, so a draw below the
      length picks exactly that element. */
  function Choose(parents: seq<Individual>, pick: nat): (p: Individual)
    requires |parents| > 0
    ensures p in parents
    ensures pick < |parents| ==> p == parents[pick]
  {
    parents[pick % |parents|]
  }

  /** One offspring: blend two picked parents, then mutate with the default rate and strength. */
  function Offspring(parents: seq<Individual>, d: ChildDraw): (child: Individual)
    requires |parents| > 0
    ensures UnitDraws(d) ==> NearBetween(child.adjBias, Choose(parents, d.pick1).adjBias, Choose(parents, d.pick2).adjBias, MutationStrength)
    ensures UnitDraws(d) ==> NearBetween(child.lrBias, Choose(parents, d.pick1).lrBias, Choose(parents, d.pick2).lrBias, MutationStrength)
    ensures UnitDraws(d) && d.roll >= MutationRate ==> Between(child.adjBias, Choose(parents, d.pick1).adjBias, Choose(parents, d.pick2).adjBias)
    ensures UnitDraws(d) && d.roll >= MutationRate ==> Between(child.lrBias, Choose(parents, d.pick1).lrBias, Choose(parents, d.pick2).lrBias)
  {
    var blended := Crossover(Choose(parents, d.pick1), Choose(parents, d.pick2), d.alpha);
    Mutate(blended, MutationRate, MutationStrength, d.roll, d.uAdj, d.uLr)
  }

  /** The offspring loop: one child per draw, or an error when a parent must be picked from an
      empty list. */
  function Reproduce(parents: seq<Individual>, draws: seq<ChildDraw>): (r: Result<seq<Individual>, OptimError>)
    ensures r.Err? <==> |draws| > 0 && |parents| == 0
    ensures r.Ok? ==> |r.value| == |draws|
    ensures r.Ok? ==> forall k :: 0 <= k < |draws| && UnitDraws(draws[k]) ==>
      exists p1, p2 :: p1 in parents && p2 in parents && NearBetween(r.value[k].adjBias, p1.adjBias, p2.adjBias, MutationStrength)
                                                      && NearBetween(r.value[k].lrBias, p1.lrBias, p2.lrBias, MutationStrength)
  {
    if |draws| == 0 then Ok([])
    else if |parents| == 0 then Err(EmptyChoice)
    else
      var children := seq(|draws|, k requires 0 <= k < |draws| => Offspring(parents, draws[k]));
      assert forall k :: 0 <= k < |draws| && UnitDraws(draws[k]) ==>
        exists p1, p2 :: p1 in parents && p2 in parents && NearBetween(children[k].adjBias, p1.adjBias, p2.adjBias, MutationStrength)
                                                       && NearBetween(children[k].lrBias, p1.lrBias, p2.lrBias, MutationStrength) by {
        forall k | 0 <= k < |draws| && UnitDraws(draws[k])
          ensures exists p1, p2 :: p1 in parents && p2 in parents && NearBetween(children[k].adjBias, p1.adjBias, p2.adjBias, MutationStrength)
                                                                 && NearBetween(children[k].lrBias, p1.lrBias, p2.lrBias, MutationStrength)
        {
          var p1, p2 := Choose(parents, draws[k].pick1), Choose(parents, draws[k].pick2);
          assert NearBetween(children[k].adjBias, p1.adjBias, p2.adjBias, MutationStrength);
          assert NearBetween(children[k].lrBias, p1.lrBias, p2.lrBias, MutationStrength);
        }
      }
      Ok(children)
  }

  /** The ranked triples of a generation and the population it hands on. */
  datatype GenerationResult = GenerationResult(ranked: seq<Scored>, next: seq<Individual>)

  /** The first `count` individuals of `next` all come from `pop`. */
  ghost predicate ParentsDrawnFrom(next: seq<Individual>, count: nat, pop: seq<Individual>) {
    count <= |next| && forall k :: 0 <= k < count ==> next[k] in pop
  }

  /** Every individual of `next` after the first `count` that was made from unit draws lies
      near a blend of two of the first `count`. */
  ghost predicate OffspringNearParentsOf(next: seq<Individual>, count: nat, draws: seq<ChildDraw>) {
    && count <= |next|
    && |draws| == |next| - count
    && forall k :: count <= k < |next| && UnitDraws(draws[k - count]) ==>
         exists p1, p2 :: p1 in next[..count] && p2 in next[..count]
                       && NearBetween(next[k].adjBias, p1.adjBias, p2.adjBias, MutationStrength)
                       && NearBetween(next[k].lrBias, p1.lrBias, p2.lrBias, MutationStrength)
  }

  /** No entry among the first `count` of `ranked` is less fit than an entry after them. */
  predicate FittestFirst(ranked: seq<Scored>, count: nat) {
    forall i, j :: 0 <= i < count <= j < |ranked| ==> ranked[i].fitness >= ranked[j].fitness
  }

  /** Every selected parent is an individual of the evaluated population. */
  lemma RankedParentsFromPopulation(pop: seq<Individual>, fitness: (real, real) -> real, count: nat, offspring: seq<Individual>)
    requires count <= |pop|
    ensures ParentsDrawnFrom(Strip(SortDesc(Evaluate(pop, fitness))[..count]) + offspring, count, pop)
  {
    var scored := Evaluate(pop, fitness);
    var ranked := SortDesc(scored);
    var parents := Strip(ranked[..count]);
    forall k | 0 <= k < count ensures (parents + offspring)[k] in pop {
      assert ranked[k] in multiset(scored);
      var m :| 0 <= m < |scored| && scored[m] == ranked[k];
      assert Strip(scored)[m] == parents[k];
    }
  }

  /** Appended after the parents, each offspring stays near a blend of two of them. */
  lemma OffspringNearParents(parents: seq<Individual>, draws: seq<ChildDraw>, offspring: seq<Individual>)
    requires Reproduce(parents, draws) == Ok(offspring)
    ensures OffspringNearParentsOf(parents + offspring, |parents|, draws)
  {
    var next := parents + offspring;
    assert next[..|parents|] == parents;
    assert forall k :: |parents| <= k < |next| ==> next[k] == offspring[k - |parents|];
  }

  /** One generation: evaluate, sort by fitness descending, keep the first half (rounded down)
      as parents and fill the population up with offspring. The population always holds
      `population_size` individuals, so its length stands for that setting. */
  function Generation(pop: seq<Individual>, fitness: (real, real) -> real, draws: seq<ChildDraw>): (r: Result<GenerationResult, OptimError>)
    requires |draws| == |pop| - |pop| / 2
    ensures r.Err? <==> |pop| == 1
    ensures r.Ok? ==> SortedDesc(r.value.ranked) && multiset(r.value.ranked) == multiset(Evaluate(pop, fitness))
    ensures r.Ok? ==> r.value.ranked == SortDesc(Evaluate(pop, fitness))
    ensures r.Ok? ==> |r.value.next| == |pop| && |r.value.ranked| == |pop|
    ensures r.Ok? ==> r.value.next[..|pop| / 2] == Strip(r.value.ranked[..|pop| / 2])
    ensures r.Ok? ==> FittestFirst(r.value.ranked, |pop| / 2)
  {
    var ranked := SortDesc(Evaluate(pop, fitness));
    var parents := Strip(ranked[..|pop| / 2]);
    match Reproduce(parents, draws)
    case Err(e) => Err(e)
    case Ok(offspring) =>
      assert (parents + offspring)[..|pop| / 2] == parents;
      Ok(GenerationResult(ranked, parents + offspring))
  }

  /** The next population of a generation is its parents, all taken from the population, followed
      by offspring that each lie near a blend of two of those parents. */
  lemma GenerationParentsAndOffspring(pop: seq<Individual>, fitness: (real, real) -> real, draws: seq<ChildDraw>)
    requires |draws| == |pop| - |pop| / 2
    ensures Generation(pop, fitness, draws).Ok? ==>
              && ParentsDrawnFrom(Generation(pop, fitness, draws).value.next, |pop| / 2, pop)
              && OffspringNearParentsOf(Generation(pop, fitness, draws).value.next, |pop| / 2, draws)
  {
    var ranked := SortDesc(Evaluate(pop, fitness));
    var parents := Strip(ranked[..|pop| / 2]);
    match Reproduce(parents, draws)
    case Err(_) =>
    case Ok(offspring) =>
      assert Generation(pop, fitness, draws) == Ok(GenerationResult(ranked, parents + offspring));
      RankedParentsFromPopulation(pop, fitness, |pop| / 2, offspring);
      OffspringNearParents(parents, draws, offspring);
  }

  /** The population that entered the final generation and that generation's ranked triples. */
  datatype Run = Run(lastPopulation: seq<Individual>, ranked: seq<Scored>)

  /** `next` is what one generation step, with child draws `draws`, makes of some population. */
  ghost predicate NextOfSomeGeneration(next: seq<Individual>, fitness: (real, real) -> real, draws: seq<ChildDraw>) {
    exists prev: seq<Individual> :: && |draws| == |prev| - |prev| / 2
                                    && |prev| == |next|
                                    && Generation(prev, fitness, draws).Ok?
                                    && Generation(prev, fitness, draws).value.next == next
  }

  /** The generation loop, one list of offspring draws per generation. */
  function Evolve(pop: seq<Individual>, fitness: (real, real) -> real, generations: seq<seq<ChildDraw>>): (r: Result<Run, OptimError>)
    requires |generations| > 0
    requires forall g :: 0 <= g < |generations| ==> |generations[g]| == |pop| - |pop| / 2
    ensures r.Err? <==> |pop| == 1
    ensures r.Ok? ==> |r.value.lastPopulation| == |pop| && |r.value.ranked| == |pop|
    ensures r.Ok? ==> SortedDesc(r.value.ranked)
    ensures r.Ok? ==> multiset(r.value.ranked) == multiset(Evaluate(r.value.lastPopulation, fitness))
    ensures r.Ok? && |generations| == 1 ==> r.value.lastPopulation == pop
    ensures r.Ok? && |generations| > 1 ==> NextOfSomeGeneration(r.value.lastPopulation, fitness, generations[|generations| - 2])
    ensures r.Ok? ==> r.value.ranked == SortDesc(Evaluate(r.value.lastPopulation, fitness))
    decreases |generations|
  {
    match Generation(pop, fitness, generations[0])
    case Err(e) => Err(e)
    case Ok(g) =>
      if |generations| == 1 then Ok(Run(pop, g.ranked))
      else
        var rest := generations[1..];
        assert |rest| > 1 ==> rest[|rest| - 2] == generations[|generations| - 2];
        assert |rest| == 1 ==> NextOfSomeGeneration(g.next, fitness, generations[|generations| - 2]) by {
          if |rest| == 1 {
            assert generations[|generations| - 2] == generations[0];
            assert Generation(pop, fitness, generations[0]) == Ok(g);
          }
        }
        Evolve(g.next, fitness, rest)
  }

  /** The run over all but the last draw list succeeds, and one more generation step from its
      last population, with the second-to-last draw list, gives `last`. */
  ghost predicate ChainedFromPrefix(pop: seq<Individual>, fitness: (real, real) -> real, generations: seq<seq<ChildDraw>>, last: seq<Individual>)
    requires |generations| > 1
    requires forall g :: 0 <= g < |generations| ==> |generations[g]| == |pop| - |pop| / 2
  {
    var before := Evolve(pop, fitness, generations[..|generations| - 1]);
    && before.Ok?
    && Generation(before.value.lastPopulation, fitness, generations[|generations| - 2]).Ok?
    && Generation(before.value.lastPopulation, fitness, generations[|generations| - 2]).value.next == last
  }

  /** With two generations, the run over the first alone ends with the initial population, and
      the step from it is the first generation itself. */
  lemma ChainedTwoGenerations(pop: seq<Individual>, fitness: (real, real) -> real, generations: seq<seq<ChildDraw>>)
    requires |generations| == 2
    requires forall g :: 0 <= g < |generations| ==> |generations[g]| == |pop| - |pop| / 2
    requires |pop| != 1
    ensures ChainedFromPrefix(pop, fitness, generations, Evolve(pop, fitness, generations).value.lastPopulation)
  {
  }

  /** Chaining is preserved when the run is extended by one generation at the front. */
  lemma ChainedShift(pop: seq<Individual>, fitness: (real, real) -> real, generations: seq<seq<ChildDraw>>, last: seq<Individual>)
    requires |generations| > 2
    requires forall g :: 0 <= g < |generations| ==> |generations[g]| == |pop| - |pop| / 2
    requires |pop| != 1
    ensures ChainedFromPrefix(Generation(pop, fitness, generations[0]).value.next, fitness, generations[1..], last) ==>
              ChainedFromPrefix(pop, fitness, generations, last)
  {
    var rest := generations[1..];
    var prefix := generations[..|generations| - 1];
    assert prefix[0] == generations[0];
    assert prefix[1..] == rest[..|rest| - 1];
    assert rest[|rest| - 2] == generations[|generations| - 2];
  }

  /** The generations are chained: the population entering the last generation is the next
      population that the generation before it produced from the run up to that point. */
  lemma {:induction false} EvolveLastStep(pop: seq<Individual>, fitness: (real, real) -> real, generations: seq<seq<ChildDraw>>)
    requires |generations| > 1
    requires forall g :: 0 <= g < |generations| ==> |generations[g]| == |pop| - |pop| / 2
    requires |pop| != 1
    ensures ChainedFromPrefix(pop, fitness, generations, Evolve(pop, fitness, generations).value.lastPopulation)
    decreases |generations|
  {
    if |generations| == 2 {
      ChainedTwoGenerations(pop, fitness, generations);
    } else {
      var g := Generation(pop, fitness, generations[0]).value;
      EvolveLastStep(g.next, fitness, generations[1..]);
      ChainedShift(pop, fitness, generations, Evolve(pop, fitness, generations).value.lastPopulation);
    }
  }

  /** `optimize`: the initial population, `|generations|` generations, and the last generation's
      triples sorted by fitness descending. */
  function Optimize(populationSize: nat, adjRange: Range, lrRange: Range, initDraws: seq<InitDraw>,
                    generations: seq<seq<ChildDraw>>, fitness: (real, real) -> real): (r: Result<seq<Scored>, OptimError>)
    requires |initDraws| == populationSize
    requires forall g :: 0 <= g < |generations| ==> |generations[g]| == populationSize - populationSize / 2
    ensures |generations| == 0 <==> r == Err(NoGenerations)
    ensures |generations| > 0 && populationSize == 1 <==> r == Err(EmptyChoice)
    ensures r.Ok? ==> |r.value| == populationSize && SortedDesc(r.value)
    ensures r.Ok? ==>
      var run := Evolve(InitialPopulation(populationSize, adjRange, lrRange, initDraws), fitness, generations);
      && run.Ok?
      && r.value == run.value.ranked
      && multiset(r.value) == multiset(Evaluate(run.value.lastPopulation, fitness))
  {
    if |generations| == 0 then Err(NoGenerations)
    else
      var pop := InitialPopulation(populationSize, adjRange, lrRange, initDraws);
      match Evolve(pop, fitness, generations)
      case Err(e) => Err(e)
      case Ok(run) =>
        SortSortedIsIdentity(run.ranked);
        var best := SortDesc(run.ranked);
        assert best[..populationSize] == run.ranked;
        Ok(best[..populationSize])
  }

}
