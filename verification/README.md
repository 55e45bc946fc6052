# rusty_mws core, modelled in Dafny

This project models the three pieces of rusty_mws that carry algorithmic content:

- **Skeleton-based fragment correction** (`skel_correct_worker`). For one block, every non-zero
  fragment is painted with the reference (raster) label it overlaps, provided exactly one distinct
  non-zero label overlaps it. Otherwise it stays 0. The result is optionally eroded and dilated.
  A labels mask (all ones) and an unlabelled mask (`seg > 0`) are then derived from it.
- **Fragment filtering** (`filter_fragments`). Each fragment id gets the mean, over its voxels, of
  the channel-averaged affinity. A fragment whose mean is below the threshold is set to 0.
- **Genetic bias search** (`GeneticOptimizer.crossover`, `mutate`, `optimize`). A population of
  (adjacency bias, long-range bias) pairs is scored, sorted by fitness in descending order, halved,
  and refilled with blended, possibly mutated offspring.

Volumes are flat `seq<nat>`; none of the modelled operations depends on voxel order. Affinities
and biases are `real`. Random draws are explicit arguments: a unit draw `u` in [0, 1] stands for
`random.random()`, and `random.uniform(a, b)` is `a + (b - a) * u`, as CPython computes it. The
fitness of a bias pair is an oracle argument `(real, real) -> real`.

Files: `results.dfy` (the `Result` type), `volumes.dfy` (flat volumes and `np.unique`),
`skeleton_correct.dfy`, `utils.dfy` and `genetic_optim.dfy`, one module each.

Two points where the code is followed literally:

- `filter_fragments` iterates over `np.unique(fragments_data)`, so id 0 is a candidate too. Its
  mean is computed, and 0 may be listed for replacement. Replacing 0 by 0 changes nothing, so the
  model treats 0 like any other id and proves the output is the same.
- `optimize` sorts by fitness in descending order (`reverse=True`) and keeps the first half as
  parents. Fitness is the mean of the VOI split and merge errors, where lower is better, so the
  parents are the individuals with the highest error. The model keeps this direction exactly as
  written. `SortedDesc` names it, and every property is stated relative to it.

## Model

| member | source | states |
|---|---|---|
| Volumes.Unique | rusty_mws/skeleton_correct.py:82 | the ids are strictly ascending and are exactly the values occurring in the input |
| SkeletonCorrect.Masked | rusty_mws/skeleton_correct.py:85 | a value is listed iff some voxel of fragment f carries it in the raster |
| SkeletonCorrect.SegIdsAreNonZeroOverlap | rusty_mws/skeleton_correct.py:85-88 | the sorted unique raster values, after dropping a leading 0, are exactly the distinct non-zero labels under the fragment, each listed once |
| SkeletonCorrect.FragmentLabelSpec | rusty_mws/skeleton_correct.py:85-90 | if the non-zero overlap has exactly one label, the fragment's label is that label; otherwise (none, or two or more) the label is 0 |
| SkeletonCorrect.PaintFragments | rusty_mws/skeleton_correct.py:80-90 | starting from zeros and painting fragment by fragment yields the per-voxel reference result for any list of the block's fragment ids that names every fragment, so iteration order does not matter |
| SkeletonCorrect.SkelCorrectWorker | rusty_mws/skeleton_correct.py:76-111 | fails iff raster and fragment sizes differ; with zero erosion iterations the segmentation is the corrected one; the labels mask is all ones and the unlabelled mask is 0/1 with 1 iff the voxel is non-zero |
| SkeletonCorrect.UnambiguousFragment | rusty_mws/skeleton_correct.py:85-90 | a non-zero fragment whose non-zero overlap is {L} gets L on every voxel, including voxels whose raster value is 0 |
| SkeletonCorrect.AmbiguousFragment | rusty_mws/skeleton_correct.py:85-89 | a fragment that overlaps two or more distinct non-zero labels is 0 on every voxel |
| SkeletonCorrect.BackgroundOnlyFragment | rusty_mws/skeleton_correct.py:87-89 | a fragment that overlaps only raster 0 is 0 on every voxel; background is never assigned |
| SkeletonCorrect.LabelProvenance | rusty_mws/skeleton_correct.py:82-90 | fragment 0 is 0 in the output; any non-zero output value occurs in the raster at a voxel of the same fragment |
| SkeletonCorrect.ScenarioSharedLabel | rusty_mws/skeleton_correct.py:80-90 | fragments [1,1,2,2] over raster [5,5,5,5] give [5,5,5,5] |
| SkeletonCorrect.ScenarioAmbiguous | rusty_mws/skeleton_correct.py:80-90 | fragment [1,1] over raster [5,6] gives [0,0] |
| Utils.FragmentSize | src/rusty_mws/utils.py:28-29 | the voxel count of an id is positive iff the id occurs, so every listed id has a defined mean |
| Utils.BelowThreshold | src/rusty_mws/utils.py:28-32 | an id is collected iff it is a candidate and its mean is below the threshold |
| Utils.FilterFragments | src/rusty_mws/utils.py:6-38 | same length; every voxel keeps its id or becomes 0; voxels of a fragment whose mean channel-averaged affinity is below the threshold become 0; all other voxels are unchanged, zeros included |
| Utils.SameVoxelsSameMean | src/rusty_mws/utils.py:29 | a fragment mean depends only on the fragment's voxel set |
| Utils.FilterIdempotent | src/rusty_mws/utils.py:26-38 | filtering the filtered volume again with the same affinities and threshold changes nothing |
| Utils.Neighborhood | src/rusty_mws/utils.py:42-73 | 30 offsets, each of length 3, none of them the zero offset |
| GeneticOptim.Uniform | src/rusty_mws/optim/genetic_optim.py:120-121 | for a unit draw the result lies between the two bounds, in either order |
| GeneticOptim.Crossover | src/rusty_mws/optim/genetic_optim.py:85-97 | for alpha in [0,1] each child component lies between the parents' components; alpha 1 gives parent1, alpha 0 gives parent2; equal parents give that parent |
| GeneticOptim.Mutate | src/rusty_mws/optim/genetic_optim.py:99-110 | a roll at or above the rate returns the individual unchanged; a roll below it moves each component by at most the strength, and changes a component iff the strength is non-zero and that component's noise draw is not 0.5 |
| GeneticOptim.NoiseZeroOnlyAtMidpoint | src/rusty_mws/optim/genetic_optim.py:105-108 | noise drawn from [-strength, strength] is zero iff the strength is zero or the draw is the midpoint 0.5 |
| GeneticOptim.InitialPopulation | src/rusty_mws/optim/genetic_optim.py:117-122 | exactly population_size individuals, each component within its configured range |
| GeneticOptim.Evaluate | src/rusty_mws/optim/genetic_optim.py:128-144 | one triple per individual, in population order, carrying its biases and the oracle's fitness |
| GeneticOptim.SortDesc | src/rusty_mws/optim/genetic_optim.py:146-147 | the result is a permutation of the input, non-increasing in fitness |
| GeneticOptim.SortSortedIsIdentity | src/rusty_mws/optim/genetic_optim.py:177-180 | re-sorting the already sorted fitness list returns it unchanged |
| GeneticOptim.Choose | src/rusty_mws/optim/genetic_optim.py:156-157 | the pick is an element of the parent list, and an in-range index picks that element |
| GeneticOptim.Offspring | src/rusty_mws/optim/genetic_optim.py:155-160 | with unit draws each child component lies between its two parents' components widened by the mutation strength; without mutation, between them inclusive |
| GeneticOptim.Reproduce | src/rusty_mws/optim/genetic_optim.py:153-160 | fails iff a child is needed and the parent list is empty; otherwise one child per draw, each near a blend of two parents |
| GeneticOptim.Generation | src/rusty_mws/optim/genetic_optim.py:125-163 | fails iff the population has one individual; the ranked triples are a sorted permutation of the scored population; the next population has the same size, with the first floor(n/2) ranked individuals as parents; every parent's fitness is at least every unselected individual's |
| GeneticOptim.GenerationParentsAndOffspring | src/rusty_mws/optim/genetic_optim.py:149-163 | in the next population of a successful generation, every parent comes from the population, and every offspring made from unit draws lies within the mutation strength of a blend of two of the parents |
| GeneticOptim.Evolve | src/rusty_mws/optim/genetic_optim.py:125-175 | fails iff the population has one individual; the size is preserved; with one generation the last population is the initial one, and with more it is the next population that a generation step with the second-to-last draws makes of some population of that size; the last ranked list is the descending sort of the last population's triples |
| GeneticOptim.EvolveLastStep | src/rusty_mws/optim/genetic_optim.py:125-163 | the generations are chained: for two or more generations, the run over all but the last draw list succeeds, and the generation step from its last population with the second-to-last draw list yields exactly the population that enters the last generation |
| GeneticOptim.Optimize | src/rusty_mws/optim/genetic_optim.py:112-181 | fails with NoGenerations iff no generation runs, and with EmptyChoice iff generations run on a population of one; otherwise returns population_size triples, sorted non-increasing, permuting the scored last generation |

## Left out

- Block decomposition, `daisy.run_blockwise`, `open_ds`/`prepare_ds`, the three dataset writes,
  tqdm and logging (rusty_mws/skeleton_correct.py:11-71, 98-100, 104-105, 109-110, 113-136). These are I/O and scheduling.
  The worker returns the three arrays it would write.
- SkelCorrectWorker: erosion and dilation with `ball` footprints belong to scikit-image. They are
  opaque function arguments, so only the `erode_iterations == 0` path has a stated result. The
  masks are proved consistent with whatever the refinement returns.
- SkelCorrectWorker: the shape assertion compares voxel counts of flat volumes, not 3-D shapes.
- SkelCorrectWorker: the output has the fragments' dtype in the source, so a raster label wider
  than that dtype would be truncated. Labels here are unbounded naturals.
- `scipy.ndimage.measurements.mean` and `replace_values` are restated as sums, counts and a
  per-voxel replacement. Their float32/float64 rounding is replaced by exact reals.
- GeneticOptim.Mutate: biases are exact reals, not float64. In float64, noise smaller than half
  an ulp of a large bias leaves the bias unchanged, so "changes iff the strength is non-zero and
  the draw is not 0.5" can fail there.
- GeneticOptim.Crossover: with exact reals a blend by a factor in [0, 1] lies between the parents.
  In float64, `alpha * x + (1 - alpha) * y` can round to just outside that interval.
- Utils.FilterFragments: NaN appears only in one place. With zero affinity channels every average
  is NaN, and the model treats that case as "nothing is removed". NaN inside the affinity data
  is not modelled.
- `GeneticOptimizer.__init__` (MongoDB graph provider, edge and score arrays, `makedirs`) and
  `evaluate_weight_biases` (segment, extract_segmentation, rand_voi, and the undefined
  `self.seg_ds` at line 208). These are network, disk and foreign scoring; fitness is an oracle.
- The per-generation `np.savez` snapshot and its sorted copy `fvals`
  (src/rusty_mws/optim/genetic_optim.py:165-175). These are file output only.
- Python's `random` state. Draws are arguments. `random.choice` becomes an index draw reduced
  modulo the list length; an empty list is the EmptyChoice error.
- GeneticOptim.SortDesc: the definition keeps equal-fitness triples in their original order, as
  Python's stable sort does. No lemma states that stability.
- GeneticOptim.Generation: the population length stands for `population_size`. The two are equal
  from initialisation on. A negative `population_size` is not modelled, since sizes are `nat`.
- `mutate` is modelled with the rate and strength its caller uses (both 0.1); the parameters stay
  general in `Mutate`.
- src/rusty_mws/algo/__init__.py only re-exports names and has no logic.
