# Threshold cellular automaton, modelled in Dafny

The system simulates a threshold cellular automaton. An n-by-n grid of cells,
each -1 or +1, lies on a torus. A cell's next state is a weighted sum over its
five-point von Neumann stencil minus a per-cell threshold. The cell becomes +1
when that total is positive and -1 otherwise, so a total of exactly zero gives
-1. The weight matrix W is n² by n² and the threshold vector b has n² entries.
Both are addressed by the row-major index `n*x + y` of a cell.

On a torus of side 1 or 2 the five stencil coordinates are not distinct, and
a repeated coordinate's weight is added once per occurrence. With n = 1 the
cell itself is summed five times. With n = 2 the single vertical neighbour
and the single horizontal neighbour are each summed twice. From n = 3 on the
five coordinates are pairwise distinct.

One sweep (`iterate`) works in one of two modes:

- **"parallel"** computes every cell from the grid as it stood before the
  sweep. The results go into a new array, which then replaces the grid.
- **Any other mode** walks a caller-given `order` of n² linear indices. It
  decodes each index into (row, column) by repeated subtraction of n and
  overwrites that cell at once. Later updates see earlier ones.
  A missing order, or one whose size is not n², leaves the grid untouched.

Files (one module each):

- `torus.dfy` (`Torus`): the stencil, flattening and decoding of coordinates,
  and the torus facts (wrap-around, symmetry, an independent adjacency
  relation).
- `rule.dfy` (`Rule`): the update rule and both sweeps as functions of a grid
  value, plus their invariants (spins stay spins, a sequential sweep touches
  only the cells it names, the rule reads only the stencil).
- `automaton.dfy` (`Automaton`): the class `ThresholdAutomaton`. It holds
  `n`, `W` and `b` as constants and the grid as an `array2<int>`. A ghost
  field `Cells` mirrors the array. The `f` and `iterate` routines are
  methods whose loops are proved against the `Rule` functions.
- `scenarios.dfy` (`Scenarios`): consequences for particular parameter
  families, and a grid on which two sequential orders disagree.

The stencil's first entry, the cell itself, is not reduced modulo n
(ThresholdAutomaton.py:71); only the four neighbours are. For cells on the
grid this makes no difference, and the model keeps it as written.

The decoding loop (ThresholdAutomaton.py:122-125) is modelled as a loop.
`DecodeIndex` proves that it computes row `i / n` and column `i % n`.

## Model

| member | source | states |
|---|---|---|
| `Torus.Flat` | ThresholdAutomaton.py:79-82 | the index `n*x + y` of a cell on the grid lies in [0, n²), so each access to a W row, a W column or b is in bounds |
| `Torus.Decode` | ThresholdAutomaton.py:121-126 | a linear index in [0, n²) decodes to a cell on the grid that flattens back to the same index |
| `Torus.DecodeFlat` | ThresholdAutomaton.py:79 | flattening is injective: decoding the index of (x, y) gives back (x, y) |
| `Torus.Neighborhood` | ThresholdAutomaton.py:70-73 | exactly five coordinates, the cell itself first; for a cell on the grid every coordinate is on the grid |
| `Torus.NeighborhoodIsAdjacency` | ThresholdAutomaton.py:70-73 | for cells p, q on the grid: q is in p's stencil iff q is p or one orthogonal step from p, with steps counted modulo n |
| `Torus.NeighborhoodSymmetric` | ThresholdAutomaton.py:70-73 | q is in p's stencil iff p is in q's |
| `Torus.SmallTorusRepeats` | ThresholdAutomaton.py:70-73 | with n = 1 the stencil lists the cell five times; with n = 2 it lists the cell once and its vertical and horizontal neighbours twice each, so their weights count twice |
| `Torus.StencilDistinct` | ThresholdAutomaton.py:70-73 | with n ≥ 3 the five stencil coordinates are pairwise distinct |
| `Torus.CornerWraps` | ThresholdAutomaton.py:71-73 | the stencil of (0, 0) holds (n-1, 0) and (0, n-1): indices wrap, they do not clamp |
| `Torus.EdgeWraps` | ThresholdAutomaton.py:71-73 | the stencil of (n-1, y) holds (0, y), and the stencil of (x, n-1) holds (x, 0) |
| `Rule.WeightedSum` | ThresholdAutomaton.py:78-83 | the left-to-right sum of W[row][flat(c)]·g[c] over the listed coordinates; `NextState`'s loop invariant ties the loop's running total to it over each prefix of the stencil |
| `Rule.WeightedSumOfFive` | ThresholdAutomaton.py:78-83 | over five coordinates, `WeightedSum` is the sum of the five terms W[row][flat(c)]·g[c] in list order |
| `Rule.TotalOfFive` | ThresholdAutomaton.py:76-85 | `Total` of cell (x, y) is the five terms W[flat(x, y)][flat(c)]·g[c] over its stencil, self first, minus b[flat(x, y)] |
| `Rule.Activation` | ThresholdAutomaton.py:85-89 | the next state of a cell is always -1 or +1 |
| `Rule.ActivationSign` | ThresholdAutomaton.py:85-89 | the result is +1 iff the weighted sum minus the threshold is positive and -1 iff it is at most zero; a total of exactly zero gives -1 |
| `Rule.WeightedSumReadsListed` | ThresholdAutomaton.py:81-83 | the weighted sum depends only on the grid values of the coordinates it runs over |
| `Rule.ActivationIsLocal` | ThresholdAutomaton.py:75-89 | two grids that agree on a cell's five stencil cells give that cell the same next state |
| `Rule.Synchronous` | ThresholdAutomaton.py:110-116 | the parallel result has shape n by n; every cell is -1 or +1 (none keeps the placeholder 0) and equals the rule applied to the before-image |
| `Rule.Step` | ThresholdAutomaton.py:121-126 | one sequential update writes the rule's value on the current grid into the decoded cell and leaves every other cell unchanged |
| `Rule.Sweep` | ThresholdAutomaton.py:121-126 | applies `Step` for each entry of the order, first to last, each update seeing the grid left by the ones before it; the result keeps the n-by-n shape |
| `Rule.SweepKeepsSpins` | ThresholdAutomaton.py:121-126 | a sequential sweep of a grid of spins yields a grid of spins |
| `Rule.SweepTouchesOnlyListed` | ThresholdAutomaton.py:121-126 | a cell the order never names keeps its value; a cell it names ends as -1 or +1 |
| `Rule.CoveringSweepGivesSpins` | ThresholdAutomaton.py:121-126 | an order naming every cell leaves only spins, whatever the starting grid |
| `Automaton.Filled` | ThresholdAutomaton.py:62-63 | the default grid is n by n and -1 everywhere |
| `Automaton.ThresholdAutomaton.constructor` | ThresholdAutomaton.py:56-65 | fixes n, W and b; the grid is a fresh array holding a copy of the given grid, or all -1 when none is given |
| `Automaton.ThresholdAutomaton.NextState` | ThresholdAutomaton.py:75-89 | the loop that accumulates the total over the stencil returns exactly the rule's value for the current grid; the method has no frame, so it changes neither the grid, W nor b |
| `Automaton.ThresholdAutomaton.DecodeIndex` | ThresholdAutomaton.py:122-125 | the repeated-subtraction loop ends with `i == n*row + col`, both on the grid, i.e. row `i / n` and column `i % n` |
| `Automaton.ThresholdAutomaton.ParallelSweep` | ThresholdAutomaton.py:110-116 | the grid becomes a fresh array whose contents are the synchronous image of the grid before the call |
| `Automaton.ThresholdAutomaton.SequentialSweep` | ThresholdAutomaton.py:121-126 | the same array is updated in place and ends holding the sequential sweep of the old contents over the order |
| `Automaton.ThresholdAutomaton.Iterate` | ThresholdAutomaton.py:91-126 | mode defaults to "sequential" and order to none, as in the source; "parallel" gives the synchronous image in a new array and leaves the old array untouched; any other mode with an order of n² entries gives the sequential sweep in place; a missing or wrong-size order changes nothing and reports `swept == false`; a grid of spins stays a grid of spins |
| `Scenarios.ZeroWeightsGiveAllMinusOne` | ThresholdAutomaton.py:78-89 | with all weights zero and no negative threshold, a parallel sweep sets every cell to -1 |
| `Scenarios.SelfWeightKeepsCell` | ThresholdAutomaton.py:78-89 | with self-weight 1, all other weights 0 and zero thresholds, each cell's next state is its current value |
| `Scenarios.SelfWeightSynchronousFixedPoint` | ThresholdAutomaton.py:110-116 | under those parameters a parallel sweep leaves every grid of spins unchanged |
| `Scenarios.SelfWeightSweepFixedPoint` | ThresholdAutomaton.py:121-126 | under those parameters a sequential sweep in any order leaves every grid of spins unchanged |
| `Scenarios.SequentialOrderMatters` | ThresholdAutomaton.py:121-126 | on a 2-by-2 torus where (0,0) follows (0,1) and (0,1) opposes (0,0), the orders 0,1,2,3 and 1,0,2,3 give different grids from the same start |

## Left out

- Random initial grids (ThresholdAutomaton.py:60-61) are not modelled: they need randomness and a floating-point proportion.
- Converting lists to numpy arrays (ThresholdAutomaton.py:51-54) is library glue. W and b are immutable integer sequences here.
- The optional initial grid is an `Option`. The source's `grid == None` equality test on an array is not reproduced.
- The constructor requires n ≥ 1, W to be n² by n², b to have n² entries and the initial grid to be n by n. The source does not check these; a shape mismatch fails later at an index. An automaton with n = 0 has an empty grid, and every sweep of it does nothing; the model does not cover that case.
- The constructor does not check that the initial grid holds only -1 and +1, and neither does the source. `Iterate` keeps a grid of spins a grid of spins.
- `__str__` (ThresholdAutomaton.py:67-68) only formats output.
- The diagnostic `print` (ThresholdAutomaton.py:119) is not modelled. `Iterate` returns `swept == false` in its place.
- The factory functions in `__init__.py` only forward to the constructor.
- Weights and thresholds are unbounded integers. numpy floating-point rounding and 64-bit integer overflow are not modelled.
- Automaton.ThresholdAutomaton.Iterate: requires every entry of an n²-long order to lie in [0, n²). The source does not check this. An entry of n² or more raises an index error only after the updates for the earlier entries have already been written in place, so the source leaves a partial sweep behind. An entry i in [-n, 0) raises nothing: the decoding loop does not run, and numpy's negative indexing rewrites cell (0, n + i) using W row and b entry n² + i, which belong to cell (n - 1, n + i) (ThresholdAutomaton.py:79, 82-85, 126). An entry below -n raises an index error, again after a partial sweep.
- The order is a one-dimensional sequence. The source compares `order.size` with n², so a multi-dimensional array of n² entries would also pass its check.
- The parallel branch copies `new_grid` once more with `np.copy` before storing it. The model stores the freshly built array directly; nothing else refers to it, so the difference cannot be observed.
