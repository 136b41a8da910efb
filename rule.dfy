/** The threshold update rule and the two kinds of sweep, as functions of a
    grid value. The weight matrix W is n² by n² and indexed by flattened
    coordinates; b holds one threshold per flattened cell. */
module Rule {
  import opened Torus

  /** A grid snapshot, row by row. */
  type Grid = seq<seq<int>>

  predicate Shaped(n: int, g: Grid)
  {
    |g| == n && forall i :: 0 <= i < n ==> |g[i]| == n
  }

  /** The parameter shapes the automaton relies on: n >= 1, W is n² by n²,
      b has n² entries. */
  predicate Params(n: int, W: seq<seq<int>>, b: seq<int>)
  {
    n >= 1 && |W| == n * n && |b| == n * n && forall k :: 0 <= k < n * n ==> |W[k]| == n * n
  }

  predicate IsSpin(v: int)
  {
    v == -1 || v == 1
  }

  predicate AllSpins(n: int, g: Grid)
    requires Shaped(n, g)
  {
    forall i, j :: 0 <= i < n && 0 <= j < n ==> IsSpin(g[i][j])
  }

  /** Sum of W[row, flat(c)] * g[c] over the coordinates c of nb, added up
      from the first to the last. */
  function WeightedSum(n: int, W: seq<seq<int>>, b: seq<int>, g: Grid, row: int, nb: seq<Coord>): int
    requires Params(n, W, b) && Shaped(n, g) && 0 <= row < n * n
    requires forall k :: 0 <= k < |nb| ==> InGrid(n, nb[k])
    decreases |nb|
  {
    if nb == [] then 0
    else
      var c := nb[|nb| - 1];
      WeightedSum(n, W, b, g, row, nb[..|nb| - 1]) + W[row][Flat(n, c.0, c.1)] * g[c.0][c.1]
  }

  /** The weighted neighbourhood sum of cell (x, y) minus its threshold. */
  function Total(n: int, W: seq<seq<int>>, b: seq<int>, g: Grid, x: int, y: int): int
    requires Params(n, W, b) && Shaped(n, g) && InGrid(n, (x, y))
  {
    var self := Flat(n, x, y);
    WeightedSum(n, W, b, g, self, Neighborhood(n, x, y)) - b[self]
  }

  /** The weighted sum over a five-point stencil, written out term by term. */
  lemma WeightedSumOfFive(n: int, W: seq<seq<int>>, b: seq<int>, g: Grid, row: int, nb: seq<Coord>)
    requires Params(n, W, b) && Shaped(n, g) && 0 <= row < n * n
    requires |nb| == 5 && forall k :: 0 <= k < 5 ==> InGrid(n, nb[k])
    ensures WeightedSum(n, W, b, g, row, nb) ==
      W[row][Flat(n, nb[0].0, nb[0].1)] * g[nb[0].0][nb[0].1] +
      W[row][Flat(n, nb[1].0, nb[1].1)] * g[nb[1].0][nb[1].1] +
      W[row][Flat(n, nb[2].0, nb[2].1)] * g[nb[2].0][nb[2].1] +
      W[row][Flat(n, nb[3].0, nb[3].1)] * g[nb[3].0][nb[3].1] +
      W[row][Flat(n, nb[4].0, nb[4].1)] * g[nb[4].0][nb[4].1]
  {
    assert nb[..5] == nb;
    WeightedSumPrefix(n, W, b, g, row, nb, 4);
    WeightedSumPrefix(n, W, b, g, row, nb, 3);
    WeightedSumPrefix(n, W, b, g, row, nb, 2);
    WeightedSumPrefix(n, W, b, g, row, nb, 1);
    WeightedSumPrefix(n, W, b, g, row, nb, 0);
  }

  /** The sum over the first k + 1 coordinates adds one term to the sum over
      the first k. */
  lemma WeightedSumPrefix(n: int, W: seq<seq<int>>, b: seq<int>, g: Grid, row: int, nb: seq<Coord>, k: int)
    requires Params(n, W, b) && Shaped(n, g) && 0 <= row < n * n
    requires 0 <= k < |nb| && forall i :: 0 <= i < |nb| ==> InGrid(n, nb[i])
    ensures WeightedSum(n, W, b, g, row, nb[..k + 1]) ==
      WeightedSum(n, W, b, g, row, nb[..k]) + W[row][Flat(n, nb[k].0, nb[k].1)] * g[nb[k].0][nb[k].1]
  {
    assert nb[..k + 1][..k] == nb[..k];
  }

  /** Total of cell (x, y), written out term by term over its five stencil
      coordinates, in stencil order, minus the cell's threshold. */
  lemma TotalOfFive(n: int, W: seq<seq<int>>, b: seq<int>, g: Grid, x: int, y: int)
    requires Params(n, W, b) && Shaped(n, g) && InGrid(n, (x, y))
    ensures var nb, self := Neighborhood(n, x, y), Flat(n, x, y);
      Total(n, W, b, g, x, y) ==
        W[self][Flat(n, nb[0].0, nb[0].1)] * g[nb[0].0][nb[0].1] +
        W[self][Flat(n, nb[1].0, nb[1].1)] * g[nb[1].0][nb[1].1] +
        W[self][Flat(n, nb[2].0, nb[2].1)] * g[nb[2].0][nb[2].1] +
        W[self][Flat(n, nb[3].0, nb[3].1)] * g[nb[3].0][nb[3].1] +
        W[self][Flat(n, nb[4].0, nb[4].1)] * g[nb[4].0][nb[4].1] - b[self]
  {
    WeightedSumOfFive(n, W, b, g, Flat(n, x, y), Neighborhood(n, x, y));
  }

  /** Next state of cell (x, y): +1 when its total is positive, otherwise -1. */
  function Activation(n: int, W: seq<seq<int>>, b: seq<int>, g: Grid, x: int, y: int): (s: int)
    requires Params(n, W, b) && Shaped(n, g) && InGrid(n, (x, y))
    ensures IsSpin(s)
  {
    if Total(n, W, b, g, x, y) <= 0 then -1 else 1
  }

  /** The threshold is strict on the positive side: +1 exactly when the
      total is above zero, so a total of exactly zero gives -1. */
  lemma ActivationSign(n: int, W: seq<seq<int>>, b: seq<int>, g: Grid, x: int, y: int)
    requires Params(n, W, b) && Shaped(n, g) && InGrid(n, (x, y))
    ensures Activation(n, W, b, g, x, y) == 1 <==> Total(n, W, b, g, x, y) > 0
    ensures Activation(n, W, b, g, x, y) == -1 <==> Total(n, W, b, g, x, y) <= 0
    ensures Total(n, W, b, g, x, y) == 0 ==> Activation(n, W, b, g, x, y) == -1
  {
  }

  /** Synchronous ("parallel") sweep: every cell from the same before-image. */
  function Synchronous(n: int, W: seq<seq<int>>, b: seq<int>, g: Grid): (h: Grid)
    requires Params(n, W, b) && Shaped(n, g)
    ensures Shaped(n, h) && AllSpins(n, h)
    ensures forall i, j :: 0 <= i < n && 0 <= j < n ==> h[i][j] == Activation(n, W, b, g, i, j)
  {
    seq(n, i requires 0 <= i < n => seq(n, j requires 0 <= j < n => Activation(n, W, b, g, i, j)))
  }

  /** One asynchronous update: cell Decode(idx) gets its activation on g;
      every other cell keeps its value. */
  function Step(n: int, W: seq<seq<int>>, b: seq<int>, g: Grid, idx: int): (h: Grid)
    requires Params(n, W, b) && Shaped(n, g) && 0 <= idx < n * n
    ensures Shaped(n, h)
    ensures h[Decode(n, idx).0][Decode(n, idx).1] == Activation(n, W, b, g, Decode(n, idx).0, Decode(n, idx).1)
    ensures forall i, j :: 0 <= i < n && 0 <= j < n && (i, j) != Decode(n, idx) ==> h[i][j] == g[i][j]
  {
    var c := Decode(n, idx);
    g[c.0 := g[c.0][c.1 := Activation(n, W, b, g, c.0, c.1)]]
  }

  predicate ValidOrder(n: int, order: seq<int>)
  {
    forall k :: 0 <= k < |order| ==> 0 <= order[k] < n * n
  }

  /** Asynchronous ("sequential") sweep: the updates of order applied one
      after another, each seeing the grid left by the ones before it. */
  function Sweep(n: int, W: seq<seq<int>>, b: seq<int>, g: Grid, order: seq<int>): (h: Grid)
    requires Params(n, W, b) && Shaped(n, g) && ValidOrder(n, order)
    ensures Shaped(n, h)
    decreases |order|
  {
    if order == [] then g
    else Step(n, W, b, Sweep(n, W, b, g, order[..|order| - 1]), order[|order| - 1])
  }

  /** Spins stay spins under an asynchronous sweep. */
  lemma {:induction false} SweepKeepsSpins(n: int, W: seq<seq<int>>, b: seq<int>, g: Grid, order: seq<int>)
    requires Params(n, W, b) && Shaped(n, g) && ValidOrder(n, order) && AllSpins(n, g)
    ensures AllSpins(n, Sweep(n, W, b, g, order))
    decreases |order|
  {
    if order != [] {
      SweepKeepsSpins(n, W, b, g, order[..|order| - 1]);
    }
  }

  /** A cell that order never names keeps its value; a cell that it names
      holds a spin afterwards. */
  lemma {:induction false} SweepTouchesOnlyListed(n: int, W: seq<seq<int>>, b: seq<int>, g: Grid, order: seq<int>, x: int, y: int)
    requires Params(n, W, b) && Shaped(n, g) && ValidOrder(n, order) && InGrid(n, (x, y))
    ensures Flat(n, x, y) !in order ==> Sweep(n, W, b, g, order)[x][y] == g[x][y]
    ensures Flat(n, x, y) in order ==> IsSpin(Sweep(n, W, b, g, order)[x][y])
    decreases |order|
  {
    if order != [] {
      var init := order[..|order| - 1];
      var last := order[|order| - 1];
      assert order == init + [last];
      SweepTouchesOnlyListed(n, W, b, g, init, x, y);
      DecodeFlat(n, x, y);
    }
  }

  /** An order naming every cell leaves a grid of spins, whatever the start. */
  lemma CoveringSweepGivesSpins(n: int, W: seq<seq<int>>, b: seq<int>, g: Grid, order: seq<int>)
    requires Params(n, W, b) && Shaped(n, g) && ValidOrder(n, order)
    requires forall k :: 0 <= k < n * n ==> k in order
    ensures AllSpins(n, Sweep(n, W, b, g, order))
  {
    forall i, j | 0 <= i < n && 0 <= j < n
      ensures IsSpin(Sweep(n, W, b, g, order)[i][j])
    {
      SweepTouchesOnlyListed(n, W, b, g, order, i, j);
    }
  }

  /** The weighted sum reads only the cells it lists. */
  lemma {:induction false} WeightedSumReadsListed(n: int, W: seq<seq<int>>, b: seq<int>, g: Grid, h: Grid, row: int, nb: seq<Coord>)
    requires Params(n, W, b) && Shaped(n, g) && Shaped(n, h) && 0 <= row < n * n
    requires forall k :: 0 <= k < |nb| ==> InGrid(n, nb[k]) && g[nb[k].0][nb[k].1] == h[nb[k].0][nb[k].1]
    ensures WeightedSum(n, W, b, g, row, nb) == WeightedSum(n, W, b, h, row, nb)
    decreases |nb|
  {
    if nb != [] {
      WeightedSumReadsListed(n, W, b, g, h, row, nb[..|nb| - 1]);
    }
  }

  /** Locality: a cell's next state depends only on the five cells of its
      stencil; grids agreeing there give the same activation. */
  lemma ActivationIsLocal(n: int, W: seq<seq<int>>, b: seq<int>, g: Grid, h: Grid, x: int, y: int)
    requires Params(n, W, b) && Shaped(n, g) && Shaped(n, h) && InGrid(n, (x, y))
    requires forall c :: c in Neighborhood(n, x, y) ==> InGrid(n, c) && g[c.0][c.1] == h[c.0][c.1]
    ensures Activation(n, W, b, g, x, y) == Activation(n, W, b, h, x, y)
  {
    var nb := Neighborhood(n, x, y);
    assert forall k :: 0 <= k < |nb| ==> nb[k] in nb;
    WeightedSumReadsListed(n, W, b, g, h, Flat(n, x, y), nb);
  }
}
