/** Consequences of the update rule for particular parameter families, and a
    concrete grid on which the two sequential orders disagree. */
module Scenarios {
  import opened Torus
  import opened Rule

  /** Every weight is zero. */
  predicate ZeroWeights(n: int, W: seq<seq<int>>, b: seq<int>)
    requires Params(n, W, b)
  {
    forall r, c :: 0 <= r < n * n && 0 <= c < n * n ==> W[r][c] == 0
  }

  /** Each cell is influenced by itself with weight 1 and by nothing else. */
  predicate SelfWeightOnly(n: int, W: seq<seq<int>>, b: seq<int>)
    requires Params(n, W, b)
  {
    forall r, c :: 0 <= r < n * n && 0 <= c < n * n ==> W[r][c] == (if r == c then 1 else 0)
  }

  lemma {:induction false} ZeroWeightsSumToZero(n: int, W: seq<seq<int>>, b: seq<int>, g: Grid, row: int, nb: seq<Coord>)
    requires Params(n, W, b) && ZeroWeights(n, W, b) && Shaped(n, g) && 0 <= row < n * n
    requires forall k :: 0 <= k < |nb| ==> InGrid(n, nb[k])
    ensures WeightedSum(n, W, b, g, row, nb) == 0
    decreases |nb|
  {
    if nb != [] {
      ZeroWeightsSumToZero(n, W, b, g, row, nb[..|nb| - 1]);
    }
  }

  /** With all weights zero and no negative threshold, every total is at most
      zero, so a synchronous sweep sets every cell to -1. */
  lemma ZeroWeightsGiveAllMinusOne(n: int, W: seq<seq<int>>, b: seq<int>, g: Grid)
    requires Params(n, W, b) && ZeroWeights(n, W, b) && Shaped(n, g)
    requires forall k :: 0 <= k < n * n ==> b[k] >= 0
    ensures forall i, j :: 0 <= i < n && 0 <= j < n ==> Synchronous(n, W, b, g)[i][j] == -1
  {
    forall i, j | 0 <= i < n && 0 <= j < n
      ensures Activation(n, W, b, g, i, j) == -1
    {
      ZeroWeightsSumToZero(n, W, b, g, Flat(n, i, j), Neighborhood(n, i, j));
    }
  }

  /** Under self-weight-only parameters the weighted sum of a stencil counts
      how often cell p occurs in it, times p's value. */
  lemma {:induction false} SelfWeightSum(n: int, W: seq<seq<int>>, b: seq<int>, g: Grid, p: Coord, nb: seq<Coord>)
    requires Params(n, W, b) && SelfWeightOnly(n, W, b) && Shaped(n, g) && InGrid(n, p)
    requires forall k :: 0 <= k < |nb| ==> InGrid(n, nb[k])
    ensures WeightedSum(n, W, b, g, Flat(n, p.0, p.1), nb) == multiset(nb)[p] * g[p.0][p.1]
    decreases |nb|
  {
    if nb != [] {
      var init, c := nb[..|nb| - 1], nb[|nb| - 1];
      assert nb == init + [c];
      SelfWeightSum(n, W, b, g, p, init);
      var fp, fc := Flat(n, p.0, p.1), Flat(n, c.0, c.1);
      var m, v := multiset(init)[p], g[p.0][p.1];
      var w := W[fp][fc] * g[c.0][c.1];
      assert WeightedSum(n, W, b, g, fp, nb) == m * v + w;
      if c == p {
        assert multiset(nb)[p] == m + 1 && w == v;
        MulSucc(m, v);
      } else {
        DecodeFlat(n, p.0, p.1);
        DecodeFlat(n, c.0, c.1);
        assert multiset(nb)[p] == m && w == 0;
      }
    }
  }

  lemma MulSucc(m: int, v: int)
    ensures (m + 1) * v == m * v + v
  {
  }

  /** With self-weight-only parameters and zero thresholds, every cell of a
      spin grid keeps its value: its total has its own sign. */
  lemma SelfWeightKeepsCell(n: int, W: seq<seq<int>>, b: seq<int>, g: Grid, x: int, y: int)
    requires Params(n, W, b) && SelfWeightOnly(n, W, b) && Shaped(n, g) && AllSpins(n, g)
    requires forall k :: 0 <= k < n * n ==> b[k] == 0
    requires InGrid(n, (x, y))
    ensures Activation(n, W, b, g, x, y) == g[x][y]
  {
    var nb := Neighborhood(n, x, y);
    SelfWeightSum(n, W, b, g, (x, y), nb);
    assert nb[0] in nb;
    var m, v := multiset(nb)[(x, y)], g[x][y];
    assert Total(n, W, b, g, x, y) == m * v;
    SpinMultipleSign(m, v);
  }

  lemma SpinMultipleSign(m: int, v: int)
    requires m >= 1 && IsSpin(v)
    ensures m * v > 0 <==> v == 1
  {
  }

  /** Hence a synchronous sweep leaves every spin grid as it is ... */
  lemma SelfWeightSynchronousFixedPoint(n: int, W: seq<seq<int>>, b: seq<int>, g: Grid)
    requires Params(n, W, b) && SelfWeightOnly(n, W, b) && Shaped(n, g) && AllSpins(n, g)
    requires forall k :: 0 <= k < n * n ==> b[k] == 0
    ensures Synchronous(n, W, b, g) == g
  {
    var h := Synchronous(n, W, b, g);
    forall i | 0 <= i < n
      ensures h[i] == g[i]
    {
      forall j | 0 <= j < n
        ensures h[i][j] == g[i][j]
      {
        SelfWeightKeepsCell(n, W, b, g, i, j);
      }
    }
  }

  /** ... and so does a sequential sweep in any order. */
  lemma {:induction false} SelfWeightSweepFixedPoint(n: int, W: seq<seq<int>>, b: seq<int>, g: Grid, order: seq<int>)
    requires Params(n, W, b) && SelfWeightOnly(n, W, b) && Shaped(n, g) && AllSpins(n, g)
    requires forall k :: 0 <= k < n * n ==> b[k] == 0
    requires ValidOrder(n, order)
    ensures Sweep(n, W, b, g, order) == g
    decreases |order|
  {
    if order != [] {
      SelfWeightSweepFixedPoint(n, W, b, g, order[..|order| - 1]);
      var c := Decode(n, order[|order| - 1]);
      SelfWeightKeepsCell(n, W, b, g, c.0, c.1);
      assert g[c.0][c.1 := g[c.0][c.1]] == g[c.0];
      assert g[c.0 := g[c.0]] == g;
    }
  }

  /** Weights on a 2-by-2 torus: cell (0,0) follows cell (0,1), and cell
      (0,1) opposes cell (0,0). */
  function CoupledWeights(): (W: seq<seq<int>>)
    ensures Params(2, W, [0, 0, 0, 0])
  {
    [[0, 1, 0, 0], [-1, 0, 0, 0], [0, 0, 0, 0], [0, 0, 0, 0]]
  }

  /** On the coupled torus the total of (0,0) is twice the value of (0,1). */
  lemma CoupledTotal00(W: seq<seq<int>>, b: seq<int>, g: Grid)
    requires W == CoupledWeights() && b == [0, 0, 0, 0] && Shaped(2, g)
    ensures Total(2, W, b, g, 0, 0) == 2 * g[0][1]
  {
    assert Neighborhood(2, 0, 0) == [(0, 0), (1, 0), (1, 0), (0, 1), (0, 1)];
    WeightedSumOfFive(2, W, b, g, 0, Neighborhood(2, 0, 0));
  }

  /** ... and the total of (0,1) is minus twice the value of (0,0). */
  lemma CoupledTotal01(W: seq<seq<int>>, b: seq<int>, g: Grid)
    requires W == CoupledWeights() && b == [0, 0, 0, 0] && Shaped(2, g)
    ensures Total(2, W, b, g, 0, 1) == -2 * g[0][0]
  {
    assert Neighborhood(2, 0, 1) == [(0, 1), (1, 1), (1, 1), (0, 0), (0, 0)];
    WeightedSumOfFive(2, W, b, g, 1, Neighborhood(2, 0, 1));
  }

  /** Appending an index to the order appends one step to the sweep. */
  lemma SweepSnoc(n: int, W: seq<seq<int>>, b: seq<int>, g: Grid, order: seq<int>, i: int)
    requires Params(n, W, b) && Shaped(n, g) && ValidOrder(n, order) && 0 <= i < n * n
    ensures ValidOrder(n, order + [i])
    ensures Sweep(n, W, b, g, order + [i]) == Step(n, W, b, Sweep(n, W, b, g, order), i)
  {
    assert (order + [i])[..|order|] == order;
  }

  /** A four-step sequential sweep, unfolded. */
  lemma SweepOfFour(n: int, W: seq<seq<int>>, b: seq<int>, g: Grid, i0: int, i1: int, i2: int, i3: int)
    requires Params(n, W, b) && Shaped(n, g)
    requires 0 <= i0 < n * n && 0 <= i1 < n * n && 0 <= i2 < n * n && 0 <= i3 < n * n
    ensures ValidOrder(n, [i0, i1, i2, i3])
    ensures Sweep(n, W, b, g, [i0, i1, i2, i3]) ==
      Step(n, W, b, Step(n, W, b, Step(n, W, b, Step(n, W, b, g, i0), i1), i2), i3)
  {
    SweepSnoc(n, W, b, g, [], i0);
    assert [] + [i0] == [i0];
    SweepSnoc(n, W, b, g, [i0], i1);
    assert [i0] + [i1] == [i0, i1];
    SweepSnoc(n, W, b, g, [i0, i1], i2);
    assert [i0, i1] + [i2] == [i0, i1, i2];
    SweepSnoc(n, W, b, g, [i0, i1, i2], i3);
    assert [i0, i1, i2] + [i3] == [i0, i1, i2, i3];
  }

  /** Row-major order on the coupled torus: (0,0) is visited while (0,1) is
      still -1, so it stays -1, and no later step touches it. */
  lemma CoupledRowMajorSweep(W: seq<seq<int>>, b: seq<int>, g: Grid)
    requires W == CoupledWeights() && b == [0, 0, 0, 0] && Shaped(2, g)
    requires g[0][0] == -1 && g[0][1] == -1
    ensures Sweep(2, W, b, g, [0, 1, 2, 3])[0][0] == -1
  {
    SweepOfFour(2, W, b, g, 0, 1, 2, 3);
    DecodeFlat(2, 0, 0);
    DecodeFlat(2, 0, 1);
    DecodeFlat(2, 1, 0);
    DecodeFlat(2, 1, 1);
    CoupledTotal00(W, b, g);
    var g1 := Step(2, W, b, g, 0);
    assert g1[0][0] == -1;
    var g2 := Step(2, W, b, g1, 1);
    var g3 := Step(2, W, b, g2, 2);
    var g4 := Step(2, W, b, g3, 3);
    assert g4[0][0] == g3[0][0] == g2[0][0] == g1[0][0];
  }

  /** Visiting (0,1) first: it turns +1 (the opposite of (0,0)), then (0,0)
      follows it to +1, and no later step touches (0,0). */
  lemma CoupledSwappedSweep(W: seq<seq<int>>, b: seq<int>, g: Grid)
    requires W == CoupledWeights() && b == [0, 0, 0, 0] && Shaped(2, g)
    requires g[0][0] == -1
    ensures Sweep(2, W, b, g, [1, 0, 2, 3])[0][0] == 1
  {
    SweepOfFour(2, W, b, g, 1, 0, 2, 3);
    DecodeFlat(2, 0, 0);
    DecodeFlat(2, 0, 1);
    DecodeFlat(2, 1, 0);
    DecodeFlat(2, 1, 1);
    CoupledTotal01(W, b, g);
    var g1 := Step(2, W, b, g, 1);
    assert g1[0][1] == 1;
    CoupledTotal00(W, b, g1);
    var g2 := Step(2, W, b, g1, 0);
    assert g2[0][0] == 1;
    var g3 := Step(2, W, b, g2, 2);
    var g4 := Step(2, W, b, g3, 3);
    assert g4[0][0] == g3[0][0] == g2[0][0];
  }

  /** Sequential mode is order-dependent: from a grid whose top row is -1,
      two orders that each name all four cells once end with different
      values in cell (0,0). */
  lemma SequentialOrderMatters(W: seq<seq<int>>, b: seq<int>, g: Grid)
    requires W == CoupledWeights() && b == [0, 0, 0, 0] && Shaped(2, g)
    requires g[0][0] == -1 && g[0][1] == -1
    ensures Sweep(2, W, b, g, [0, 1, 2, 3]) != Sweep(2, W, b, g, [1, 0, 2, 3])
  {
    CoupledRowMajorSweep(W, b, g);
    CoupledSwappedSweep(W, b, g);
  }
}
