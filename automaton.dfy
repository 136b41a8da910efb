/** The automaton object: the grid is an n-by-n array that the sweeps update,
    either by building a fresh array from the unchanged one ("parallel") or
    by overwriting one cell at a time in a caller-given order ("sequential"). */
module Automaton {
  import opened Torus
  import opened Rule

  datatype Option<T> = None | Some(value: T)

  /** The n-by-n grid holding v everywhere. */
  function Filled(n: nat, v: int): (g: Grid)
    ensures Shaped(n, g)
    ensures forall i, j :: 0 <= i < n && 0 <= j < n ==> g[i][j] == v
  {
    seq(n, _ => seq(n, _ => v))
  }

  class ThresholdAutomaton {
    const n: nat
    const W: seq<seq<int>>
    const b: seq<int>
    var grid: array2<int>

    /** The grid's contents, row by row. */
    ghost var Cells: Grid

    ghost predicate Valid()
      reads this, grid
    {
      Params(n, W, b) && Shaped(n, Cells) && grid.Length0 == n && grid.Length1 == n &&
      forall i, j :: 0 <= i < n && 0 <= j < n ==> grid[i, j] == Cells[i][j]
    }

    /** Fixes n, W and b, and copies the initial grid into a fresh array;
        without one the grid is all -1. */
    constructor (n: nat, W: seq<seq<int>>, b: seq<int>, initial: Option<Grid>)
      requires Params(n, W, b)
      requires initial.Some? ==> Shaped(n, initial.value)
      ensures Valid() && fresh(grid)
      ensures this.n == n && this.W == W && this.b == b
      ensures Cells == if initial.Some? then initial.value else Filled(n, -1)
    {
      var cells := if initial.Some? then initial.value else Filled(n, -1);
      var a := new int[n, n];
      for i := 0 to n
        invariant forall p, q :: 0 <= p < i && 0 <= q < n ==> a[p, q] == cells[p][q]
      {
        for j := 0 to n
          invariant forall p, q :: 0 <= p < i && 0 <= q < n ==> a[p, q] == cells[p][q]
          invariant forall q :: 0 <= q < j ==> a[i, q] == cells[i][q]
        {
          a[i, j] := cells[i][j];
        }
      }
      this.n, this.W, this.b := n, W, b;
      grid := a;
      Cells := cells;
    }

    /** Next state of cell (x, y) on the current grid; reads the grid and
        changes nothing. */
    method NextState(x: int, y: int) returns (s: int)
      requires Valid() && InGrid(n, (x, y))
      ensures s == Activation(n, W, b, Cells, x, y)
    {
      var nb := Neighborhood(n, x, y);
      var self := Flat(n, x, y);
      var total := 0;
      for k := 0 to |nb|
        invariant total == WeightedSum(n, W, b, Cells, self, nb[..k])
      {
        var c := nb[k];
        assert nb[..k + 1][..k] == nb[..k];
        total := total + W[self][Flat(n, c.0, c.1)] * grid[c.0, c.1];
      }
      assert nb[..|nb|] == nb;
      total := total - b[self];
      if total <= 0 {
        s := -1;
      } else {
        s := 1;
      }
    }

    /** Splits linear index i into (row, column) by repeated subtraction of n. */
    method DecodeIndex(i: int) returns (row: int, col: int)
      requires n >= 1 && 0 <= i < n * n
      ensures i == n * row + col && 0 <= row < n && 0 <= col < n
      ensures (row, col) == Decode(n, i)
    {
      row, col := 0, i;
      while col >= n
        invariant 0 <= row && 0 <= col && n * row + col == i
        decreases col
      {
        row := row + 1;
        col := col - n;
      }
      DivModUnique(i, n, row, col);
    }

    /** Parallel mode: every cell from the grid as it stood before the sweep,
        collected in a fresh array that then replaces the grid. */
    method ParallelSweep()
      requires Valid()
      modifies this
      ensures Valid() && fresh(grid)
      ensures Cells == Synchronous(n, W, b, old(Cells))
    {
      var next := new int[n, n];
      for i := 0 to n
        invariant Valid() && grid == old(grid) && Cells == old(Cells)
        invariant forall p, q :: 0 <= p < i && 0 <= q < n ==> next[p, q] == Activation(n, W, b, Cells, p, q)
      {
        for j := 0 to n
          invariant Valid() && grid == old(grid) && Cells == old(Cells)
          invariant forall p, q :: 0 <= p < i && 0 <= q < n ==> next[p, q] == Activation(n, W, b, Cells, p, q)
          invariant forall q :: 0 <= q < j ==> next[i, q] == Activation(n, W, b, Cells, i, q)
        {
          var s := NextState(i, j);
          next[i, j] := s;
        }
      }
      grid := next;
      Cells := Synchronous(n, W, b, Cells);
    }

    /** Sequential mode: cells updated in place in the given order, each
        update seeing the ones before it. */
    method SequentialSweep(order: seq<int>)
      requires Valid() && ValidOrder(n, order)
      modifies this, grid
      ensures Valid() && grid == old(grid)
      ensures Cells == Sweep(n, W, b, old(Cells), order)
    {
      for k := 0 to |order|
        invariant Valid() && grid == old(grid)
        invariant Cells == Sweep(n, W, b, old(Cells), order[..k])
      {
        assert order[..k + 1][..k] == order[..k];
        var row, col := DecodeIndex(order[k]);
        var s := NextState(row, col);
        grid[row, col] := s;
        Cells := Cells[row := Cells[row][col := s]];
      }
      assert order[..|order|] == order;
    }

    /** One sweep. Mode "parallel" is synchronous; any other mode walks
        order, and does nothing (swept is false) when order is missing or
        does not have exactly n² entries. */
    method Iterate(mode: string := "sequential", order: Option<seq<int>> := None) returns (swept: bool)
      requires Valid()
      requires mode != "parallel" && order.Some? && |order.value| == n * n ==> ValidOrder(n, order.value)
      modifies this, grid
      ensures Valid()
      ensures swept <==> mode == "parallel" || (order.Some? && |order.value| == n * n)
      ensures mode == "parallel" ==> fresh(grid) && unchanged(old(grid)) && Cells == Synchronous(n, W, b, old(Cells))
      ensures mode == "parallel" ==> AllSpins(n, Cells)
      ensures mode != "parallel" && swept ==> grid == old(grid) && Cells == Sweep(n, W, b, old(Cells), order.value)
      ensures !swept ==> grid == old(grid) && unchanged(grid) && Cells == old(Cells)
      ensures old(AllSpins(n, Cells)) ==> AllSpins(n, Cells)
    {
      if mode == "parallel" {
        ParallelSweep();
        swept := true;
      } else if order.None? || |order.value| != n * n {
        swept := false;
      } else {
        SequentialSweep(order.value);
        if old(AllSpins(n, Cells)) {
          SweepKeepsSpins(n, W, b, old(Cells), order.value);
        }
        swept := true;
      }
    }
  }
}
