/** Geometry of the n-by-n torus on which the automaton lives: the five-point
    von Neumann stencil, and the row-major flattening of a cell coordinate
    into an index of the weight matrix and the threshold vector. */
module Torus {

  /** A (row, column) pair. */
  type Coord = (int, int)

  predicate InGrid(n: int, c: Coord)
  {
    0 <= c.0 < n && 0 <= c.1 < n
  }

  /** Euclidean division facts: a quotient/remainder pair is unique. */
  lemma DivModUnique(m: int, n: int, q: int, r: int)
    requires n >= 1 && 0 <= r < n && m == n * q + r
    ensures m / n == q && m % n == r
  {
    var q', r' := m / n, m % n;
    assert m == n * q' + r' && 0 <= r' < n;
    assert n * (q - q') == r' - r;
    if q - q' >= 1 {
      assert false;
    } else if q - q' <= -1 {
      assert false;
    }
  }

  /** An index below n * n has a quotient below n. */
  lemma QuotientBound(i: int, n: int)
    requires n >= 1 && 0 <= i < n * n
    ensures 0 <= i / n < n
  {
    if i / n >= n {
      assert false;
    }
  }

  /** A value already in [0, n) is its own residue. */
  lemma ModInRange(a: int, n: int)
    requires 0 <= a < n
    ensures a % n == a
  {
    DivModUnique(a, n, 0, a);
  }

  /** Residues of values one apart, for 0 <= a < n. */
  lemma ModStep(a: int, n: int)
    requires 0 <= a < n
    ensures (a + 1) % n == (if a == n - 1 then 0 else a + 1)
    ensures (a - 1) % n == (if a == 0 then n - 1 else a - 1)
  {
    if a == n - 1 { DivModUnique(a + 1, n, 1, 0); } else { ModInRange(a + 1, n); }
    if a == 0 { DivModUnique(a - 1, n, -1, n - 1); } else { ModInRange(a - 1, n); }
  }

  /** Row-major index of cell (x, y): the row of W and the entry of b that
      belong to that cell. */
  function Flat(n: int, x: int, y: int): (k: int)
    requires InGrid(n, (x, y))
    ensures 0 <= k < n * n
  {
    assert n * x <= n * (n - 1);
    n * x + y
  }

  /** Inverse of Flat: row i / n, column i % n. */
  function Decode(n: int, i: int): (c: Coord)
    requires n >= 1 && 0 <= i < n * n
    ensures InGrid(n, c) && Flat(n, c.0, c.1) == i
  {
    QuotientBound(i, n);
    (i / n, i % n)
  }

  /** Flattening is injective: Decode undoes it. */
  lemma DecodeFlat(n: int, x: int, y: int)
    requires InGrid(n, (x, y))
    ensures Decode(n, Flat(n, x, y)) == (x, y)
  {
    DivModUnique(Flat(n, x, y), n, x, y);
  }

  /** The cell itself followed by its lower, upper, right and left neighbours;
      only the four neighbours are reduced modulo n, so an edge cell's
      neighbours wrap around to the opposite edge. */
  function Neighborhood(n: int, x: int, y: int): (nb: seq<Coord>)
    requires n >= 1
    ensures |nb| == 5 && nb[0] == (x, y)
    ensures InGrid(n, (x, y)) ==> forall k :: 0 <= k < |nb| ==> InGrid(n, nb[k])
  {
    [(x, y), ((x + 1) % n, y % n), ((x - 1) % n, y % n), (x % n, (y + 1) % n), (x % n, (y - 1) % n)]
  }

  /** Reference relation, independent of how the stencil is listed: q is p,
      or q is one orthogonal step from p where steps are counted modulo n. */
  predicate Adjacent(n: int, p: Coord, q: Coord)
    requires n >= 1
  {
    p == q
    || (q.1 == p.1 && ((q.0 - p.0 - 1) % n == 0 || (q.0 - p.0 + 1) % n == 0))
    || (q.0 == p.0 && ((q.1 - p.1 - 1) % n == 0 || (q.1 - p.1 + 1) % n == 0))
  }

  /** a - m is a multiple of n exactly when a is the residue of m. */
  lemma CongruentDiff(n: int, a: int, m: int)
    requires n >= 1 && 0 <= a < n
    ensures (a - m) % n == 0 <==> a == m % n
  {
    var q, r := m / n, m % n;
    assert m == n * q + r;
    if a == r {
      DivModUnique(a - m, n, -q, 0);
    } else {
      var t := (a - m) % n;
      if t == 0 {
        var k := (a - m) / n;
        assert a - m == n * k;
        assert a - r == n * (k + q);
        DivModUnique(a - r, n, k + q, 0);
        if a - r >= 0 {
          DivModUnique(a - r, n, 0, a - r);
        } else {
          DivModUnique(a - r, n, -1, a - r + n);
        }
      }
    }
  }

  /** The stencil is exactly the adjacency relation, for cells on the grid. */
  lemma NeighborhoodIsAdjacency(n: int, p: Coord, q: Coord)
    requires n >= 1 && InGrid(n, p) && InGrid(n, q)
    ensures q in Neighborhood(n, p.0, p.1) <==> Adjacent(n, p, q)
  {
    var nb := Neighborhood(n, p.0, p.1);
    ModInRange(p.0, n);
    ModInRange(p.1, n);
    CongruentDiff(n, q.0, p.0 + 1);
    CongruentDiff(n, q.0, p.0 - 1);
    CongruentDiff(n, q.1, p.1 + 1);
    CongruentDiff(n, q.1, p.1 - 1);
    assert q.0 - p.0 - 1 == q.0 - (p.0 + 1);
    assert q.0 - p.0 + 1 == q.0 - (p.0 - 1);
    assert q.1 - p.1 - 1 == q.1 - (p.1 + 1);
    assert q.1 - p.1 + 1 == q.1 - (p.1 - 1);
    if q in nb {
      var k :| 0 <= k < 5 && nb[k] == q;
    }
    if Adjacent(n, p, q) {
      if p == q {
        assert nb[0] == q;
      } else if q.1 == p.1 && (q.0 - p.0 - 1) % n == 0 {
        assert nb[1] == q;
      } else if q.1 == p.1 {
        assert nb[2] == q;
      } else if (q.1 - p.1 - 1) % n == 0 {
        assert nb[3] == q;
      } else {
        assert nb[4] == q;
      }
    }
  }

  /** On the grid, q is in p's stencil exactly when p is in q's. */
  lemma NeighborhoodSymmetric(n: int, p: Coord, q: Coord)
    requires n >= 1 && InGrid(n, p) && InGrid(n, q)
    ensures q in Neighborhood(n, p.0, p.1) <==> p in Neighborhood(n, q.0, q.1)
  {
    NeighborhoodIsAdjacency(n, p, q);
    NeighborhoodIsAdjacency(n, q, p);
    assert (q.0 - p.0 - 1) == -(p.0 - q.0 + 1);
    assert (q.0 - p.0 + 1) == -(p.0 - q.0 - 1);
    assert (q.1 - p.1 - 1) == -(p.1 - q.1 + 1);
    assert (q.1 - p.1 + 1) == -(p.1 - q.1 - 1);
    NegMultiple(n, q.0 - p.0 - 1);
    NegMultiple(n, q.0 - p.0 + 1);
    NegMultiple(n, q.1 - p.1 - 1);
    NegMultiple(n, q.1 - p.1 + 1);
  }

  /** m is a multiple of n exactly when -m is. */
  lemma NegMultiple(n: int, m: int)
    requires n >= 1
    ensures m % n == 0 <==> (-m) % n == 0
  {
    if m % n == 0 {
      DivModUnique(-m, n, -(m / n), 0);
    }
    if (-m) % n == 0 {
      DivModUnique(m, n, -((-m) / n), 0);
    }
  }

  /** Wrap-around at the corner: (0, 0) sees (n-1, 0) and (0, n-1). */
  lemma CornerWraps(n: int)
    requires n >= 1
    ensures (n - 1, 0) in Neighborhood(n, 0, 0)
    ensures (0, n - 1) in Neighborhood(n, 0, 0)
  {
    ModStep(0, n);
    ModInRange(0, n);
    assert Neighborhood(n, 0, 0)[2] == (n - 1, 0);
    assert Neighborhood(n, 0, 0)[4] == (0, n - 1);
  }

  /** Wrap-around at the last row and column: (n-1, y) sees (0, y), and
      (x, n-1) sees (x, 0). */
  lemma EdgeWraps(n: int, x: int, y: int)
    requires InGrid(n, (x, y))
    ensures (0, y) in Neighborhood(n, n - 1, y)
    ensures (x, 0) in Neighborhood(n, x, n - 1)
  {
    ModStep(n - 1, n);
    ModInRange(y, n);
    ModInRange(x, n);
    assert Neighborhood(n, n - 1, y)[1] == (0, y);
    assert Neighborhood(n, x, n - 1)[3] == (x, 0);
  }

  /** On a torus of side 1 or 2 the stencil repeats coordinates, so their
      weights are summed more than once: for n == 1 the cell itself occurs
      five times; for n == 2 the one vertical and the one horizontal
      neighbour occur twice each. */
  lemma SmallTorusRepeats(n: int, x: int, y: int)
    requires InGrid(n, (x, y))
    ensures n == 1 ==> multiset(Neighborhood(n, x, y))[(x, y)] == 5
    ensures n == 2 ==> multiset(Neighborhood(n, x, y))[(x, y)] == 1
    ensures n == 2 ==> multiset(Neighborhood(n, x, y))[(1 - x, y)] == 2
    ensures n == 2 ==> multiset(Neighborhood(n, x, y))[(x, 1 - y)] == 2
  {
    var nb := Neighborhood(n, x, y);
    ModStep(x, n);
    ModStep(y, n);
    ModInRange(x, n);
    ModInRange(y, n);
    if n == 1 {
      assert nb == [(x, y), (x, y), (x, y), (x, y), (x, y)];
    } else if n == 2 {
      assert nb == [(x, y), (1 - x, y), (1 - x, y), (x, 1 - y), (x, 1 - y)];
    }
  }

  /** From side 3 on, the five stencil coordinates are pairwise distinct. */
  lemma StencilDistinct(n: int, x: int, y: int)
    requires InGrid(n, (x, y)) && n >= 3
    ensures forall i, j :: 0 <= i < j < 5 ==> Neighborhood(n, x, y)[i] != Neighborhood(n, x, y)[j]
  {
    ModStep(x, n);
    ModStep(y, n);
    ModInRange(x, n);
    ModInRange(y, n);
  }
}
