/** The board: a square grid of `n` by `n` tiles, numbered row by row, so tile `i`
    sits in row `i / n` and column `i % n`. */
module Grid {

  /** The adjacency matrix entry (i, j) is set exactly when this holds: `j` is the
      tile above, below, left of or right of `i`, each guarded by the row or
      column test that keeps it on the board. */
  predicate Adjacent(n: nat, i: int, j: int)
  {
    n >= 1 && 0 <= i < n * n &&
    ((i / n > 0 && j == i - n) ||
     (i / n < n - 1 && j == i + n) ||
     (i % n > 0 && j == i - 1) ||
     (i % n < n - 1 && j == i + 1))
  }

  /** The adjacency list of tile `i` as it is built from the matrix: the
      columns `j < bound` of row `i` that hold a 1, scanned left to right. */
  function NeighboursBelow(n: nat, i: int, bound: nat): seq<int>
  {
    if bound == 0 then []
    else NeighboursBelow(n, i, bound - 1) + (if Adjacent(n, i, bound - 1) then [bound - 1] else [])
  }

  /** The adjacency list of tile `i` on an `n` by `n` board. */
  function Neighbours(n: nat, i: int): seq<int>
  {
    NeighboursBelow(n, i, n * n)
  }

  /** Reference definition: up, left, right, down, each present when it stays on the board. */
  function Orthogonal(n: nat, i: int): seq<int>
    requires n >= 1
  {
    (if i / n > 0 then [i - n] else []) +
    (if i % n > 0 then [i - 1] else []) +
    (if i % n < n - 1 then [i + 1] else []) +
    (if i / n < n - 1 then [i + n] else [])
  }

  predicate StrictlyIncreasing(s: seq<int>)
  {
    forall a, b :: 0 <= a < b < |s| ==> s[a] < s[b]
  }

  function Row(n: nat, i: int): int requires n >= 1 { i / n }
  function Col(n: nat, i: int): int requires n >= 1 { i % n }

  function Abs(x: int): nat { if x < 0 then -x else x }

  /** A tile at one of the four corners of the board. */
  predicate IsCorner(n: nat, i: int)
  {
    n >= 1 && (i == 0 || i == n - 1 || i == n * n - n || i == n * n - 1)
  }

  // ---------------------------------------------------------------------------
  // Row and column arithmetic

  lemma MulAtLeast(a: int, n: nat)
    requires a >= 1
    ensures a * n >= n
  {
    assert a * n == (a - 1) * n + n;
  }

  lemma MulAtMost(a: int, b: int, n: nat)
    requires a <= b
    ensures a * n <= b * n
  {
    assert b * n - a * n == (b - a) * n;
  }

  /** Division and remainder by `n` are the row and column of `r * n + c`. */
  lemma DivModOf(n: nat, x: int, r: int, c: int)
    requires n >= 1 && 0 <= c < n && x == r * n + c
    ensures x / n == r && x % n == c
  {
    var q, m := x / n, x % n;
    assert x == q * n + m;
    assert (r - q) * n == m - c;
    if r - q >= 1 {
      MulAtLeast(r - q, n);
      assert false;
    } else if q - r >= 1 {
      MulAtLeast(q - r, n);
      assert false;
    }
  }

  lemma RowColRange(n: nat, i: int)
    requires n >= 1 && 0 <= i < n * n
    ensures 0 <= i / n < n && 0 <= i % n < n
    ensures i == (i / n) * n + i % n
  {
    if i / n >= n {
      MulAtMost(n, i / n, n);
      assert false;
    }
  }

  /** The tiles one row up, one row down, one column left and one column right. */
  lemma RowColOfShift(n: nat, i: int)
    requires n >= 1 && 0 <= i < n * n
    ensures i / n > 0 ==> 0 <= i - n && (i - n) / n == i / n - 1 && (i - n) % n == i % n
    ensures i / n < n - 1 ==> i + n < n * n && (i + n) / n == i / n + 1 && (i + n) % n == i % n
    ensures i % n > 0 ==> 0 <= i - 1 && (i - 1) / n == i / n && (i - 1) % n == i % n - 1
    ensures i % n < n - 1 ==> i + 1 < n * n && (i + 1) / n == i / n && (i + 1) % n == i % n + 1
  {
    RowColRange(n, i);
    var r, c := i / n, i % n;
    if r > 0 {
      ShiftUp(n, i, r, c);
    }
    if r < n - 1 {
      ShiftDown(n, i, r, c);
    }
    if c > 0 {
      DivModOf(n, i - 1, r, c - 1);
    }
    if c < n - 1 {
      ShiftRight(n, i, r, c);
    }
  }

  lemma ShiftUp(n: nat, i: int, r: int, c: int)
    requires n >= 1 && 0 <= c < n && i == r * n + c && r > 0
    ensures 0 <= i - n && (i - n) / n == r - 1 && (i - n) % n == c
  {
    MulAtLeast(r, n);
    DivModOf(n, i - n, r - 1, c);
  }

  lemma ShiftDown(n: nat, i: int, r: int, c: int)
    requires n >= 1 && 0 <= c < n && i == r * n + c && r < n - 1
    ensures i + n < n * n && (i + n) / n == r + 1 && (i + n) % n == c
  {
    DivModOf(n, i + n, r + 1, c);
    MulAtLeast(n - 1 - r, n);
    assert (n - 1 - r) * n == n * n - n - r * n;
  }

  lemma ShiftRight(n: nat, i: int, r: int, c: int)
    requires n >= 1 && 0 <= c < n - 1 && 0 <= r < n && i == r * n + c
    ensures i + 1 < n * n && (i + 1) / n == r && (i + 1) % n == c + 1
  {
    DivModOf(n, i + 1, r, c + 1);
    MulAtMost(r, n - 1, n);
    assert (n - 1) * n == n * n - n;
  }

  // ---------------------------------------------------------------------------
  // Properties of the adjacency relation

  /** Every neighbour is a tile of the board. */
  lemma AdjacentInRange(n: nat, i: int, j: int)
    requires Adjacent(n, i, j)
    ensures 0 <= j < n * n
  {
    RowColOfShift(n, i);
  }

  /** Adjacency is symmetric. */
  lemma AdjacentSymmetric(n: nat, i: int, j: int)
    requires Adjacent(n, i, j)
    ensures Adjacent(n, j, i)
  {
    RowColRange(n, i);
    RowColOfShift(n, i);
  }

  /** No tile is its own neighbour. */
  lemma NoSelfLoop(n: nat, i: int)
    ensures !Adjacent(n, i, i)
  {
  }

  /** Adjacency is exactly Manhattan distance one between (row, column) pairs. */
  lemma AdjacentIffManhattan(n: nat, i: int, j: int)
    requires n >= 1 && 0 <= i < n * n && 0 <= j < n * n
    ensures Adjacent(n, i, j) <==> Abs(Row(n, i) - Row(n, j)) + Abs(Col(n, i) - Col(n, j)) == 1
  {
    if Adjacent(n, i, j) {
      AdjacentIsManhattan(n, i, j);
    }
    if Abs(Row(n, i) - Row(n, j)) + Abs(Col(n, i) - Col(n, j)) == 1 {
      ManhattanIsAdjacent(n, i, j);
    }
  }

  lemma AdjacentIsManhattan(n: nat, i: int, j: int)
    requires Adjacent(n, i, j)
    ensures Abs(Row(n, i) - Row(n, j)) + Abs(Col(n, i) - Col(n, j)) == 1
  {
    RowColOfShift(n, i);
  }

  lemma ManhattanIsAdjacent(n: nat, i: int, j: int)
    requires n >= 1 && 0 <= i < n * n && 0 <= j < n * n
    requires Abs(Row(n, i) - Row(n, j)) + Abs(Col(n, i) - Col(n, j)) == 1
    ensures Adjacent(n, i, j)
  {
    RowColRange(n, i);
    RowColRange(n, j);
    var ri, ci, rj, cj := i / n, i % n, j / n, j % n;
    if ri == rj + 1 {
      assert ci == cj;
      assert i == rj * n + n + ci;
    } else if rj == ri + 1 {
      assert ci == cj;
      assert j == ri * n + n + cj;
    } else {
      assert ri == rj;
    }
  }

  // ---------------------------------------------------------------------------
  // Properties of the adjacency lists

  lemma {:induction false} NeighboursBelowMembers(n: nat, i: int, bound: nat, j: int)
    ensures j in NeighboursBelow(n, i, bound) <==> 0 <= j < bound && Adjacent(n, i, j)
  {
    if bound > 0 {
      NeighboursBelowMembers(n, i, bound - 1, j);
    }
  }

  lemma {:induction false} NeighboursBelowIncreasing(n: nat, i: int, bound: nat)
    ensures StrictlyIncreasing(NeighboursBelow(n, i, bound))
    ensures forall x :: x in NeighboursBelow(n, i, bound) ==> 0 <= x < bound
  {
    if bound > 0 {
      NeighboursBelowIncreasing(n, i, bound - 1);
      var prefix := NeighboursBelow(n, i, bound - 1);
      assert forall a :: 0 <= a < |prefix| ==> prefix[a] in prefix;
    }
  }

  /** `j` is in the adjacency list of `i` exactly when `j` is an on-board orthogonal neighbour. */
  lemma NeighboursExactly(n: nat, i: int, j: int)
    ensures j in Neighbours(n, i) <==> Adjacent(n, i, j)
  {
    NeighboursBelowMembers(n, i, n * n, j);
    if Adjacent(n, i, j) {
      AdjacentInRange(n, i, j);
    }
  }

  /** Adjacency lists come out in ascending neighbour order, without repeats. */
  lemma NeighboursAscending(n: nat, i: int)
    ensures StrictlyIncreasing(Neighbours(n, i))
  {
    NeighboursBelowIncreasing(n, i, n * n);
  }

  /** Two strictly increasing sequences with the same members are equal. */
  lemma {:induction false} IncreasingUnique(s: seq<int>, t: seq<int>)
    requires StrictlyIncreasing(s) && StrictlyIncreasing(t)
    requires forall x :: x in s <==> x in t
    ensures s == t
  {
    if s != [] {
      assert s[0] in s;
      assert s[0] in t;
    }
    if t != [] {
      assert t[0] in t;
      assert t[0] in s;
    }
    if s != [] {
      assert s[0] == t[0];
      forall x
        ensures x in s[1..] <==> x in t[1..]
      {
        if x in s[1..] {
          assert x in t && x != t[0];
        }
        if x in t[1..] {
          assert x in s && x != s[0];
        }
      }
      IncreasingUnique(s[1..], t[1..]);
      assert s == [s[0]] + s[1..];
      assert t == [t[0]] + t[1..];
    }
  }

  /** The list built from the matrix is up, left, right, down, in that order. */
  lemma NeighboursAreOrthogonal(n: nat, i: int)
    requires n >= 1 && 0 <= i < n * n
    ensures Neighbours(n, i) == Orthogonal(n, i)
  {
    RowColOfShift(n, i);
    var o := Orthogonal(n, i);
    if n >= 2 {
      assert StrictlyIncreasing(o);
    } else {
      assert o == [];
    }
    forall x
      ensures x in Neighbours(n, i) <==> x in o
    {
      NeighboursExactly(n, i, x);
    }
    NeighboursAscending(n, i);
    IncreasingUnique(Neighbours(n, i), o);
  }

  /** Every tile has at most four neighbours. */
  lemma DegreeAtMostFour(n: nat, i: int)
    requires n >= 1 && 0 <= i < n * n
    ensures |Neighbours(n, i)| <= 4
  {
    NeighboursAreOrthogonal(n, i);
  }

  /** A corner tile of a board at least two tiles wide has exactly two neighbours. */
  lemma CornerDegreeTwo(n: nat, i: int)
    requires n >= 2 && IsCorner(n, i)
    ensures |Neighbours(n, i)| == 2
  {
    MulAtLeast(n, n);
    DivModOf(n, 0, 0, 0);
    DivModOf(n, n - 1, 0, n - 1);
    DivModOf(n, n * n - n, n - 1, 0);
    DivModOf(n, n * n - 1, n - 1, n - 1);
    NeighboursAreOrthogonal(n, i);
  }

  /** Every entry of every adjacency list is a tile of the board. */
  lemma NeighboursInRange(n: nat, i: int)
    ensures forall x :: x in Neighbours(n, i) ==> 0 <= x < n * n
  {
    NeighboursBelowIncreasing(n, i, n * n);
  }
}
