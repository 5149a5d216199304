/**
  Concrete uses of the matrix: small two- and three-axis cases, and the
  diagonal fill of the demonstration program.
 */
module Scenarios {
  import opened LexOrder
  import opened Storage
  import opened Iteration

  /** A 2-axis integer matrix with default 0 after `[0][0] = 5; [1][1] = 7`. */
  function TwoCells(): Matrix<int>
  {
    Set(Set(Empty(2, 0), [0, 0], 5), [1, 1], 7)
  }

  /** Two cells are stored, an unwritten cell reads 0, and iteration yields
      `(0, 0, 5)` then `(1, 1, 7)`. */
  lemma TwoCellsIterateInOrder()
    ensures Valid(TwoCells()) && Size(TwoCells()) == 2
    ensures Get(TwoCells(), [0, 1]) == 0
    ensures MapOrder(TwoCells()) == [[0, 0], [1, 1]]
    ensures TwoCells().entries[[0, 0]] == 5 && TwoCells().entries[[1, 1]] == 7
  {
  }

  /** Writing `[2][2] = 3` and then `[2][2] = 0` leaves nothing to iterate. */
  lemma WriteThenEraseLeavesNothing()
    ensures Size(Set(Set(Empty(2, 0), [2, 2], 3), [2, 2], 0)) == 0
    ensures MapOrder(Set(Set(Empty(2, 0), [2, 2], 3), [2, 2], 0)) == []
  {
  }

  /** Three axes: `[1][0][0] = 9` is read back, `[0][0][0]` stays default. */
  lemma ThreeAxes(dflt: int)
    requires dflt != 9
    ensures Get(Set(Empty(3, dflt), [1, 0, 0], 9), [1, 0, 0]) == 9
    ensures Get(Set(Empty(3, dflt), [1, 0, 0], 9), [0, 0, 0]) == dflt
    ensures Size(Set(Empty(3, dflt), [1, 0, 0], 9)) == 1
  {
  }

  /** Cell `i` of the main diagonal. */
  function Diagonal(i: nat): Coord
  {
    [i, i]
  }

  /** Cell `i` of the secondary diagonal of an `n` by `n` block. */
  function AntiDiagonal(n: nat, i: nat): Coord
    requires i < n
  {
    [i, n - 1 - i]
  }

  /** Every stored cell of `m` lies on the main diagonal, or on the secondary
      diagonal of an `n` by `n` block when `anti` holds. */
  ghost predicate OnDiagonals(m: Matrix<int>, n: nat, anti: bool)
  {
    forall c :: c in m.entries ==> |c| == 2 && (c[0] == c[1] || (anti && c[0] + c[1] == n - 1))
  }

  /** A 2-axis integer matrix with default 0 satisfying the storage invariant. */
  ghost predicate IntGrid(m: Matrix<int>)
  {
    Valid(m) && m.dims == 2 && m.dflt == 0
  }

  /** State after the first `i` cells of the main diagonal are written. */
  ghost predicate MainDone(m: Matrix<int>, n: nat, i: nat)
  {
    && IntGrid(m)
    && (forall j :: 0 <= j < i ==> Get(m, Diagonal(j)) == j)
    && OnDiagonals(m, n, false)
  }

  /** State after the whole main diagonal and the first `i` cells of the
      secondary diagonal are written. */
  ghost predicate AntiDone(m: Matrix<int>, n: nat, i: nat)
  {
    && i <= n
    && IntGrid(m)
    && (forall j :: 0 <= j < n ==> Get(m, Diagonal(j)) == j)
    && (forall j :: 0 <= j < i ==> Get(m, AntiDiagonal(n, j)) == n - 1 - j)
    && OnDiagonals(m, n, true)
  }

  /** Writing main-diagonal cell `i` extends the main-diagonal state. */
  lemma MainStep(m: Matrix<int>, n: nat, i: nat)
    requires MainDone(m, n, i)
    ensures MainDone(Set(m, Diagonal(i), i), n, i + 1)
  {
  }

  /** Writing secondary-diagonal cell `i` extends the secondary-diagonal
      state; the main diagonal survives because a cell on both diagonals
      receives the same value either way. */
  lemma AntiStep(m: Matrix<int>, n: nat, i: nat)
    requires i < n && AntiDone(m, n, i)
    ensures AntiDone(Set(m, AntiDiagonal(n, i), n - 1 - i), n, i + 1)
  {
  }

  /** The demonstration program's fill: `[i][i] = i` for each `i < n`, then
      `[i][n-1-i] = n-1-i`. Both diagonals read back their index values, and
      every stored cell lies on one of the two diagonals. */
  method FillDiagonals(n: nat) returns (m: Matrix<int>)
    ensures Valid(m) && m.dims == 2 && m.dflt == 0
    ensures forall i :: 0 <= i < n ==> Get(m, Diagonal(i)) == i
    ensures forall i :: 0 <= i < n ==> Get(m, AntiDiagonal(n, i)) == n - 1 - i
    ensures forall c :: c in m.entries ==> c[0] == c[1] || c[0] + c[1] == n - 1
  {
    m := Empty(2, 0);
    var i := 0;
    while i < n
      invariant i <= n && MainDone(m, n, i)
    {
      MainStep(m, n, i);
      m := Set(m, Diagonal(i), i);
      i := i + 1;
    }
    i := 0;
    while i < n
      invariant AntiDone(m, n, i)
    {
      AntiStep(m, n, i);
      m := Set(m, AntiDiagonal(n, i), n - 1 - i);
      i := i + 1;
    }
  }
}
