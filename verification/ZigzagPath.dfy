/** The zigzag order as T.81 draws it (figure A.6): a path that starts at the DC coefficient and goes diagonal by
    diagonal, up those with an even number and down the odd ones.  This alone determines the table. */
module ZigzagPath {
  import opened Zigzag

  /** A place in a block. */
  datatype Cell = Cell(row: nat, column: nat) {
    predicate Inside() { row < 8 && column < 8 }

    function Diagonal(): nat { row + column }

    /** The next place on the path: along the diagonal, or at the edge of the block to the next diagonal. */
    function Next(): Cell
      requires Inside()
    {
      if Diagonal() % 2 == 0 then
        if column == 7 then Cell(row + 1, column) else Cell(if row == 0 then 0 else row - 1, column + 1)
      else
        if row == 7 then Cell(row, column + 1) else Cell(row + 1, if column == 0 then 0 else column - 1)
    }
  }

  /** Where the `k`-th coefficient is in the block. */
  function CellOf(k: nat): (c: Cell)
    requires k < 64
    ensures c.Inside() && Natural(k) == 8 * c.row + c.column
  {
    Cell(Natural(k) / 8, Natural(k) % 8)
  }

  lemma UpInUpper(i: nat, j: nat)
    requires 0 < i < 4 && j < 7 && (i + j) % 2 == 0
    ensures ZIGZAG_ORDER[i - 1][j + 1] == ZIGZAG_ORDER[i][j] + 1
  {
  }

  lemma UpInLower(i: nat, j: nat)
    requires 4 <= i < 8 && j < 7 && (i + j) % 2 == 0
    ensures ZIGZAG_ORDER[i - 1][j + 1] == ZIGZAG_ORDER[i][j] + 1
  {
  }

  lemma DownInUpper(i: nat, j: nat)
    requires i < 4 && 0 < j < 8 && (i + j) % 2 == 1
    ensures ZIGZAG_ORDER[i + 1][j - 1] == ZIGZAG_ORDER[i][j] + 1
  {
  }

  lemma DownInLower(i: nat, j: nat)
    requires 4 <= i < 7 && 0 < j < 8 && (i + j) % 2 == 1
    ensures ZIGZAG_ORDER[i + 1][j - 1] == ZIGZAG_ORDER[i][j] + 1
  {
  }

  lemma AlongTop(j: nat)
    requires j < 7 && j % 2 == 0
    ensures ZIGZAG_ORDER[0][j + 1] == ZIGZAG_ORDER[0][j] + 1
  {
  }

  lemma AlongBottom(j: nat)
    requires j < 7 && j % 2 == 0
    ensures ZIGZAG_ORDER[7][j + 1] == ZIGZAG_ORDER[7][j] + 1
  {
  }

  lemma AlongLeft(i: nat)
    requires i < 7 && i % 2 == 1
    ensures ZIGZAG_ORDER[i + 1][0] == ZIGZAG_ORDER[i][0] + 1
  {
  }

  lemma AlongRight(i: nat)
    requires i < 7 && i % 2 == 1
    ensures ZIGZAG_ORDER[i + 1][7] == ZIGZAG_ORDER[i][7] + 1
  {
  }

  /** The other table tells how far along the path a place is. */
  function Rank(i: nat, j: nat): nat
    requires i < 8 && j < 8
  {
    ZIGZAG_ORDER[i][j]
  }

  lemma RankStep(c: Cell)
    requires c.Inside() && c != Cell(7, 7)
    ensures c.Next().Inside() && Rank(c.Next().row, c.Next().column) == Rank(c.row, c.column) + 1
  {
    var i, j := c.row, c.column;
    if c.Diagonal() % 2 == 0 {
      if j == 7 {
        AlongRight(i);
      } else if i == 0 {
        AlongTop(j);
      } else if i < 4 {
        UpInUpper(i, j);
      } else {
        UpInLower(i, j);
      }
    } else {
      if i == 7 {
        AlongBottom(j);
      } else if j == 0 {
        AlongLeft(i);
      } else if i < 4 {
        DownInUpper(i, j);
      } else {
        DownInLower(i, j);
      }
    }
  }

  lemma RankInUpper(i: nat, j: nat)
    requires i < 4 && j < 8
    ensures Rank(i, j) < 64 && Natural(Rank(i, j)) == 8 * i + j
  {
  }

  lemma RankInLower(i: nat, j: nat)
    requires 4 <= i < 8 && j < 8
    ensures Rank(i, j) < 64 && Natural(Rank(i, j)) == 8 * i + j
  {
  }

  lemma RankOfNatural(k: nat)
    requires k < 64
    ensures Rank(CellOf(k).row, CellOf(k).column) == k
  {
    hide Natural;
    NaturalInverse(k);
  }

  lemma LastRank()
    ensures Rank(7, 7) == 63 && Rank(0, 0) == 0
  {
  }

  lemma OneCell(c: Cell, k: nat)
    requires c.Inside() && Rank(c.row, c.column) == k
    ensures k < 64 && CellOf(k) == c
  {
    hide Natural, Rank;
    if c.row < 4 {
      RankInUpper(c.row, c.column);
    } else {
      RankInLower(c.row, c.column);
    }
  }

  /** The table follows the path from the first place to the last. */
  lemma PathLaw(k: nat)
    requires k < 63
    ensures CellOf(0) == Cell(0, 0) && CellOf(k).Next() == CellOf(k + 1) && CellOf(63) == Cell(7, 7)
  {
    hide Natural, Rank, CellOf, Cell.Next;
    LastRank();
    OneCell(Cell(0, 0), 0);
    OneCell(Cell(7, 7), 63);
    RankOfNatural(k);
    RankStep(CellOf(k));
    OneCell(CellOf(k).Next(), k + 1);
  }

  /** Whatever follows the path is the table. */
  lemma {:induction false} OnlyPath(order: seq<Cell>, k: nat)
    requires |order| == 64 && order[0] == Cell(0, 0) && k < 64
    requires forall i | 0 <= i < 63 :: order[i].Inside() && order[i + 1] == order[i].Next()
    ensures order[k] == CellOf(k)
  {
    hide Natural, CellOf, Cell.Next;
    if k == 0 {
      PathLaw(0);
    } else {
      OnlyPath(order, k - 1);
      PathLaw(k - 1);
      assert order[k - 1 + 1] == order[k - 1].Next();
    }
  }
}
