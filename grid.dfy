/** The 9x9 grid and the index arithmetic that selects its rows, columns,
    3x3 squares and the whole grid in row-major order.

    A variable of the puzzle is identified by its cell: every group built
    from the grid refers to the very variable objects stored in the grid, so
    a group is modelled by the sequence of cells it selects. */
module Grid {

  datatype Cell = Cell(row: int, col: int)

  predicate InGrid(c: Cell) {
    0 <= c.row < 9 && 0 <= c.col < 9
  }

  /** Position of a cell in row-major order; the clue of cell (i, j) is read
      from this position of the input bytes. */
  function Index(c: Cell): int {
    c.row * 9 + c.col
  }

  /** Number of the 3x3 square a cell lies in, counted row-major. */
  function SquareOf(c: Cell): int {
    3 * (c.row / 3) + c.col / 3
  }

  /** No element of s occurs twice. */
  predicate Distinct<T(==)>(s: seq<T>) {
    forall i, j :: 0 <= i < j < |s| ==> s[i] != s[j]
  }

  /** The cells of one row, in column order. */
  function GetRow(row: int): (r: seq<Cell>)
    requires 0 <= row < 9
    ensures |r| == 9
  {
    seq(9, i => Cell(row, i))
  }

  /** The cells of one column, in row order. */
  function GetColumn(column: int): (r: seq<Cell>)
    requires 0 <= column < 9
    ensures |r| == 9
  {
    seq(9, i => Cell(i, column))
  }

  /** The three cells that the inner loop of GetSquare yields for its
      row offset i: columns column * 3 + 0, 1, 2. */
  function SquareLine(row: int, column: int, i: int): (r: seq<Cell>)
    ensures |r| == 3
  {
    seq(3, j => Cell(row * 3 + i, column * 3 + j))
  }

  /** What the outer loop of GetSquare yields from its row offset i on. */
  function SquareFrom(row: int, column: int, i: int): (r: seq<Cell>)
    requires 0 <= i <= 3
    ensures |r| == 3 * (3 - i)
    decreases 3 - i
  {
    if i == 3 then [] else SquareLine(row, column, i) + SquareFrom(row, column, i + 1)
  }

  /** The cells of one 3x3 square: square / 3 picks the band of rows,
      square % 3 the band of columns; cells come row by row. */
  function GetSquare(square: int): (r: seq<Cell>)
    requires 0 <= square < 9
    ensures |r| == 9
  {
    var row := square / 3;
    var column := square % 3;
    SquareFrom(row, column, 0)
  }

  /** What the outer loop of GetAll yields from row i on. */
  function RowsFrom(i: int): (r: seq<Cell>)
    requires 0 <= i <= 9
    ensures |r| == 9 * (9 - i)
    decreases 9 - i
  {
    if i == 9 then [] else GetRow(i) + RowsFrom(i + 1)
  }

  /** All 81 cells, row by row. */
  function GetAll(): (r: seq<Cell>)
    ensures |r| == 81
  {
    RowsFrom(0)
  }

  // ---------------------------------------------------------------------
  // Rows and columns

  /** GetRow(row) is exactly the cells (row, 0) .. (row, 8), in column order. */
  lemma RowMembers(row: int)
    requires 0 <= row < 9
    ensures forall k :: 0 <= k < 9 ==> GetRow(row)[k] == Cell(row, k)
    ensures forall c :: c in GetRow(row) <==> InGrid(c) && c.row == row
    ensures Distinct(GetRow(row))
  {
    forall c | InGrid(c) && c.row == row
      ensures c in GetRow(row)
    {
      assert GetRow(row)[c.col] == c;
    }
  }

  /** GetColumn(column) is exactly the cells (0, column) .. (8, column), in row order. */
  lemma ColumnMembers(column: int)
    requires 0 <= column < 9
    ensures forall k :: 0 <= k < 9 ==> GetColumn(column)[k] == Cell(k, column)
    ensures forall c :: c in GetColumn(column) <==> InGrid(c) && c.col == column
    ensures Distinct(GetColumn(column))
  {
    forall c | InGrid(c) && c.col == column
      ensures c in GetColumn(column)
    {
      assert GetColumn(column)[c.row] == c;
    }
  }

  // ---------------------------------------------------------------------
  // Squares

  lemma {:induction false} SquareFromAt(row: int, column: int, i: int, k: int)
    requires 0 <= i <= 3 && 0 <= k < 3 * (3 - i)
    ensures SquareFrom(row, column, i)[k] == Cell(row * 3 + i + k / 3, column * 3 + k % 3)
    decreases 3 - i
  {
    if k >= 3 {
      SquareFromAt(row, column, i + 1, k - 3);
      assert (k - 3) / 3 == k / 3 - 1 && (k - 3) % 3 == k % 3;
    }
  }

  /** The k-th cell of GetSquare(square): the square's band of rows starts at
      3 * (square / 3), its band of columns at 3 * (square % 3). */
  lemma SquareAt(square: int, k: int)
    requires 0 <= square < 9 && 0 <= k < 9
    ensures GetSquare(square)[k] == Cell(3 * (square / 3) + k / 3, 3 * (square % 3) + k % 3)
  {
    SquareFromAt(square / 3, square % 3, 0, k);
  }

  /** GetSquare(square) yields 9 pairwise-distinct cells of the grid; a cell is
      among them exactly when its row lies in [3 * (square / 3), 3 * (square / 3) + 2]
      and its column in [3 * (square % 3), 3 * (square % 3) + 2], that is, exactly
      when SquareOf says it lies in that square. */
  lemma SquareMembers(square: int)
    requires 0 <= square < 9
    ensures forall k :: 0 <= k < 9 ==>
      GetSquare(square)[k] == Cell(3 * (square / 3) + k / 3, 3 * (square % 3) + k % 3)
    ensures forall c :: c in GetSquare(square) <==>
      3 * (square / 3) <= c.row <= 3 * (square / 3) + 2 &&
      3 * (square % 3) <= c.col <= 3 * (square % 3) + 2
    ensures forall c :: c in GetSquare(square) <==> InGrid(c) && SquareOf(c) == square
    ensures Distinct(GetSquare(square))
  {
    var s := GetSquare(square);
    var r0, c0 := 3 * (square / 3), 3 * (square % 3);
    forall k | 0 <= k < 9
      ensures s[k] == Cell(r0 + k / 3, c0 + k % 3)
    {
      SquareAt(square, k);
    }
    forall c: Cell
      ensures c in s <==> r0 <= c.row <= r0 + 2 && c0 <= c.col <= c0 + 2
    {
      if r0 <= c.row <= r0 + 2 && c0 <= c.col <= c0 + 2 {
        var k := (c.row - r0) * 3 + (c.col - c0);
        assert k / 3 == c.row - r0 && k % 3 == c.col - c0;
        assert s[k] == c;
      }
    }
    forall c: Cell
      ensures (r0 <= c.row <= r0 + 2 && c0 <= c.col <= c0 + 2) <==> InGrid(c) && SquareOf(c) == square
    {
      SquareRange(c, square);
    }
    forall i, j | 0 <= i < j < 9
      ensures s[i] != s[j]
    {
      assert i / 3 != j / 3 || i % 3 != j % 3;
    }
  }

  /** The arithmetic behind SquareMembers: a cell lies in the row and column
      bands of square exactly when it is in the grid and SquareOf maps it there. */
  lemma SquareRange(c: Cell, square: int)
    requires 0 <= square < 9
    ensures (3 * (square / 3) <= c.row <= 3 * (square / 3) + 2 &&
             3 * (square % 3) <= c.col <= 3 * (square % 3) + 2)
        <==> InGrid(c) && SquareOf(c) == square
  {
    var b, d := square / 3, square % 3;
    assert square == 3 * b + d && 0 <= b < 3 && 0 <= d < 3;
    if 3 * b <= c.row <= 3 * b + 2 && 3 * d <= c.col <= 3 * d + 2 {
      assert c.row / 3 == b && c.col / 3 == d;
    }
    if InGrid(c) && SquareOf(c) == square {
      var rb, cb := c.row / 3, c.col / 3;
      assert 0 <= rb < 3 && 0 <= cb < 3;
      assert 3 * rb + cb == 3 * b + d;
      assert rb == b && cb == d;
    }
  }

  // ---------------------------------------------------------------------
  // Partition

  /** Each cell of the grid lies in exactly one row, one column and one
      square: row c.row, column c.col and square SquareOf(c). */
  lemma Partition(c: Cell)
    requires InGrid(c)
    ensures 0 <= SquareOf(c) < 9
    ensures forall r :: 0 <= r < 9 ==> (c in GetRow(r) <==> r == c.row)
    ensures forall k :: 0 <= k < 9 ==> (c in GetColumn(k) <==> k == c.col)
    ensures forall s :: 0 <= s < 9 ==> (c in GetSquare(s) <==> s == SquareOf(c))
  {
    forall r | 0 <= r < 9
      ensures c in GetRow(r) <==> r == c.row
    {
      RowMembers(r);
    }
    forall k | 0 <= k < 9
      ensures c in GetColumn(k) <==> k == c.col
    {
      ColumnMembers(k);
    }
    forall s | 0 <= s < 9
      ensures c in GetSquare(s) <==> s == SquareOf(c)
    {
      SquareMembers(s);
    }
  }

  // ---------------------------------------------------------------------
  // The whole grid

  lemma {:induction false} RowsFromAt(i: int, k: int)
    requires 0 <= i <= 9 && 0 <= k < 9 * (9 - i)
    ensures RowsFrom(i)[k] == Cell(i + k / 9, k % 9)
    decreases 9 - i
  {
    if k >= 9 {
      RowsFromAt(i + 1, k - 9);
      assert (k - 9) / 9 == k / 9 - 1 && (k - 9) % 9 == k % 9;
    }
  }

  /** GetAll yields the 81 cells in row-major order: its k-th cell is
      (k / 9, k % 9), so cell (i, j) stands at position i * 9 + j, the
      position its clue is read from. Every cell of the grid occurs once. */
  lemma AllRowMajor()
    ensures forall k :: 0 <= k < 81 ==> GetAll()[k] == Cell(k / 9, k % 9)
    ensures forall k :: 0 <= k < 81 ==> InGrid(GetAll()[k]) && Index(GetAll()[k]) == k
    ensures forall c :: InGrid(c) ==> 0 <= Index(c) < 81 && GetAll()[Index(c)] == c
    ensures forall c :: c in GetAll() <==> InGrid(c)
    ensures Distinct(GetAll())
  {
    var all := GetAll();
    forall k | 0 <= k < 81
      ensures all[k] == Cell(k / 9, k % 9) && InGrid(all[k]) && Index(all[k]) == k
    {
      RowsFromAt(0, k);
    }
    forall c | InGrid(c)
      ensures 0 <= Index(c) < 81 && all[Index(c)] == c
    {
      var k := Index(c);
      assert k / 9 == c.row && k % 9 == c.col;
    }
    forall i, j | 0 <= i < j < 81
      ensures all[i] != all[j]
    {
      assert Index(all[i]) != Index(all[j]);
    }
  }
}
