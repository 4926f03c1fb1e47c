/** The column layout both listings use: `items_per_col = ceil(n / columns)`
    rows, and the cell in row `row` and column `col` shows item
    `row + col * items_per_col` when that index is below `n`. Printing the
    rows in order visits every item exactly once, and reading down each
    column gives the items in their numbered order. */
module Layout {

  import opened Seqs

  /** Both listings print four columns. */
  const Columns: nat := 4

  /** `ceil(n / columns)` on exact integers. */
  function ItemsPerColumn(n: nat, columns: nat): (ipc: nat)
    requires columns > 0
    ensures ipc * columns >= n
    ensures ipc > 0 ==> (ipc - 1) * columns < n
  {
    (n + columns - 1) / columns
  }

  /** The indices printed in row `row`, from column 0 up to column `cols - 1`. */
  function RowCells(n: nat, ipc: nat, row: nat, cols: nat): seq<nat>
  {
    if cols == 0 then []
    else
      var index := row + (cols - 1) * ipc;
      RowCells(n, ipc, row, cols - 1) + (if index < n then [index] else [])
  }

  /** The indices printed by the first `rows` rows, row after row. */
  function Grid(n: nat, ipc: nat, cols: nat, rows: nat): seq<nat>
  {
    if rows == 0 then [] else Grid(n, ipc, cols, rows - 1) + RowCells(n, ipc, rows - 1, cols)
  }

  /** The order in which a listing of `n` items prints their indices. */
  function PrintOrder(n: nat): seq<nat>
  {
    var ipc := ItemsPerColumn(n, Columns);
    Grid(n, ipc, Columns, ipc)
  }

  /* ----------------------------------------------------------- arithmetic */

  /** A product of a positive factor with a factor of one or more is at
      least the positive factor. */
  lemma ProductAtLeast(k: int, d: int)
    requires k >= 1 && d > 0
    ensures k * d >= d
  {
  }

  /** Quotient and remainder are the only such pair. */
  lemma DivModUnique(x: int, d: int, q: int, r: int)
    requires d > 0 && 0 <= r < d && x == q * d + r
    ensures x / d == q && x % d == r
  {
    var q0, r0 := x / d, x % d;
    assert (q0 - q) * d == r - r0;
    if q0 - q >= 1 {
      ProductAtLeast(q0 - q, d);
    }
    if q - q0 >= 1 {
      ProductAtLeast(q - q0, d);
    }
  }

  /** Row and column of a cell are the remainder and quotient of its index. */
  lemma CellPosition(ipc: nat, row: nat, col: nat)
    requires row < ipc
    ensures (row + col * ipc) % ipc == row
    ensures (row + col * ipc) / ipc == col
  {
    DivModUnique(row + col * ipc, ipc, col, row);
  }

  /** An index below `ipc * cols` lies in one of the first `cols` columns. */
  lemma ColumnBound(x: nat, ipc: nat, cols: nat)
    requires ipc > 0 && x < ipc * cols
    ensures x / ipc < cols
  {
    var q := x / ipc;
    assert x == q * ipc + x % ipc;
    assert q * ipc < cols * ipc;
  }

  /* ---------------------------------------------------------------- rows */

  lemma {:induction false} RowMembership(n: nat, ipc: nat, row: nat, cols: nat, x: nat)
    requires row < ipc
    ensures x in RowCells(n, ipc, row, cols) <==> x < n && x % ipc == row && x / ipc < cols
    decreases cols
  {
    if cols > 0 {
      RowMembership(n, ipc, row, cols - 1, x);
      CellPosition(ipc, row, cols - 1);
      if x % ipc == row && x / ipc == cols - 1 {
        assert x == row + (cols - 1) * ipc;
      }
    }
  }

  lemma {:induction false} RowNoDup(n: nat, ipc: nat, row: nat, cols: nat)
    requires row < ipc
    ensures NoDup(RowCells(n, ipc, row, cols))
    decreases cols
  {
    if cols > 0 {
      RowNoDup(n, ipc, row, cols - 1);
      var before := RowCells(n, ipc, row, cols - 1);
      var index := row + (cols - 1) * ipc;
      CellPosition(ipc, row, cols - 1);
      forall i | 0 <= i < |before| ensures before[i] != index {
        RowMembership(n, ipc, row, cols - 1, before[i]);
      }
      NoDupConcat(before, if index < n then [index] else []);
    }
  }

  /* ---------------------------------------------------------------- grid */

  lemma {:induction false} GridMembership(n: nat, ipc: nat, cols: nat, rows: nat, x: nat)
    requires 0 < ipc && rows <= ipc
    ensures x in Grid(n, ipc, cols, rows) <==> x < n && x % ipc < rows && x / ipc < cols
    decreases rows
  {
    if rows > 0 {
      var before, row := Grid(n, ipc, cols, rows - 1), RowCells(n, ipc, rows - 1, cols);
      assert x in before <==> x < n && x % ipc < rows - 1 && x / ipc < cols by {
        GridMembership(n, ipc, cols, rows - 1, x);
      }
      assert x in row <==> x < n && x % ipc == rows - 1 && x / ipc < cols by {
        RowMembership(n, ipc, rows - 1, cols, x);
      }
      assert x in before + row <==> x in before || x in row;
    }
  }

  lemma {:induction false} GridNoDup(n: nat, ipc: nat, cols: nat, rows: nat)
    requires rows <= ipc
    ensures NoDup(Grid(n, ipc, cols, rows))
    decreases rows
  {
    if rows > 0 {
      GridNoDup(n, ipc, cols, rows - 1);
      RowNoDup(n, ipc, rows - 1, cols);
      var before, row := Grid(n, ipc, cols, rows - 1), RowCells(n, ipc, rows - 1, cols);
      forall i, j | 0 <= i < |before| && 0 <= j < |row| ensures before[i] != row[j] {
        GridMembership(n, ipc, cols, rows - 1, before[i]);
        RowMembership(n, ipc, rows - 1, cols, row[j]);
      }
      NoDupConcat(before, row);
    }
  }

  /** The indices below `n`, in order. */
  function Range(n: nat): (r: seq<nat>)
    ensures |r| == n && forall i :: 0 <= i < n ==> r[i] == i
  {
    seq(n, i requires 0 <= i => i)
  }

  /** Printing the rows visits every index below `n` exactly once. */
  lemma LayoutVisitsEachOnce(n: nat)
    ensures NoDup(PrintOrder(n))
    ensures forall x: nat :: x in PrintOrder(n) <==> x < n
    ensures |PrintOrder(n)| == n
  {
    var ipc := ItemsPerColumn(n, Columns);
    var s := PrintOrder(n);
    if n > 0 {
      GridNoDup(n, ipc, Columns, ipc);
      forall x: nat ensures x in s <==> x < n {
        GridMembership(n, ipc, Columns, ipc, x);
        if x < n {
          ColumnBound(x, ipc, Columns);
        }
      }
      var all := Range(n);
      forall x: nat ensures x in all <==> x < n {
        if x < n {
          assert all[x] == x;
        }
      }
      NoDupCardinality(s);
      NoDupCardinality(all);
      var inS, inAll := set x: nat | x in s, set x: nat | x in all;
      assert |inS| == |s| && |inAll| == n;
      assert inS == inAll;
    } else {
      assert s == [];
    }
  }

  /** The inverse of `CellPosition`: item `x` is printed in row `x % ipc`,
      in column `x / ipc`, one of the four, and the cell there is `x`. */
  lemma LayoutPosition(n: nat, x: nat)
    requires x < n
    ensures var ipc := ItemsPerColumn(n, Columns);
      && ipc > 0
      && x % ipc < ipc && x / ipc < Columns
      && x == x % ipc + (x / ipc) * ipc
      && x in RowCells(n, ipc, x % ipc, Columns)
  {
    var ipc := ItemsPerColumn(n, Columns);
    ColumnBound(x, ipc, Columns);
    RowMembership(n, ipc, x % ipc, Columns, x);
  }
}
