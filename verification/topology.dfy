/** Grid topology of the square board.

    Cells are numbered 1 .. n*n in row-major order: the cell in row `row` and
    column `col` (both counted from 0) has number row*n + col + 1. A cell's
    neighbour set is the 3x3 stencil around it, the cell itself included,
    with the wrap-around candidates of the first and last columns deleted and
    everything outside 1 .. n*n dropped. */
module Topology {
  import Cardinality
  import opened Stencil

  predicate IsCell(k: int, n: int) {
    1 <= k <= n * n
  }

  /** All cell numbers of an n x n board. */
  function Cells(n: int): set<int> {
    set k {:trigger IsCell(k, n)} | 1 <= k <= n * n
  }

  /** An n x n board has n*n cells. */
  lemma CellsSize(n: int)
    requires n >= 0
    ensures |Cells(n)| == n * n
  {
    assert Cells(n) == Cardinality.Range(1, n * n + 1) by {
      forall k ensures k in Cells(n) <==> Cardinality.InRange(k, 1, n * n + 1) {
      }
    }
    Cardinality.RangeSize(1, n * n + 1);
  }

  function Row(k: int, n: int): int
    requires n > 0
  {
    (k - 1) / n
  }

  function Col(k: int, n: int): int
    requires n > 0
  {
    (k - 1) % n
  }

  // ---------------------------------------------------------------------------
  // Arithmetic on row-major coordinates

  lemma MulMono(a: int, b: int, n: int)
    requires a <= b && 0 <= n
    ensures a * n <= b * n
  {
    assert b * n - a * n == (b - a) * n;
  }

  lemma Distribute(a: int, d: int, n: int)
    ensures (a + d) * n == a * n + d * n
  {
  }

  /** Row-major coordinates are unique: a number written as q*n + rem with
      0 <= rem < n has quotient q and remainder rem. */
  lemma DivModUnique(x: int, n: int, q: int, rem: int)
    requires n > 0 && 0 <= rem < n && x == q * n + rem
    ensures x / n == q && x % n == rem
  {
    var d := q - x / n;
    assert x == (x / n) * n + x % n;
    assert d * n == x % n - rem by {
      assert q * n - (x / n) * n == (q - x / n) * n;
    }
    if d >= 1 {
      MulMono(1, d, n);
    } else if d <= -1 {
      MulMono(d, -1, n);
    }
  }

  /** q*n + rem + 1 is a cell exactly when the row q lies on the board. */
  lemma OnBoard(q: int, rem: int, n: int)
    requires n > 0 && 0 <= rem < n
    ensures IsCell(q * n + rem + 1, n) <==> 0 <= q < n
  {
    if q < 0 {
      MulMono(q, -1, n);
    } else if q < n {
      MulMono(0, q, n);
      MulMono(q, n - 1, n);
      assert (n - 1) * n == n * n - n;
    } else {
      MulMono(n, q, n);
    }
  }

  /** Every number splits into its row and column; it is a cell exactly when
      its row lies on the board. */
  lemma Coordinates(k: int, n: int)
    requires n > 0
    ensures k - 1 == Row(k, n) * n + Col(k, n)
    ensures 0 <= Col(k, n) < n
    ensures IsCell(k, n) <==> 0 <= Row(k, n) < n
  {
    assert k - 1 == Row(k, n) * n + Col(k, n);
    OnBoard(Row(k, n), Col(k, n), n);
  }

  // ---------------------------------------------------------------------------
  // Candidate generation

  /** The number of the cell dr rows and dc columns away from (row, col). */
  function Offset(row: int, col: int, width: int, dr: int, dc: int): int {
    (row + dr) * width + (col + dc) + 1
  }

  /** The nine candidates centred on cell row*width + col + 1, in stencil
      order: rows above, level and below, each left to right. */
  function PotentialAdjacent(row: int, col: int, width: int): (r: seq<int>)
    ensures |r| == 9
    ensures forall dr, dc :: -1 <= dr <= 1 && -1 <= dc <= 1 ==>
      r[3 * (dr + 1) + (dc + 1)] == Offset(row, col, width, dr, dc)
  {
    var c := row * width + 1 + col;
    [c - width - 1, c - width, c - width + 1,
     c - 1,         c,         c + 1,
     c + width - 1, c + width, c + width + 1]
  }

  /** Deletes one column of the 3x3 stencil: positions j, j+3 and j+6. */
  function DeleteStencilColumn(s: seq<int>, j: int): (r: seq<int>)
    requires |s| == 9 && (j == 0 || j == 2)
    ensures |r| == 6
  {
    if j == 0 then [s[1], s[2], s[4], s[5], s[7], s[8]]
    else [s[0], s[1], s[3], s[4], s[6], s[7]]
  }

  /** The candidates of cell k that survive the column deletions: last-column
      cells lose the right-hand stencil column, first-column cells the
      left-hand one. */
  function ExactAdjacent(k: int, n: int): (r: seq<int>)
    requires n >= 2 && IsCell(k, n)
  {
    var cand := PotentialAdjacent(Row(k, n), Col(k, n), n);
    var afterEnd := if Col(k, n) == n - 1 then DeleteStencilColumn(cand, 2) else cand;
    if Col(k, n) == 0 then DeleteStencilColumn(afterEnd, 0) else afterEnd
  }

  /** The neighbour set of k: its surviving candidates that lie on the board.
      A number that is not a cell has no row in the adjacency table and so no
      neighbours. */
  function Nbrs(k: int, n: int): (r: set<int>)
    requires n >= 2
    ensures r <= Cells(n)
  {
    if IsCell(k, n) then Visible(ExactAdjacent(k, n), n * n) else {}
  }

  lemma ExactAdjacentShape(k: int, n: int)
    requires n >= 2 && IsCell(k, n)
    ensures ExactAdjacent(k, n) == KeptStencil(k, n, Col(k, n))
  {
    Coordinates(k, n);
  }

  /** The stencil cell dr rows and dc columns away from k, when its column is
      on the board, has exactly those coordinates. */
  lemma StencilCell(k: int, n: int, dr: int, dc: int)
    requires n >= 2 && IsCell(k, n)
    requires -1 <= dr <= 1 && -1 <= dc <= 1 && 0 <= Col(k, n) + dc < n
    ensures Row(k + dr * n + dc, n) == Row(k, n) + dr
    ensures Col(k + dr * n + dc, n) == Col(k, n) + dc
    ensures IsCell(k + dr * n + dc, n) <==> 0 <= Row(k, n) + dr < n
  {
    Coordinates(k, n);
    var q := Row(k, n) + dr;
    var rem := Col(k, n) + dc;
    Distribute(Row(k, n), dr, n);
    DivModUnique(k + dr * n + dc - 1, n, q, rem);
    OnBoard(q, rem, n);
  }

  // ---------------------------------------------------------------------------
  // Properties of the neighbour relation

  /** Two cells are near when their rows and their columns each differ by at
      most one. */
  predicate Near(a: int, b: int, n: int)
    requires n > 0
  {
    -1 <= Row(a, n) - Row(b, n) <= 1 && -1 <= Col(a, n) - Col(b, n) <= 1
  }

  /** The neighbour set is exactly the board cells near k: the column
      deletions leave no wrap-around candidate and lose no true neighbour. */
  lemma NbrsGeometry(k: int, x: int, n: int)
    requires n >= 2
    ensures x in Nbrs(k, n) <==> IsCell(k, n) && IsCell(x, n) && Near(k, x, n)
  {
    if x in Nbrs(k, n) {
      NbrsAreNear(k, x, n);
    }
    if IsCell(k, n) && IsCell(x, n) && Near(k, x, n) {
      NearAreNbrs(k, x, n);
    }
  }

  lemma NbrsAreNear(k: int, x: int, n: int)
    requires n >= 2 && x in Nbrs(k, n)
    ensures IsCell(k, n) && IsCell(x, n) && Near(k, x, n)
  {
    ExactAdjacentShape(k, n);
    Coordinates(k, n);
    var dr, dc := StencilOffset(k, n, Col(k, n), x);
    StencilCell(k, n, dr, dc);
  }

  lemma NearAreNbrs(k: int, x: int, n: int)
    requires n >= 2 && IsCell(k, n) && IsCell(x, n) && Near(k, x, n)
    ensures x in Nbrs(k, n)
  {
    ExactAdjacentShape(k, n);
    Coordinates(k, n);
    Coordinates(x, n);
    var dr, dc := Row(x, n) - Row(k, n), Col(x, n) - Col(k, n);
    Distribute(Row(k, n), dr, n);
    assert x == k + dr * n + dc;
    StencilHasOffset(k, n, Col(k, n), dr, dc);
  }

  /** Every kept candidate lies one step or none away, in a column on the
      board. */
  lemma StencilOffset(k: int, n: int, col: int, x: int) returns (dr: int, dc: int)
    requires n >= 2 && 0 <= col < n && x in KeptStencil(k, n, col)
    ensures -1 <= dr <= 1 && -1 <= dc <= 1 && 0 <= col + dc < n
    ensures x == k + dr * n + dc
  {
    if x == k - n - 1 && col > 0 { dr, dc := -1, -1; }
    else if x == k - n { dr, dc := -1, 0; }
    else if x == k - n + 1 && col < n - 1 { dr, dc := -1, 1; }
    else if x == k - 1 && col > 0 { dr, dc := 0, -1; }
    else if x == k { dr, dc := 0, 0; }
    else if x == k + 1 && col < n - 1 { dr, dc := 0, 1; }
    else if x == k + n - 1 && col > 0 { dr, dc := 1, -1; }
    else if x == k + n { dr, dc := 1, 0; }
    else { dr, dc := 1, 1; }
  }

  /** Every offset of one step or none that stays in a board column is
      kept. */
  lemma StencilHasOffset(k: int, n: int, col: int, dr: int, dc: int)
    requires n >= 2 && 0 <= col < n
    requires -1 <= dr <= 1 && -1 <= dc <= 1 && 0 <= col + dc < n
    ensures k + dr * n + dc in KeptStencil(k, n, col)
  {
    if dr == -1 {
      assert k + dr * n + dc == k - n + dc;
    } else if dr == 0 {
      assert k + dr * n + dc == k + dc;
    } else {
      assert k + dr * n + dc == k + n + dc;
    }
  }

  lemma NbrsSymmetric(k: int, x: int, n: int)
    requires n >= 2
    ensures x in Nbrs(k, n) <==> k in Nbrs(x, n)
  {
    NbrsGeometry(k, x, n);
    NbrsGeometry(x, k, n);
  }

  /** Every cell is its own neighbour. */
  lemma NbrsContainsSelf(k: int, n: int)
    requires n >= 2 && IsCell(k, n)
    ensures k in Nbrs(k, n)
  {
    NbrsGeometry(k, k, n);
  }

  /** The number of board rows (or columns) within one step of line i:
      2 on a border line, 3 otherwise. */
  function Span(i: int, n: int): int {
    (if i > 0 then 1 else 0) + 1 + (if i < n - 1 then 1 else 0)
  }

  /** A corner cell has 4 neighbours, a non-corner border cell 6 and an
      interior cell 9, always counting the cell itself. */
  lemma NbrsSize(k: int, n: int)
    requires n >= 2 && IsCell(k, n)
    ensures |Nbrs(k, n)| == Span(Row(k, n), n) * Span(Col(k, n), n)
  {
    var row, col := Row(k, n), Col(k, n);
    Coordinates(k, n);
    var rows := if row == 0 || row == n - 1 then 2 else 3;
    var cols := ColumnSpan(k, n);
    assert Span(row, n) == rows && Span(col, n) == cols;
    assert |Nbrs(k, n)| == rows * cols by {
      NbrsCases(k, n);
    }
  }

  function ColumnSpan(k: int, n: int): int
    requires n > 0
  {
    if Col(k, n) == 0 || Col(k, n) == n - 1 then 2 else 3
  }

  lemma NbrsCases(k: int, n: int)
    requires n >= 2 && IsCell(k, n)
    ensures
      var row := Row(k, n);
      |Nbrs(k, n)| == (if row == 0 || row == n - 1 then 2 else 3) * ColumnSpan(k, n)
  {
    Coordinates(k, n);
    if Row(k, n) == 0 {
      NbrsTopRow(k, n);
    } else if Row(k, n) == n - 1 {
      NbrsBottomRow(k, n);
    } else {
      NbrsMiddleRow(k, n);
    }
  }

  lemma NbrsTopRow(k: int, n: int)
    requires n >= 2 && IsCell(k, n) && Row(k, n) == 0
    ensures |Nbrs(k, n)| == 2 * ColumnSpan(k, n)
  {
    Coordinates(k, n);
    ExactAdjacentShape(k, n);
    MulMono(2, n, n);
    TopRowSize(k, n, Col(k, n), n * n);
  }

  lemma NbrsBottomRow(k: int, n: int)
    requires n >= 2 && IsCell(k, n) && Row(k, n) == n - 1
    ensures |Nbrs(k, n)| == 2 * ColumnSpan(k, n)
  {
    Coordinates(k, n);
    ExactAdjacentShape(k, n);
    MulMono(2, n, n);
    Distribute(n, -1, n);
    BottomRowSize(k, n, Col(k, n), n * n);
  }

  lemma NbrsMiddleRow(k: int, n: int)
    requires n >= 2 && IsCell(k, n) && 0 < Row(k, n) < n - 1
    ensures |Nbrs(k, n)| == 3 * ColumnSpan(k, n)
  {
    var row := Row(k, n);
    Coordinates(k, n);
    ExactAdjacentShape(k, n);
    MulMono(1, row, n);
    MulMono(row, n - 2, n);
    Distribute(n, -2, n);
    MiddleRowSize(k, n, Col(k, n), n * n);
  }

  /** No cell has more than nine neighbours. */
  lemma NbrsAtMostNine(k: int, n: int)
    requires n >= 2
    ensures |Nbrs(k, n)| <= 9
  {
    if IsCell(k, n) {
      NbrsSize(k, n);
      var a, b := Span(Row(k, n), n), Span(Col(k, n), n);
      assert a <= 3 && b <= 3 && a >= 0 && b >= 0;
      MulMono(a, 3, b);
      MulMono(b, 3, 3);
    }
  }
}
