/** The mines of a board and the per-cell counts of mines around them.

    A board is built once per game: the mines are drawn, each cell is told
    whether it is a mine, and every cell's count is the number of mines
    whose neighbour set contains it. The count is self-inclusive, so a mine
    always counts itself. */
module Minefield {
  import opened Cardinality
  import opened Topology

  datatype Result<+R, +E> = Success(value: R) | Failure(error: E)

  /** Why a board cannot be drawn: a negative number of mines, or more mines
      than there are cells to draw them from without replacement. */
  datatype ConfigError = NegativeMineCount | TooManyMines

  /** An n x n board: its adjacency table (each cell's neighbour set), its
      mines and the count column of every cell. */
  datatype Board = Board(n: int, adjacent: map<int, set<int>>, mines: set<int>, counts: map<int, int>)

  /** The neighbours of p as listed in the board's table. */
  function Adj(b: Board, p: int): set<int> {
    if p in b.adjacent then b.adjacent[p] else {}
  }

  /** The table lists, for every cell, at most nine cells, the cell itself
      among them; the count of a cell is the number of mines it lists. */
  predicate WellFormed(b: Board) {
    && b.n >= 2
    && b.mines <= Cells(b.n)
    && b.adjacent.Keys == Cells(b.n)
    && (forall k :: k in b.adjacent ==> k in b.adjacent[k] && b.adjacent[k] <= Cells(b.n) && |b.adjacent[k]| <= 9)
    && b.counts.Keys == Cells(b.n)
    && (forall a :: a in b.counts ==> b.counts[a] == |b.mines * Adj(b, a)|)
  }

  /** A cell shown blank: no mine among its neighbours. */
  predicate IsZero(b: Board, a: int) {
    a in b.counts && b.counts[a] == 0
  }

  function SafeCells(b: Board): set<int> {
    Cells(b.n) - b.mines
  }

  /** How many safe cells must be opened to win. */
  function Target(b: Board): int {
    b.n * b.n - |b.mines|
  }

  /** The order in which the random draw would pick cells: every cell
      exactly once. */
  predicate IsShuffle(order: seq<int>, n: int) {
    && |order| == n * n
    && Distinct(order)
    && forall i :: 0 <= i < |order| ==> IsCell(order[i], n)
  }

  /** Draws m mines without replacement. The random draw is the parameter
      `order`; the mines are its first m entries. */
  function GenerateBlackHoles(n: int, m: int, order: seq<int>): (r: Result<set<int>, ConfigError>)
    requires n >= 0 && IsShuffle(order, n)
    ensures r.Success? <==> 0 <= m <= n * n
    ensures m < 0 ==> r == Failure(NegativeMineCount)
    ensures r.Success? ==> |r.value| == m && r.value <= Cells(n)
    ensures r.Success? ==> forall i :: 0 <= i < |order| ==> (order[i] in r.value <==> i < m)
  {
    if m < 0 then Failure(NegativeMineCount)
    else if m > n * n then Failure(TooManyMines)
    else
      var mines := set x | x in order[..m];
      DistinctPrefixSize(order, m);
      DistinctPrefixMembers(order, m);
      Success(mines)
  }

  lemma DistinctPrefixSize(s: seq<int>, m: int)
    requires Distinct(s) && 0 <= m <= |s|
    ensures |set x | x in s[..m]| == m
  {
    assert Distinct(s[..m]) by {
      forall i, j | 0 <= i < j < m ensures s[..m][i] != s[..m][j] {
        assert s[i] != s[j];
      }
    }
    DistinctSize(s[..m]);
  }

  lemma DistinctPrefixMembers(s: seq<int>, m: int)
    requires Distinct(s) && 0 <= m <= |s|
    ensures forall i :: 0 <= i < |s| ==> (s[i] in s[..m] <==> i < m)
  {
    forall i | 0 <= i < |s| ensures s[i] in s[..m] <==> i < m {
      if i < m {
        assert s[..m][i] == s[i];
      } else {
        forall j | 0 <= j < m ensures s[..m][j] != s[i] {
          assert s[j] != s[i];
        }
      }
    }
  }

  /** The adjacency table: every cell with its neighbour set. */
  function FindExactAdjacent(n: int): (r: map<int, set<int>>)
    requires n >= 2
    ensures r.Keys == Cells(n)
    ensures forall k :: k in r ==> k in r[k] && r[k] <= Cells(n) && |r[k]| <= 9
    ensures forall k, x :: k in r && x in r[k] ==> x in r && k in r[x]
    ensures forall k, x :: k in r ==> (x in r[k] <==> IsCell(x, n) && Near(k, x, n))
  {
    NeighbourTable(n);
    map k | k in Cells(n) :: Nbrs(k, n)
  }

  lemma NeighbourTable(n: int)
    requires n >= 2
    ensures forall k :: k in Cells(n) ==> k in Nbrs(k, n) && |Nbrs(k, n)| <= 9
    ensures forall k, x :: x in Nbrs(k, n) ==> k in Nbrs(x, n)
    ensures forall k, x :: x in Nbrs(k, n) <==> IsCell(k, n) && IsCell(x, n) && Near(k, x, n)
  {
    forall k | k in Cells(n) ensures k in Nbrs(k, n) && |Nbrs(k, n)| <= 9 {
      NbrsContainsSelf(k, n);
      NbrsAtMostNine(k, n);
    }
    forall k, x ensures x in Nbrs(k, n) <==> IsCell(k, n) && IsCell(x, n) && Near(k, x, n) {
      NbrsGeometry(k, x, n);
    }
    forall k, x | x in Nbrs(k, n) ensures k in Nbrs(x, n) {
      NbrsSymmetric(k, x, n);
    }
  }

  /** The count column: each cell a receives one count per mine p whose
      table row lists a. */
  function AdjacentBlackHoles(table: map<int, set<int>>, mines: set<int>): (r: map<int, int>)
    ensures r.Keys == table.Keys
  {
    map a | a in table :: |set p | p in mines && p in table && a in table[p]|
  }

  /** Over a symmetric table the column built from the mines' side equals
      the number of mines in the cell's own row. */
  lemma AdjacentBlackHolesMeaning(table: map<int, set<int>>, mines: set<int>)
    requires mines <= table.Keys
    requires forall k, x :: k in table && x in table[k] ==> x in table && k in table[x]
    ensures forall a :: a in table ==> AdjacentBlackHoles(table, mines)[a] == |mines * table[a]|
  {
    forall a | a in table ensures AdjacentBlackHoles(table, mines)[a] == |mines * table[a]| {
      forall p ensures (p in mines && p in table && a in table[p]) <==> p in mines * table[a] {
        if p in mines && p in table[a] {
          assert p in table && a in table[p];
        }
      }
      assert (set p | p in mines && p in table && a in table[p]) == mines * table[a];
    }
  }

  /** Builds the board: the adjacency table, the mines, then the count
      column. */
  function NewBoard(n: int, m: int, order: seq<int>): (r: Result<Board, ConfigError>)
    requires n >= 2 && IsShuffle(order, n)
    ensures r.Success? <==> 0 <= m <= n * n
    ensures r.Success? ==> WellFormed(r.value) && r.value.n == n && |r.value.mines| == m
    ensures r.Success? ==> r.value.adjacent == FindExactAdjacent(n)
    ensures r.Success? ==> Target(r.value) == n * n - m
  {
    match GenerateBlackHoles(n, m, order)
    case Failure(e) => Failure(e)
    case Success(mines) =>
      var table := FindExactAdjacent(n);
      var b := Board(n, table, mines, AdjacentBlackHoles(table, mines));
      BuiltBoard(b);
      Success(b)
  }

  /** A board built over a table with the properties of the neighbour
      table, with the count column computed from the mines' side, is well
      formed. */
  lemma BuiltBoard(b: Board)
    requires b.n >= 2 && b.mines <= Cells(b.n) && b.adjacent.Keys == Cells(b.n)
    requires forall k :: k in b.adjacent ==> k in b.adjacent[k] && b.adjacent[k] <= Cells(b.n) && |b.adjacent[k]| <= 9
    requires forall k, x :: k in b.adjacent && x in b.adjacent[k] ==> x in b.adjacent && k in b.adjacent[x]
    requires b.counts == AdjacentBlackHoles(b.adjacent, b.mines)
    ensures WellFormed(b)
  {
    AdjacentBlackHolesMeaning(b.adjacent, b.mines);
    forall a | a in b.counts ensures b.counts[a] == |b.mines * Adj(b, a)| {
      assert Adj(b, a) == b.adjacent[a];
    }
  }

  /** A mine counts itself, so its count is at least one; a cell counts at
      most its nine neighbours. */
  lemma CountBounds(b: Board, a: int)
    requires WellFormed(b) && a in b.counts
    ensures 0 <= b.counts[a] <= 9
    ensures a in b.mines ==> b.counts[a] >= 1
  {
    SubsetSize(b.mines * Adj(b, a), Adj(b, a));
    if a in b.mines {
      assert a in b.mines * Adj(b, a);
    }
  }

  /** A cell shown blank is safe, and so are all of its neighbours. */
  lemma ZeroIsSafe(b: Board, a: int)
    requires WellFormed(b) && IsZero(b, a)
    ensures a !in b.mines
    ensures Adj(b, a) !! b.mines
  {
    var around := b.mines * Adj(b, a);
    assert b.counts[a] == |around|;
    EmptyBySize(around);
    forall x | x in Adj(b, a) ensures x !in b.mines {
      assert x !in around;
    }
  }

  lemma EmptyBySize(s: set<int>)
    requires |s| == 0
    ensures forall x :: x !in s
  {
  }

  /** 1 - flag on a 0/1 flag: the logical xor with 1. */
  function Invert(flag: int): int {
    if flag == 0 then 1 else 0
  }

  /** One entry of the matrix view: the count masked out for a mine, and
      minus the mine flag added. */
  function MatrixEntry(b: Board, k: int): int {
    var flag := if k in b.mines then 1 else 0;
    var count := if k in b.counts then b.counts[k] else 0;
    count * Invert(flag) + (-1 * flag)
  }

  /** The board as an n x n matrix in row-major order. */
  function AdjacentHolesMatrix(b: Board): (r: seq<seq<int>>)
    requires b.n >= 0
    ensures |r| == b.n
    ensures forall row :: 0 <= row < b.n ==> |r[row]| == b.n
  {
    seq(b.n, row => MatrixRow(b, row))
  }

  /** Row `row` of the matrix view: the entries of cells row*n+1 .. row*n+n. */
  function MatrixRow(b: Board, row: int): (r: seq<int>)
    requires b.n >= 0
    ensures |r| == b.n
  {
    var first := row * b.n + 1;
    seq(b.n, col => MatrixEntry(b, first + col))
  }

  /** Entry (row, col) belongs to cell row*n + col + 1: it is -1 exactly
      when that cell is a mine, and the cell's count otherwise. */
  lemma AdjacentHolesMatrixMeaning(b: Board, row: int, col: int)
    requires WellFormed(b) && 0 <= row < b.n && 0 <= col < b.n
    ensures var k := row * b.n + col + 1;
      && IsCell(k, b.n)
      && (AdjacentHolesMatrix(b)[row][col] == -1 <==> k in b.mines)
      && (k !in b.mines ==> AdjacentHolesMatrix(b)[row][col] == b.counts[k])
  {
    var k := row * b.n + col + 1;
    OnBoard(row, col, b.n);
    MatrixLookup(b, row, col);
    EntryValue(b, k);
  }

  lemma MatrixLookup(b: Board, row: int, col: int)
    requires 0 <= b.n && 0 <= row < b.n && 0 <= col < b.n
    ensures AdjacentHolesMatrix(b)[row][col] == MatrixEntry(b, row * b.n + col + 1)
  {
    assert AdjacentHolesMatrix(b)[row] == MatrixRow(b, row);
  }

  /** A mine's entry is -1; any other cell's entry is its count. */
  lemma EntryValue(b: Board, k: int)
    requires WellFormed(b) && IsCell(k, b.n)
    ensures MatrixEntry(b, k) == -1 <==> k in b.mines
    ensures k !in b.mines ==> MatrixEntry(b, k) == b.counts[k]
  {
    assert k in b.counts;
    CountBounds(b, k);
  }
}
