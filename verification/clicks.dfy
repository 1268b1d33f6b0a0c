/** The click state machine of a game in progress.

    Each cell carries an open flag and a disabled flag. Clicking a mine loses
    the game; clicking a safe cell with mines around it opens that cell;
    clicking a blank cell opens everything the flood fill finds. After a
    safe click the game is won when the number of open cells reaches the
    number of safe cells. The packaged class and the notebook differ only in
    which buttons they disable on a loss and on a win. */
module Clicks {
  import opened Cardinality
  import opened Topology
  import opened Minefield
  import opened FloodFill

  /** The two copies of the click handler. */
  datatype Copy = Packaged | Notebook

  datatype Outcome = Lost | Won | Playing

  /** The open flags and disabled flags of every cell of a board. */
  datatype Game = Game(board: Board, openCells: set<int>, disabled: set<int>)

  /** Only safe cells are ever open, and the open cells hold every
      neighbour of each blank cell among them. */
  predicate ValidGame(g: Game) {
    && WellFormed(g.board)
    && g.openCells <= SafeCells(g.board)
    && g.disabled <= Cells(g.board.n)
    && Closed(g.board, g.openCells)
  }

  /** A fresh game: the board is drawn, no cell is open or disabled. */
  function NewGame(n: int, m: int, order: seq<int>): (r: Result<Game, ConfigError>)
    requires n >= 2 && IsShuffle(order, n)
    ensures r.Success? <==> 0 <= m <= n * n
    ensures r.Success? ==> ValidGame(r.value) && r.value.openCells == {} && r.value.disabled == {}
    ensures r.Success? ==> r.value.board.n == n && Target(r.value.board) == n * n - m
  {
    match NewBoard(n, m, order)
    case Failure(e) => Failure(e)
    case Success(b) => Success(Game(b, {}, {}))
  }

  /** Sets the open flag of the cells in `mask` and recounts the open
      cells. Flags only go from closed to open, so the count never drops
      and stays the same exactly when every masked cell was already open. */
  function UpdateProgress(g: Game, mask: set<int>): (r: (Game, int))
    requires g.board.n >= 2
    ensures r.0.board == g.board && r.0.disabled == g.disabled
    ensures forall c :: c in r.0.openCells <==> c in g.openCells || (c in mask && IsCell(c, g.board.n))
    ensures r.1 == |r.0.openCells| && r.1 >= |g.openCells|
    ensures r.1 == |g.openCells| <==> mask * Cells(g.board.n) <= g.openCells
  {
    var openCells := g.openCells + mask * Cells(g.board.n);
    SubsetSize(g.openCells, openCells);
    (Game(g.board, openCells, g.disabled), |openCells|)
  }

  /** Marks the game lost. The packaged class disables every safe cell's
      button and leaves the mines clickable; the notebook disables every
      button. Either way only mines stay enabled, and nothing is opened. */
  function OpenBlackHoles(copy: Copy, g: Game): (r: Game)
    requires ValidGame(g)
    ensures ValidGame(r) && r.board == g.board && r.openCells == g.openCells
    ensures copy == Packaged ==>
      forall c :: c in Cells(g.board.n) ==> (c in r.disabled <==> c in g.disabled || c !in g.board.mines)
    ensures copy == Notebook ==> forall c :: c in Cells(g.board.n) ==> c in r.disabled
    ensures forall c :: c in Cells(g.board.n) && c !in r.disabled ==> c in g.board.mines
  {
    var all := Cells(g.board.n);
    var disabled := if copy == Packaged then g.disabled + (all - g.board.mines) else all;
    Game(g.board, g.openCells, disabled)
  }

  /** Disables buttons once the game is won: the packaged class those of
      the cells still closed, the notebook all of them. Either way every
      button left enabled belongs to an open cell. */
  function DisableOnWin(copy: Copy, g: Game): (r: Game)
    requires ValidGame(g)
    ensures ValidGame(r) && r.board == g.board && r.openCells == g.openCells
    ensures copy == Packaged ==>
      forall c :: c in Cells(g.board.n) ==> (c in r.disabled <==> c in g.disabled || c !in g.openCells)
    ensures copy == Notebook ==> forall c :: c in Cells(g.board.n) ==> c in r.disabled
    ensures forall c :: c in Cells(g.board.n) && c !in r.disabled ==> c in g.openCells
  {
    var all := Cells(g.board.n);
    var disabled := if copy == Packaged then g.disabled + (all - g.openCells) else all;
    Game(g.board, g.openCells, disabled)
  }

  /** A click on a blank cell opens its flood-fill region. */
  method OpenRegion(g: Game, number: int) returns (r: Game, count: int)
    requires ValidGame(g) && IsZero(g.board, number)
    ensures ValidGame(r) && r.board == g.board && r.disabled == g.disabled
    ensures r.openCells == g.openCells + Region(g.board, number)
    ensures number in g.openCells ==> r.openCells == g.openCells
    ensures count == |r.openCells|
  {
    var mask: set<int>;
    ghost var rounds: nat;
    mask, rounds := CellsToOpen(g.board, number);
    var progress := UpdateProgress(g, mask);
    r, count := progress.0, progress.1;
    OpenedRegion(g, number, mask, r);
  }

  /** Opening the region of a blank safe cell keeps the game valid; if the
      cell was already open, so was its whole region. */
  lemma OpenedRegion(g: Game, number: int, mask: set<int>, r: Game)
    requires ValidGame(g) && IsZero(g.board, number)
    requires mask == Region(g.board, number) && Closed(g.board, mask) && mask <= SafeCells(g.board)
    requires Adj(g.board, number) <= mask
    requires r.board == g.board && r.disabled == g.disabled
    requires forall c :: c in r.openCells <==> c in g.openCells || (c in mask && IsCell(c, g.board.n))
    ensures ValidGame(r)
    ensures r.openCells == g.openCells + Region(g.board, number)
    ensures number in g.openCells ==> r.openCells == g.openCells
  {
    OpenedMask(g, mask, r);
    if number in g.openCells {
      RegionWithin(g.board, number, g.openCells);
    }
  }

  /** A click on a safe cell with mines around it opens that cell only. */
  function OpenCell(g: Game, number: int): (r: (Game, int))
    requires ValidGame(g) && IsCell(number, g.board.n) && number !in g.board.mines
    requires !IsZero(g.board, number)
    ensures ValidGame(r.0) && r.0.board == g.board && r.0.disabled == g.disabled
    ensures r.0.openCells == g.openCells + {number}
    ensures number in g.openCells ==> r.0.openCells == g.openCells
    ensures r.1 == |r.0.openCells|
  {
    var progress := UpdateProgress(g, {number});
    OpenedMask(g, {number}, progress.0);
    progress
  }

  /** Handles a click on cell `number`: a mine loses, a safe cell opens
      and the game is won when every safe cell is open. */
  method OnClickCell(copy: Copy, g: Game, number: int) returns (next: Game, outcome: Outcome)
    requires ValidGame(g) && IsCell(number, g.board.n)
    ensures ValidGame(next) && next.board == g.board
    ensures outcome == Lost <==> number in g.board.mines
    ensures g.openCells <= next.openCells && |next.openCells| <= Target(g.board)
    ensures outcome == Lost ==> next == OpenBlackHoles(copy, g)
    ensures number !in g.board.mines && !IsZero(g.board, number) ==> next.openCells == g.openCells + {number}
    ensures IsZero(g.board, number) ==> next.openCells == g.openCells + Region(g.board, number)
    ensures number in g.openCells ==> next.openCells == g.openCells
    ensures number !in g.board.mines ==> (outcome == Won <==> next.openCells == SafeCells(g.board))
    ensures number !in g.board.mines ==> (outcome == Won <==> |next.openCells| == Target(g.board))
    ensures outcome == Won ==> next == DisableOnWin(copy, Game(g.board, next.openCells, g.disabled))
    ensures outcome == Playing ==> next.disabled == g.disabled
  {
    if number in g.board.mines {
      SafeCount(g.board, g.openCells);
      CountBounds(g.board, number);
      return OpenBlackHoles(copy, g), Lost;
    }
    var after, count := OpenSafe(g, number);
    if count == Target(g.board) {
      return DisableOnWin(copy, after), Won;
    }
    return after, Playing;
  }

  /** A click on a safe cell: the cell alone when it has mines around it,
      its region when it is blank. The count says whether every safe cell
      is now open. */
  method OpenSafe(g: Game, number: int) returns (after: Game, count: int)
    requires ValidGame(g) && IsCell(number, g.board.n) && number !in g.board.mines
    ensures ValidGame(after) && after.board == g.board && after.disabled == g.disabled
    ensures g.openCells <= after.openCells
    ensures !IsZero(g.board, number) ==> after.openCells == g.openCells + {number}
    ensures IsZero(g.board, number) ==> after.openCells == g.openCells + Region(g.board, number)
    ensures number in g.openCells ==> after.openCells == g.openCells
    ensures count == |after.openCells| && count <= Target(g.board)
    ensures count == Target(g.board) <==> after.openCells == SafeCells(g.board)
  {
    if g.board.counts[number] != 0 {
      var progress := OpenCell(g, number);
      after, count := progress.0, progress.1;
    } else {
      after, count := OpenRegion(g, number);
    }
    SafeCount(g.board, after.openCells);
  }

  /** Opening a closed set of safe cells keeps the open cells safe and
      closed. */
  lemma OpenedMask(g: Game, mask: set<int>, r: Game)
    requires ValidGame(g) && mask <= SafeCells(g.board) && Closed(g.board, mask)
    requires r.board == g.board && r.disabled == g.disabled
    requires forall c :: c in r.openCells <==> c in g.openCells || (c in mask && IsCell(c, g.board.n))
    ensures ValidGame(r)
    ensures r.openCells == g.openCells + mask
    ensures mask <= g.openCells ==> r.openCells == g.openCells
  {
    forall c ensures c in r.openCells <==> c in g.openCells + mask {
      if c in mask {
        assert c in Cells(g.board.n);
      }
    }
    ClosedUnion(g.board, g.openCells, mask);
  }

  lemma ClosedUnion(b: Board, u: set<int>, v: set<int>)
    requires Closed(b, u) && Closed(b, v)
    ensures Closed(b, u + v)
  {
  }

  /** The open cells are safe, so there are at most as many as the target,
      and exactly as many only when every safe cell is open. */
  lemma SafeCount(b: Board, cells: set<int>)
    requires b.n >= 0 && b.mines <= Cells(b.n) && cells <= SafeCells(b)
    ensures |SafeCells(b)| == Target(b)
    ensures |cells| <= Target(b)
    ensures |cells| == Target(b) <==> cells == SafeCells(b)
  {
    CellsSize(b.n);
    SubsetSize(b.mines, Cells(b.n));
    SubsetSize(cells, SafeCells(b));
  }
}
