/** The cells opened by clicking a blank cell.

    Starting from the clicked cell, the fill repeatedly takes the frontier of
    newly found blank cells, opens all of their neighbours, and continues
    from the blank ones among those not opened before. The result is
    characterised independently as a region: the neighbours of every cell
    reachable from the start by stepping from neighbour to neighbour through
    blank cells only. */
module FloodFill {
  import opened Cardinality
  import opened Topology
  import opened Minefield

  /** A walk from path[0] in which every step goes to a neighbour of the
      previous cell and lands on a blank cell. The start need not be
      blank. */
  predicate ZeroPath(b: Board, path: seq<int>)
  {
    && |path| >= 1
    && forall i :: 0 < i < |path| ==> path[i] in Adj(b, path[i - 1]) && IsZero(b, path[i])
  }

  ghost predicate Reachable(b: Board, s: int, t: int)
  {
    exists path :: ZeroPath(b, path) && path[0] == s && path[|path| - 1] == t
  }

  /** Every cell next to a cell reachable from s through blank cells. */
  ghost function Region(b: Board, s: int): set<int>
  {
    set x | x in Cells(b.n) && exists t :: Reachable(b, s, t) && x in Adj(b, t)
  }

  /** A set of cells that holds every neighbour of each blank cell in it. */
  predicate Closed(b: Board, r: set<int>)
  {
    forall t :: t in r && IsZero(b, t) ==> Adj(b, t) <= r
  }

  /** All neighbours of all cells of f. */
  function Around(b: Board, f: set<int>): (r: set<int>)
    ensures forall x :: x in r <==> exists p :: p in f && x in Adj(b, p)
  {
    set p, x | p in f && x in Adj(b, p) :: x
  }

  function ZeroCells(b: Board): set<int> {
    set a | a in b.counts && b.counts[a] == 0
  }

  lemma ReachableSelf(b: Board, s: int)
    ensures Reachable(b, s, s)
  {
    assert ZeroPath(b, [s]);
  }

  /** One more step onto a blank neighbour keeps a cell reachable. */
  lemma ReachableStep(b: Board, s: int, p: int, a: int)
    requires Reachable(b, s, p) && a in Adj(b, p) && IsZero(b, a)
    ensures Reachable(b, s, a)
  {
    var path :| ZeroPath(b, path) && path[0] == s && path[|path| - 1] == p;
    var longer := path + [a];
    assert longer[|longer| - 1] == a && longer[|longer| - 2] == p;
    assert ZeroPath(b, longer);
  }

  /** A closed set holding the neighbours of a walk's start holds the
      neighbours of its end. */
  lemma {:induction false} ClosedFollowsPath(b: Board, r: set<int>, path: seq<int>)
    requires Closed(b, r) && ZeroPath(b, path) && Adj(b, path[0]) <= r
    ensures Adj(b, path[|path| - 1]) <= r
  {
    if |path| > 1 {
      var prefix := path[..|path| - 1];
      assert ZeroPath(b, prefix) by {
        forall i | 0 < i < |prefix| ensures prefix[i] in Adj(b, prefix[i - 1]) && IsZero(b, prefix[i]) {
          assert prefix[i] == path[i] && prefix[i - 1] == path[i - 1];
        }
      }
      ClosedFollowsPath(b, r, prefix);
      var last := path[|path| - 1];
      assert last in Adj(b, prefix[|prefix| - 1]);
      assert last in r && IsZero(b, last);
    }
  }

  /** The region is the least closed set holding the start's neighbours. */
  lemma RegionWithin(b: Board, s: int, r: set<int>)
    requires Closed(b, r) && Adj(b, s) <= r
    ensures Region(b, s) <= r
  {
    forall x | x in Region(b, s) ensures x in r {
      var t :| Reachable(b, s, t) && x in Adj(b, t);
      var path :| ZeroPath(b, path) && path[0] == s && path[|path| - 1] == t;
      ClosedFollowsPath(b, r, path);
    }
  }

  lemma RegionClosed(b: Board, s: int)
    requires WellFormed(b)
    ensures Closed(b, Region(b, s))
    ensures Adj(b, s) <= Region(b, s)
  {
    forall t | t in Region(b, s) && IsZero(b, t) ensures Adj(b, t) <= Region(b, s) {
      var p :| Reachable(b, s, p) && t in Adj(b, p);
      ReachableStep(b, s, p, t);
    }
    ReachableSelf(b, s);
  }

  /** From a blank start the region holds no mine: every reachable cell is
      blank, so none of its neighbours is a mine. */
  lemma RegionAvoidsMines(b: Board, s: int)
    requires WellFormed(b) && IsZero(b, s)
    ensures Region(b, s) !! b.mines
  {
    forall x | x in Region(b, s) ensures x !in b.mines {
      var t :| Reachable(b, s, t) && x in Adj(b, t);
      var path :| ZeroPath(b, path) && path[0] == s && path[|path| - 1] == t;
      assert IsZero(b, t);
      ZeroIsSafe(b, t);
    }
  }

  /** The blank cells next to the frontier that are neither in the
      frontier nor already marked for opening: the next frontier. */
  function NextFrontier(b: Board, frontier: set<int>, toOpen: set<int>): set<int>
  {
    (set p, a | p in frontier && a in Adj(b, p) && a !in frontier && IsZero(b, a) :: a) - toOpen
  }

  /** The state of the frontier loop after some rounds. `visited` is the
      union of all earlier frontiers: every frontier is disjoint from it,
      every frontier after the first consists of blank cells, and every
      cell found so far is reachable from the start. */
  ghost predicate FillState(b: Board, number: int, toOpen: set<int>, frontier: set<int>, visited: set<int>, rounds: nat)
  {
    && toOpen == Around(b, visited)
    && frontier !! visited
    && (visited == {} ==> frontier == {number} && rounds == 0)
    && (visited != {} ==> number in visited && frontier <= ZeroCells(b))
    && (visited != {} ==> rounds <= |visited * ZeroCells(b)| + 1)
    && visited <= Cells(b.n) + {number}
    && ZeroCells(b) * toOpen <= visited + frontier
    && (forall x :: x in visited + frontier ==> Reachable(b, number, x))
  }

  /** The frontier loop: `frontier` holds the blank cells found in the
      previous round and `toOpen` accumulates their neighbours. The ghost
      set `visited` of earlier frontiers shrinks the set of cells not yet
      used as a frontier, so the loop ends, after at most one round per
      blank cell plus one. */
  method CellsToOpen(b: Board, number: int) returns (toOpen: set<int>, ghost rounds: nat)
    requires WellFormed(b)
    ensures toOpen == Region(b, number)
    ensures Closed(b, toOpen)
    ensures Adj(b, number) <= toOpen
    ensures IsZero(b, number) ==> toOpen <= Cells(b.n) - b.mines
    ensures rounds <= |ZeroCells(b)| + 1
  {
    toOpen := {};
    var frontier := {number};
    ghost var visited: set<int> := {};
    rounds := 0;
    ReachableSelf(b, number);
    while frontier != {}
      invariant FillState(b, number, toOpen, frontier, visited, rounds)
      decreases (Cells(b.n) + {number}) - visited
    {
      var next := NextFrontier(b, frontier, toOpen);
      FillRound(b, number, toOpen, frontier, visited, rounds);
      toOpen := toOpen + Around(b, frontier);
      visited := visited + frontier;
      frontier := next;
      rounds := rounds + 1;
    }
    FillExit(b, number, toOpen, visited, rounds);
  }

  /** One round of the loop keeps its state invariant and uses up at
      least one more cell. */
  lemma FillRound(b: Board, number: int, toOpen: set<int>, frontier: set<int>, visited: set<int>, rounds: nat)
    requires WellFormed(b) && frontier != {}
    requires FillState(b, number, toOpen, frontier, visited, rounds)
    ensures FillState(b, number, toOpen + Around(b, frontier), NextFrontier(b, frontier, toOpen), visited + frontier, rounds + 1)
    ensures (Cells(b.n) + {number}) - (visited + frontier) < (Cells(b.n) + {number}) - visited
  {
    var next := NextFrontier(b, frontier, toOpen);
    assert ZeroCells(b) <= Cells(b.n);
    FrontierStep(b, number, visited, frontier, next);
    CountStep(b, visited, frontier);
    AroundUnion(b, visited, frontier);
    var x :| x in frontier;
    assert x in (Cells(b.n) + {number}) - visited;
  }

  /** When the frontier runs dry, the accumulated cells are the region. */
  lemma FillExit(b: Board, number: int, toOpen: set<int>, visited: set<int>, rounds: nat)
    requires WellFormed(b) && FillState(b, number, toOpen, {}, visited, rounds)
    ensures toOpen == Region(b, number)
    ensures Closed(b, toOpen)
    ensures Adj(b, number) <= toOpen
    ensures IsZero(b, number) ==> toOpen <= Cells(b.n) - b.mines
    ensures rounds <= |ZeroCells(b)| + 1
  {
    assert number in visited;
    FillClosed(b, toOpen, visited);
    FillIsRegion(b, number, toOpen, visited);
    if IsZero(b, number) {
      RegionAvoidsMines(b, number);
    }
    FillRounds(b, visited, rounds);
  }

  /** Once every blank cell found has served as a frontier, the cells
      around the frontiers are closed. */
  lemma FillClosed(b: Board, toOpen: set<int>, visited: set<int>)
    requires toOpen == Around(b, visited) && ZeroCells(b) * toOpen <= visited
    ensures Closed(b, toOpen)
  {
    forall t | t in toOpen && IsZero(b, t) ensures Adj(b, t) <= toOpen {
      assert t in ZeroCells(b) * toOpen;
    }
  }

  /** A closed set of cells around reachable cells, holding the start's
      neighbours, is the region. */
  lemma FillIsRegion(b: Board, number: int, toOpen: set<int>, visited: set<int>)
    requires WellFormed(b) && toOpen == Around(b, visited)
    requires Closed(b, toOpen) && Adj(b, number) <= toOpen
    requires forall x :: x in visited ==> Reachable(b, number, x)
    ensures toOpen == Region(b, number)
  {
    RegionWithin(b, number, toOpen);
    forall x | x in toOpen ensures x in Region(b, number) {
      var p :| p in visited && x in Adj(b, p);
    }
  }

  /** At most one round per blank cell, plus the first. */
  lemma FillRounds(b: Board, visited: set<int>, rounds: nat)
    requires rounds <= |visited * ZeroCells(b)| + 1
    ensures rounds <= |ZeroCells(b)| + 1
  {
    SubsetSize(visited * ZeroCells(b), ZeroCells(b));
  }

  /** One round keeps the reachability and coverage invariants. */
  lemma FrontierStep(b: Board, number: int, visited: set<int>, frontier: set<int>, next: set<int>)
    requires WellFormed(b) && frontier != {}
    requires visited == {} ==> frontier == {number}
    requires visited != {} ==> frontier <= ZeroCells(b)
    requires ZeroCells(b) * Around(b, visited) <= visited + frontier
    requires forall x :: x in visited + frontier ==> Reachable(b, number, x)
    requires next == NextFrontier(b, frontier, Around(b, visited))
    ensures next <= ZeroCells(b)
    ensures next !! visited + frontier
    ensures ZeroCells(b) * Around(b, visited + frontier) <= visited + frontier + next
    ensures forall x :: x in visited + frontier + next ==> Reachable(b, number, x)
  {
    forall x | x in next ensures Reachable(b, number, x) {
      var p :| p in frontier && x in Adj(b, p) && IsZero(b, x);
      ReachableStep(b, number, p, x);
    }
    AroundCoversCells(b, visited);
    forall x | x in ZeroCells(b) * Around(b, visited + frontier) ensures x in visited + frontier + next {
      var p :| p in visited + frontier && x in Adj(b, p);
      if p in visited {
        assert x in Around(b, visited);
      } else if x !in frontier && x !in Around(b, visited) {
        assert IsZero(b, x);
      }
    }
  }

  lemma AroundUnion(b: Board, f: set<int>, g: set<int>)
    ensures Around(b, f + g) == Around(b, f) + Around(b, g)
  {
  }

  /** Every cell is among its own neighbours, so it is around any set that
      holds it. */
  lemma AroundCoversCells(b: Board, f: set<int>)
    requires WellFormed(b)
    ensures f * Cells(b.n) <= Around(b, f)
  {
    forall x | x in f * Cells(b.n) ensures x in Around(b, f) {
      assert x in Adj(b, x);
    }
  }

  /** One round adds a non-empty set of fresh blank cells to `visited`,
      except for the first round, which adds the start. */
  lemma CountStep(b: Board, visited: set<int>, frontier: set<int>)
    requires frontier !! visited && frontier != {}
    requires visited != {} ==> frontier <= ZeroCells(b)
    ensures visited != {} ==> |(visited + frontier) * ZeroCells(b)| >= |visited * ZeroCells(b)| + 1
  {
    if visited != {} {
      var z := ZeroCells(b);
      assert (visited + frontier) * z == visited * z + frontier;
      assert |frontier| >= 1;
    }
  }
}
