/** zip_solver_v1.py: the original recursive depth-first search. The module
    globals `path` and `visited` are the fields of a `Solver` object that
    `Dfs` extends before recursing and restores on backtrack. This solver
    ignores walls: its moves are plain 4-neighbour steps, i.e. trails over the
    empty wall list. A call `dfs(r, c, next_search)` together with the globals
    is exactly a stack frame of the later solvers, which is how the model reuses
    their notion of a frame leading to a solution. */
module BruteForce {
  import opened Grid
  import opened Adjacency
  import opened Search

  /** The globals between calls: `visited == set(path)`, and the path is a
      wall-free trail of distinct board cells from a cell labelled 1 whose
      labels are `1, ..., next - 1`. */
  ghost predicate OnTrack(grid: Board, end: int, path: seq<Cell>, visited: set<Cell>, next: int)
    requires IsSquare(grid)
  {
    && AllIn(|grid|, path) && Distinct(path) && visited == SetOf(path) && IsTrail([], path)
    && 1 <= next <= end && Labels(grid, path) == Range(1, next)
    && (path != [] ==> Label(grid, path[0]) == 1)
  }

  /** The state at a call `dfs(x, next)` that can still extend `path`: the
      globals are on track and `x` is a cell labelled 1 (first call) or a
      4-neighbour of the end of the path. */
  ghost predicate ReadyAt(grid: Board, end: int, path: seq<Cell>, visited: set<Cell>, x: Cell, next: int)
    requires IsSquare(grid)
  {
    && OnTrack(grid, end, path, visited, next)
    && (if path == [] then InBounds(|grid|, x) && Label(grid, x) == 1
        else Adjacent(path[|path| - 1], x))
  }

  /** Some solution of the wall-free puzzle goes through `path` and then `x`. */
  ghost predicate SolutionThrough(grid: Board, end: int, path: seq<Cell>, visited: set<Cell>, x: Cell, next: int)
    requires IsSquare(grid)
  {
    exists sol :: IsSolution(grid, [], 1, end, sol) && Witness(Frame(x, next, path, visited), sol)
  }

  /** Some solution has `path + [x]` as a proper prefix. */
  ghost predicate ContinuedBy(grid: Board, end: int, path: seq<Cell>, x: Cell)
    requires IsSquare(grid)
  {
    exists sol :: IsSolution(grid, [], 1, end, sol) && |path| + 1 < |sol| && sol[..|path| + 1] == path + [x]
  }

  /** After a successful call from `p` at `x`: the path printed is a solution
      continuing `p` through `x`, and `visited` lacks only its last cell (`dfs`
      appends the end cell without marking it). */
  ghost predicate CompletesAt(grid: Board, end: int, path: seq<Cell>, visited: set<Cell>, p: seq<Cell>, x: Cell) {
    && IsSolution(grid, [], 1, end, path)
    && |p| < |path| && path[..|p| + 1] == p + [x]
    && visited == SetOf(path[..|path| - 1])
  }

  class Solver {
    const grid: Board
    const n: nat
    const end: int
    var path: seq<Cell>
    var visited: set<Cell>

    /** `N = len(grid)` on a square board. */
    ghost predicate Wf() {
      IsSquare(grid) && n == |grid| && n > 0
    }

    constructor(grid: Board)
      requires IsSquare(grid) && |grid| > 0
      ensures Wf() && this.grid == grid && end == GridMax(grid) && path == [] && visited == {}
    {
      this.grid := grid;
      n := |grid|;
      end := GridMax(grid);
      path := [];
      visited := {};
    }

    /** `dfs(r, c, next_search)`: out of the board, already visited, a label
        out of turn, or the last label reached too early return False and change
        nothing; the last label with every other cell visited appends it and
        returns True; otherwise the search goes on from the cell's moves. */
    method Dfs(r: int, c: int, next: int) returns (ok: bool)
      modifies this
      requires Wf()
      requires ReadyAt(grid, end, path, visited, Cell(r, c), next) || Cell(r, c) in visited
      ensures !ok ==> path == old(path) && visited == old(visited)
      ensures Cell(r, c) in old(visited) ==> !ok
      ensures ok ==> CompletesAt(grid, end, path, visited, old(path), Cell(r, c))
      ensures (old(ReadyAt(grid, end, path, visited, Cell(r, c), next)) &&
               SolutionThrough(grid, end, old(path), old(visited), Cell(r, c), next)) ==> ok
      decreases n * n - |visited|, 1
    {
      if r < 0 || c < 0 || r >= n || c >= n {
        OffBoard(grid, end, path, visited, Cell(r, c), next);
        return false;
      }
      var x := Cell(r, c);
      if x in visited {
        return false;
      }
      AlongSolutions(grid, end, path, visited, x, next);
      var newNext := next;
      if next == grid[r][c] {
        if end == next {
          if |visited| == n * n - 1 {
            FinalCell(grid, end, path, visited, x, next);
            path := path + [x];
            return true;
          } else {
            return false;
          }
        } else {
          newNext := newNext + 1;
        }
      } else if grid[r][c] != 0 {
        return false;
      }
      ok := TryMoves(x, next, newNext);
    }

    /** `path.append((r, c)); visited.add((r, c))`, the four recursive calls
        down, right, up, left with the first True returned at once, and
        `path.pop(); visited.remove((r, c))` when all four fail. */
    method TryMoves(x: Cell, next: int, newNext: int) returns (ok: bool)
      modifies this
      requires Wf() && ReadyAt(grid, end, path, visited, x, next) && InBounds(n, x) && x !in visited
      requires Label(grid, x) == 0 || (Label(grid, x) == next && next != end)
      requires newNext == if Label(grid, x) == next then next + 1 else next
      ensures !ok ==> path == old(path) && visited == old(visited)
      ensures ok ==> CompletesAt(grid, end, path, visited, old(path), x)
      ensures ContinuedBy(grid, end, old(path), x) ==> ok
      decreases n * n - |visited|, 0
    {
      ghost var p, v := path, visited;
      Pushed(grid, end, p, v, x, next);
      NextMove(grid, end, p, v, x, newNext);
      path := path + [x];
      visited := visited + {x};
      ok := Move(Cell(x.r + 1, x.c), newNext, p, v, x);
      if ok {
        return;
      }
      ok := Move(Cell(x.r, x.c + 1), newNext, p, v, x);
      if ok {
        return;
      }
      ok := Move(Cell(x.r - 1, x.c), newNext, p, v, x);
      if ok {
        return;
      }
      ok := Move(Cell(x.r, x.c - 1), newNext, p, v, x);
      if ok {
        return;
      }
      path := path[..|path| - 1];
      visited := visited - {x};
      assert path == p;
    }

    /** One recursive call `if dfs(r', c', new_next): return True` from `x`,
        made with `x` pushed onto `p`. */
    method Move(y: Cell, nn: int, ghost p: seq<Cell>, ghost v: set<Cell>, ghost x: Cell) returns (ok: bool)
      modifies this
      requires Wf() && path == p + [x] && visited == v + {x}
      requires OnTrack(grid, end, path, visited, nn) && Adjacent(x, y)
      ensures !ok ==> path == old(path) && visited == old(visited)
      ensures ok ==> CompletesAt(grid, end, path, visited, p, x)
      ensures SolutionThrough(grid, end, p + [x], v + {x}, y, nn) ==> ok
      decreases n * n - |visited|, 2
    {
      assert ReadyAt(grid, end, path, visited, y, nn);
      ok := Dfs(y.r, y.c, nn);
      if ok {
        CompletesStep(grid, end, path, visited, p, x, y);
      }
    }

    /** `for r, row in enumerate(grid): for c, x in enumerate(row): if x == start:
        dfs(r, c, start)`: every cell labelled 1 is tried in row-major order; the
        return value is ignored, so the cells after a success are tried too (and
        return False at once, being visited). */
    method StartLoop()
      modifies this
      requires Wf() && end == GridMax(grid) && path == [] && visited == {}
      ensures path == [] || IsSolution(grid, [], 1, end, path)
      ensures path != [] <==> exists sol :: IsSolution(grid, [], 1, end, sol)
    {
      for r := 0 to n
        invariant path == [] ==> visited == {} && NoneStartsBefore(grid, end, r, 0)
        invariant path != [] ==> Settled(grid, end, path, visited, r, 0)
      {
        for c := 0 to n
          invariant path == [] ==> visited == {} && NoneStartsBefore(grid, end, r, c)
          invariant path != [] ==> Settled(grid, end, path, visited, r, c)
        {
          ghost var p := path;
          if grid[r][c] == 1 {
            var x := Cell(r, c);
            if path == [] {
              FirstTry(grid, end, x);
            } else {
              SettledVisited(grid, end, path, visited, r, c);
            }
            var found := Dfs(r, c, 1);
            if found {
              OnlyStart(grid, end, path);
            }
          }
          ScanPast(grid, end, p, path, visited, r, c);
        }
        RowEnd(grid, end, path, visited, r);
      }
      NoStartLeft(grid, end);
    }
  }

  // ---------------------------------------------------------------------
  // The start loop
  // ---------------------------------------------------------------------

  /** `y` comes at or after `(r, c)` in row-major order. */
  predicate NotBefore(y: Cell, r: int, c: int) {
    y.r > r || (y.r == r && y.c >= c)
  }

  /** No solution starts before `(r, c)` in row-major order. */
  ghost predicate NoneStartsBefore(grid: Board, end: int, r: int, c: int) {
    forall sol :: IsSolution(grid, [], 1, end, sol) ==> NotBefore(sol[0], r, c)
  }

  /** Once a solution is printed it stays, it started before cell `(r, c)`,
      and every other cell labelled 1 is visited. */
  ghost predicate Settled(grid: Board, end: int, path: seq<Cell>, visited: set<Cell>, r: int, c: int) {
    && IsSolution(grid, [], 1, end, path)
    && visited == SetOf(path[..|path| - 1])
    && !NotBefore(path[0], r, c)
    && forall y :: InBounds(|grid|, y) && Label(grid, y) == 1 && y != path[0] ==> y in visited
  }

  /** The first call from an empty path at a cell labelled 1 is ready. */
  lemma FirstTry(grid: Board, end: int, x: Cell)
    requires IsSquare(grid) && |grid| > 0 && end == GridMax(grid)
    requires InBounds(|grid|, x) && Label(grid, x) == 1
    ensures ReadyAt(grid, end, [], {}, x, 1)
  {
    assert Labels(grid, []) == Range(1, 1);
  }

  /** After a solution is printed, every later cell labelled 1 is visited. */
  lemma SettledVisited(grid: Board, end: int, path: seq<Cell>, visited: set<Cell>, r: int, c: int)
    requires Settled(grid, end, path, visited, r, c)
    requires InBounds(|grid|, Cell(r, c)) && Label(grid, Cell(r, c)) == 1
    ensures Cell(r, c) in visited
  {
  }

  /** One step of the scan from `(r, c)` to `(r, c + 1)`, whatever `dfs` did. */
  lemma ScanPast(grid: Board, end: int, p: seq<Cell>, path: seq<Cell>, visited: set<Cell>, r: int, c: int)
    requires IsSquare(grid) && 0 <= r < |grid| && 0 <= c < |grid|
    requires p == [] ==> NoneStartsBefore(grid, end, r, c)
    requires p != [] ==> Settled(grid, end, p, visited, r, c) && path == p
    requires p == [] && Label(grid, Cell(r, c)) == 1 ==>
      (path == [] ==> visited == {} && !SolutionThrough(grid, end, [], {}, Cell(r, c), 1)) &&
      (path != [] ==> CompletesAt(grid, end, path, visited, [], Cell(r, c)) &&
                      forall y :: InBounds(|grid|, y) && Label(grid, y) == 1 ==> y == path[0])
    requires p == [] && Label(grid, Cell(r, c)) != 1 ==> path == [] && visited == {}
    ensures path == [] ==> visited == {} && NoneStartsBefore(grid, end, r, c + 1)
    ensures path != [] ==> Settled(grid, end, path, visited, r, c + 1)
  {
    if path == [] {
      forall sol | IsSolution(grid, [], 1, end, sol) ensures NotBefore(sol[0], r, c + 1) {
        StartsThrough(grid, end, sol);
      }
    } else if p == [] {
      assert path[..1] == [Cell(r, c)];
    }
  }

  /** A solution goes through its own first cell from the empty path. */
  lemma StartsThrough(grid: Board, end: int, sol: seq<Cell>)
    requires IsSolution(grid, [], 1, end, sol)
    ensures SolutionThrough(grid, end, [], {}, sol[0], 1)
  {
    assert Witness(Frame(sol[0], 1, [], {}), sol);
  }

  /** Leaving row `r` for row `r + 1`. */
  lemma RowEnd(grid: Board, end: int, path: seq<Cell>, visited: set<Cell>, r: int)
    requires IsSquare(grid)
    requires path == [] ==> NoneStartsBefore(grid, end, r, |grid|)
    requires path != [] ==> Settled(grid, end, path, visited, r, |grid|)
    ensures path == [] ==> NoneStartsBefore(grid, end, r + 1, 0)
    ensures path != [] ==> Settled(grid, end, path, visited, r + 1, 0)
  {
    if path == [] {
      forall sol | IsSolution(grid, [], 1, end, sol) ensures NotBefore(sol[0], r + 1, 0) {
        assert InBounds(|grid|, sol[0]);
      }
    }
  }

  /** At the end of the scan no solution is left unfound. */
  lemma NoStartLeft(grid: Board, end: int)
    requires IsSquare(grid)
    ensures NoneStartsBefore(grid, end, |grid|, 0) ==> forall sol :: !IsSolution(grid, [], 1, end, sol)
  {
    forall sol | IsSolution(grid, [], 1, end, sol) ensures !NotBefore(sol[0], |grid|, 0) {
      assert InBounds(|grid|, sol[0]);
    }
  }

  /** A solution starting on a cell labelled 1 leaves no other cell labelled 1. */
  lemma OnlyStart(grid: Board, end: int, sol: seq<Cell>)
    requires IsSolution(grid, [], 1, end, sol)
    ensures forall y :: InBounds(|grid|, y) && Label(grid, y) == 1 ==> y == sol[0]
  {
    SolutionLabelsDistinct(grid, [], 1, end, sol);
  }

  /** `zip_solver_v1.py` as a whole; a 0 x 0 board fails at `max([])`. */
  datatype ScriptResult = EmptyBoard | Printed(path: seq<Cell>)

  method Script(grid: Board) returns (res: ScriptResult)
    requires IsSquare(grid)
    ensures res.EmptyBoard? <==> |grid| == 0
    ensures res.Printed? ==> res.path == [] || IsSolution(grid, [], 1, GridMax(grid), res.path)
    ensures res.Printed? ==> (res.path != [] <==> exists sol :: IsSolution(grid, [], 1, GridMax(grid), sol))
  {
    if |grid| == 0 {
      return EmptyBoard;
    }
    var s := new Solver(grid);
    s.StartLoop();
    return Printed(s.path);
  }

  // ---------------------------------------------------------------------
  // Lemmas about one call
  // ---------------------------------------------------------------------

  /** A cell off the board is on no solution. */
  lemma OffBoard(grid: Board, end: int, p: seq<Cell>, v: set<Cell>, x: Cell, next: int)
    requires IsSquare(grid) && !InBounds(|grid|, x)
    ensures !SolutionThrough(grid, end, p, v, x, next)
  {
  }

  /** What any solution through `path` and then `x` implies about the call at
      `x`: either `x` is its last cell, reached with every other cell visited,
      or `x` carries the next label or none and the solution goes on after it. */
  lemma AlongSolutions(grid: Board, end: int, p: seq<Cell>, v: set<Cell>, x: Cell, next: int)
    requires IsSquare(grid) && ReadyAt(grid, end, p, v, x, next) && x !in v
    ensures SolutionThrough(grid, end, p, v, x, next) ==>
      || (Label(grid, x) == next == end && |v| == |grid| * |grid| - 1)
      || ((Label(grid, x) == 0 || (Label(grid, x) == next && next != end)) && ContinuedBy(grid, end, p, x))
  {
    if SolutionThrough(grid, end, p, v, x, next) {
      var sol :| IsSolution(grid, [], 1, end, sol) && Witness(Frame(x, next, p, v), sol);
      if |p| == |sol| - 1 {
        AlongToEnd(grid, end, p, v, x, next, sol);
      } else {
        AlongOnward(grid, end, p, v, x, next, sol);
      }
    }
  }

  /** On the last cell of a solution: the last label, every other cell visited. */
  lemma AlongToEnd(grid: Board, end: int, p: seq<Cell>, v: set<Cell>, x: Cell, next: int, sol: seq<Cell>)
    requires IsSquare(grid) && ReadyAt(grid, end, p, v, x, next)
    requires IsSolution(grid, [], 1, end, sol) && Witness(Frame(x, next, p, v), sol) && |p| == |sol| - 1
    ensures Label(grid, x) == next == end && |v| == |grid| * |grid| - 1
  {
    assert sol[..|sol| - 1] == p;
    LastIsEnd(grid, sol, 1, next, end);
    CoveringPathLength(|grid|, sol);
    DistinctCard(p);
  }

  /** Before the last cell of a solution: the next label or none, and the solution goes on. */
  lemma AlongOnward(grid: Board, end: int, p: seq<Cell>, v: set<Cell>, x: Cell, next: int, sol: seq<Cell>)
    requires IsSquare(grid) && ReadyAt(grid, end, p, v, x, next)
    requires IsSolution(grid, [], 1, end, sol) && Witness(Frame(x, next, p, v), sol) && |p| < |sol| - 1
    ensures Label(grid, x) == 0 || (Label(grid, x) == next && next != end)
    ensures ContinuedBy(grid, end, p, x)
  {
    assert sol[..|p|] == p;
    assert sol[..|p| + 1] == p + [x];
    LabelsAhead(grid, sol, |p|, 1, next, end);
  }

  /** A solution continuing `path + [x]` moves next to one of the four moves
      of `x`, which it reaches on its way. */
  lemma NextMove(grid: Board, end: int, p: seq<Cell>, v: set<Cell>, x: Cell, nn: int)
    requires IsSquare(grid)
    ensures ContinuedBy(grid, end, p, x) ==>
      || SolutionThrough(grid, end, p + [x], v + {x}, Cell(x.r + 1, x.c), nn)
      || SolutionThrough(grid, end, p + [x], v + {x}, Cell(x.r, x.c + 1), nn)
      || SolutionThrough(grid, end, p + [x], v + {x}, Cell(x.r - 1, x.c), nn)
      || SolutionThrough(grid, end, p + [x], v + {x}, Cell(x.r, x.c - 1), nn)
  {
    if ContinuedBy(grid, end, p, x) {
      var sol :| IsSolution(grid, [], 1, end, sol) && |p| + 1 < |sol| && sol[..|p| + 1] == p + [x];
      assert sol[|p|] == x;
      assert LinkAt([], sol, |p| + 1);
      assert Witness(Frame(sol[|p| + 1], nn, p + [x], v + {x}), sol);
    }
  }

  /** A solution printed from `p + [x]` at `y` is one printed from `p` at `x`. */
  lemma CompletesStep(grid: Board, end: int, path: seq<Cell>, visited: set<Cell>, p: seq<Cell>, x: Cell, y: Cell)
    requires CompletesAt(grid, end, path, visited, p + [x], y)
    ensures CompletesAt(grid, end, path, visited, p, x)
  {
    assert path[..|p| + 1] == path[..|p| + 2][..|p| + 1];
  }

  /** The end cell reached with every other cell visited completes a solution. */
  lemma FinalCell(grid: Board, end: int, p: seq<Cell>, v: set<Cell>, x: Cell, next: int)
    requires IsSquare(grid) && ReadyAt(grid, end, p, v, x, next) && InBounds(|grid|, x) && x !in v
    requires Label(grid, x) == next == end && |v| == |grid| * |grid| - 1
    ensures CompletesAt(grid, end, p + [x], v, p, x)
  {
    var sol := p + [x];
    FreshCellExtends(p, x);
    TrailExtends([], p, x);
    LabelsExtend(grid, p, x, 1, next);
    DistinctCard(p);
    FullPathCovers(|grid|, sol);
    assert sol[..|sol| - 1] == p;
  }

  /** After pushing `x` the globals are still on track, with the new counter. */
  lemma Pushed(grid: Board, end: int, p: seq<Cell>, v: set<Cell>, x: Cell, next: int)
    requires IsSquare(grid) && ReadyAt(grid, end, p, v, x, next) && InBounds(|grid|, x) && x !in v
    requires Label(grid, x) == 0 || (Label(grid, x) == next && next != end)
    ensures OnTrack(grid, end, p + [x], v + {x}, if Label(grid, x) == next then next + 1 else next)
    ensures |v + {x}| <= |grid| * |grid|
  {
    FreshCellExtends(p, x);
    TrailExtends([], p, x);
    LabelsExtend(grid, p, x, 1, next);
    assert AllIn(|grid|, p + [x]);
    BoundedByBoard(|grid|, v + {x});
  }
}
