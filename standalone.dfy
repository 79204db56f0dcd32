/** The standalone solver scripts zip_solver_v3.py and zip_solver_v2.py: the
    module-level set-up (`start = 1`, `end` the largest value on the board,
    `positions`, the neighbour map filtered once per wall) and `solve()`. The
    board and the walls, module globals there, are parameters here. */
module Standalone {
  import opened Grid
  import opened Adjacency
  import opened Connectivity
  import opened Search

  /** How a run of the script ends. */
  datatype ScriptResult =
    | Solved(solution: seq<Cell>)  // `solve()` returns True after printing the solution
    | NotSolved                    // `solve()` returns False
    | KeyError(key: int)         // `positions[start]` or `positions[new_next]` raises
    | EmptyBoard                   // `max([])` raises ValueError on a 0 x 0 board

  /** The puzzle the scripts pose: every cell once, visiting labels `1, 2, ...,`
      up to the largest value on the board. */
  ghost predicate Solvable(grid: Board, walls: seq<Wall>)
    requires IsSquare(grid)
  {
    |grid| > 0 && exists sol :: IsSolution(grid, walls, 1, GridMax(grid), sol)
  }

  /** What both scripts promise: a printed solution solves the puzzle from the
      cell labelled 1 to the cell carrying the largest label, and the search
      ends without one exactly when there is none. */
  ghost predicate ScriptOk(grid: Board, walls: seq<Wall>, r: ScriptResult)
    requires IsSquare(grid)
  {
    && (|grid| == 0 <==> r == EmptyBoard)
    && (r.Solved? ==>
         (|grid| > 0 &&
          var sol := r.solution;
          && IsSolution(grid, walls, 1, GridMax(grid), sol)
          && 1 in Positions(grid) && sol[0] == Positions(grid)[1]
          && GridMax(grid) in Positions(grid) && sol[|sol| - 1] == Positions(grid)[GridMax(grid)]))
    && (r.KeyError? ==> |grid| > 0 && r.key !in Positions(grid) && (r.key == 1 || 1 < r.key <= GridMax(grid)))
    && (|grid| > 0 && 1 !in Positions(grid) ==> r == KeyError(1))
    && (r.Solved? <==> Solvable(grid, walls))
  }

  /** zip_solver_v3.py: set-up, then `solve()` with both prunes. */
  method RunV3(grid: Board, walls: seq<Wall>) returns (r: ScriptResult)
    requires IsSquare(grid)
    ensures ScriptOk(grid, walls, r)
  {
    r := Run(V3, grid, walls);
  }

  /** zip_solver_v2.py: set-up, then `solve()` with the distance prune only. */
  method RunV2(grid: Board, walls: seq<Wall>) returns (r: ScriptResult)
    requires IsSquare(grid)
    ensures ScriptOk(grid, walls, r)
  {
    r := Run(V2, grid, walls);
  }

  /** The script body shared by v3 and v2. */
  method Run(v: Variant, grid: Board, walls: seq<Wall>) returns (r: ScriptResult)
    requires IsSquare(grid) && v != Production
    ensures ScriptOk(grid, walls, r)
  {
    var n := |grid|;
    if n == 0 {
      return EmptyBoard;
    }
    var end := GridMax(grid);
    var positions := Positions(grid);
    PositionsSpec(grid);
    var nb := BuildNeighborsPerWall(n, walls);
    NeighborMapOk(n, walls);
    if 1 !in positions {
      SolvableHasStart(grid, walls);
      return KeyError(1);
    }
    var ctx := Context(grid, walls, nb, positions, 1, end, n * n);
    assert ContextOk(ctx);
    var s := StackSearch(v, ctx);
    match s
    case Found(sol) =>
      r := Solved(sol);
    case Missing(l) =>
      r := KeyError(l);
      SolvableMeansSolves(ctx);
    case Exhausted =>
      r := NotSolved;
      SolvableMeansSolves(ctx);
  }

  /** A solution starts on a cell labelled 1, so `positions[1]` exists. */
  lemma SolvableHasStart(grid: Board, walls: seq<Wall>)
    requires IsSquare(grid)
    ensures Solvable(grid, walls) ==> 1 in Positions(grid)
  {
    if Solvable(grid, walls) {
      var sol :| IsSolution(grid, walls, 1, GridMax(grid), sol);
      PositionsSpec(grid);
      assert InBounds(|grid|, sol[0]);
    }
  }

  lemma SolvableMeansSolves(ctx: Context)
    requires ContextOk(ctx) && |ctx.grid| > 0 && ctx.start == 1 && ctx.end == GridMax(ctx.grid)
    ensures Solvable(ctx.grid, ctx.walls) <==> exists sol :: Solves(ctx, sol)
  {
    if Solvable(ctx.grid, ctx.walls) {
      var sol :| IsSolution(ctx.grid, ctx.walls, 1, GridMax(ctx.grid), sol);
      assert Solves(ctx, sol);
    }
    if exists sol :: Solves(ctx, sol) {
      var sol :| Solves(ctx, sol);
      assert IsSolution(ctx.grid, ctx.walls, 1, GridMax(ctx.grid), sol);
    }
  }
}
