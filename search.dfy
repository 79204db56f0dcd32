/** The explicit-stack depth-first search shared by `solver_process` and the
    standalone solvers v3 and v2: the stack frame, the processing of one popped
    frame, what a solution is, and why the search is sound, complete and
    terminating. */
module Search {
  import opened Grid
  import opened Adjacency
  import opened Connectivity

  /** The three stack engines differ only in the target lookup and the connectivity prune. */
  datatype Variant =
    | Production  // solver_process: `if new_next in positions:` guards the distance prune; `is_connected` prunes
    | V3          // zip_solver_v3.solve: `positions[new_next]` unguarded; `is_connected` prunes
    | V2          // zip_solver_v2.solve: `positions[new_next]` unguarded; distance prune only

  /** A stack entry `(r, c, next_search, path, visited)`. */
  datatype Frame = Frame(cell: Cell, next: int, path: seq<Cell>, visited: set<Cell>)

  /** What every frame of one search shares: the board, the walls, the neighbour
      map, `positions`, the first and last labels to visit, and `N * N`. */
  datatype Context = Context(grid: Board, walls: seq<Wall>, nb: NeighborMapT, positions: map<int, Cell>,
                             start: int, end: int, area: int)

  ghost predicate ContextOk(ctx: Context) {
    && IsSquare(ctx.grid)
    && NeighborsOk(|ctx.grid|, ctx.walls, ctx.nb)
    && PositionsOk(ctx.grid, ctx.positions)
    && 1 <= ctx.start <= ctx.end
    && ctx.start in ctx.positions
    && ctx.area == |ctx.grid| * |ctx.grid|
  }

  /** `positions[start]`, where every search begins. */
  function Home(ctx: Context): Cell
    requires ContextOk(ctx)
  {
    ctx.positions[ctx.start]
  }

  // ---------------------------------------------------------------------
  // Trails and solutions
  // ---------------------------------------------------------------------

  predicate LinkAt(walls: seq<Wall>, p: seq<Cell>, i: int)
    requires 0 < i < |p|
  {
    Link(walls, p[i - 1], p[i])
  }

  predicate IsTrail(walls: seq<Wall>, p: seq<Cell>) {
    forall i :: 0 < i < |p| ==> LinkAt(walls, p, i)
  }

  /** A solved puzzle: every cell exactly once, each move to an unwalled
      4-neighbour, starting on label `start`, ending on label `end`, and the
      labels met on the way are `start, start + 1, ..., end` in that order. */
  ghost predicate IsSolution(grid: Board, walls: seq<Wall>, start: int, end: int, sol: seq<Cell>) {
    && IsSquare(grid)
    && |sol| > 0 && AllIn(|grid|, sol) && Distinct(sol)
    && (forall x :: InBounds(|grid|, x) ==> x in sol)
    && IsTrail(walls, sol)
    && Label(grid, sol[0]) == start && Label(grid, sol[|sol| - 1]) == end
    && Labels(grid, sol) == Range(start, end + 1)
  }

  ghost predicate Solves(ctx: Context, sol: seq<Cell>) {
    IsSolution(ctx.grid, ctx.walls, ctx.start, ctx.end, sol)
  }

  /** A partial trail as shown in a progress message: distinct board cells,
      unwalled moves, starting at `home`. */
  predicate IsPartialTrail(grid: Board, walls: seq<Wall>, home: Cell, p: seq<Cell>) {
    |p| > 0 && p[0] == home && AllIn(|grid|, p) && Distinct(p) && IsTrail(walls, p)
  }

  // ---------------------------------------------------------------------
  // The frame invariant
  // ---------------------------------------------------------------------

  /** Every frame on the stack: `visited == set(path)` with no duplicates, the
      path is a trail from `positions[start]` ending next to `cell`, and the
      labels met so far are `start, ..., next_search - 1`. */
  ghost predicate FrameOk(ctx: Context, f: Frame)
    requires ContextOk(ctx)
  {
    var n := |ctx.grid|;
    && InBounds(n, f.cell) && AllIn(n, f.path) && Distinct(f.path)
    && f.visited == SetOf(f.path)
    && IsTrail(ctx.walls, f.path)
    && (if f.path == [] then f.cell == Home(ctx)
        else f.path[0] == Home(ctx) && Link(ctx.walls, f.path[|f.path| - 1], f.cell))
    && ctx.start <= f.next <= ctx.end
    && Labels(ctx.grid, f.path) == Range(ctx.start, f.next)
  }

  ghost predicate StackOk(ctx: Context, stack: seq<Frame>)
    requires ContextOk(ctx)
  {
    forall f :: f in stack ==> FrameOk(ctx, f)
  }

  /** `f` is the point where the search would stand on its way along `sol`. */
  predicate Witness(f: Frame, sol: seq<Cell>) {
    |f.path| < |sol| && f.path == sol[..|f.path|] && f.cell == sol[|f.path|]
  }

  /** Every solution still has a frame on the stack leading to it. */
  ghost predicate Covers(ctx: Context, stack: seq<Frame>) {
    forall sol :: Solves(ctx, sol) ==> exists f :: f in stack && Witness(f, sol)
  }

  // ---------------------------------------------------------------------
  // Processing one popped frame
  // ---------------------------------------------------------------------

  /** What the label of the popped cell decides (the `cell_val == next_search` block). */
  datatype Advance = Complete | DeadEnd | Continue(newNext: int)

  function Classify(cellVal: int, next: int, end: int, covered: bool): Advance {
    if cellVal == next then
      if next == end then (if covered then Complete else DeadEnd)
      else Continue(next + 1)
    else if cellVal != 0 then DeadEnd
    else Continue(next)
  }

  /** `for nr, nc in neighbors[(r, c)]: stack.append((nr, nc, new_next, new_path, new_visited))` */
  function Children(ns: seq<Cell>, next: int, path: seq<Cell>, visited: set<Cell>): (kids: seq<Frame>)
    ensures |kids| == |ns|
    ensures forall i :: 0 <= i < |ns| ==> kids[i] == Frame(ns[i], next, path, visited)
  {
    seq(|ns|, i requires 0 <= i < |ns| => Frame(ns[i], next, path, visited))
  }

  /** The fate of a popped, not yet visited frame. */
  datatype Outcome =
    | Finish(solution: seq<Cell>)
    | Prune
    | Expand(children: seq<Frame>)
    | MissingTarget(target: int)  // `positions[new_next]` raising KeyError in v2/v3

  /** The specification of one pop, with the connectivity prune stated as reachability. */
  ghost function Step(v: Variant, ctx: Context, f: Frame): Outcome
    requires ContextOk(ctx) && InBounds(|ctx.grid|, f.cell)
  {
    match Classify(Label(ctx.grid, f.cell), f.next, ctx.end, |f.visited| == ctx.area - 1)
    case Complete => Finish(f.path + [f.cell])
    case DeadEnd => Prune
    case Continue(nn) =>
      var np, nv := f.path + [f.cell], f.visited + {f.cell};
      if nn !in ctx.positions && v != Production then MissingTarget(nn)
      else if nn in ctx.positions && Dist(f.cell, ctx.positions[nn]) > ctx.area - |nv| then Prune
      else if v != V2 && !AllReachable(ctx.nb, Required(ctx.grid, nn, nv), f.cell) then Prune
      else Expand(Children(ctx.nb[f.cell], nn, np, nv))
  }

  /** The body of the stack loop after the `(r, c) in visited` test. */
  method Examine(v: Variant, ctx: Context, f: Frame) returns (o: Outcome)
    requires ContextOk(ctx) && InBounds(|ctx.grid|, f.cell)
    ensures o == Step(v, ctx, f)
  {
    var newNext := f.next;
    var cellVal := ctx.grid[f.cell.r][f.cell.c];
    if cellVal == f.next {
      if f.next == ctx.end {
        if |f.visited| == ctx.area - 1 {
          return Finish(f.path + [f.cell]);
        }
        return Prune;
      }
      newNext := newNext + 1;
    } else if cellVal != 0 {
      return Prune;
    }
    var newPath := f.path + [f.cell];
    var newVisited := f.visited + {f.cell};
    if newNext in ctx.positions {
      var t := ctx.positions[newNext];
      var dist := Abs(f.cell.r - t.r) + Abs(f.cell.c - t.c);
      var remaining := ctx.area - |newVisited|;
      if dist > remaining {
        return Prune;
      }
    } else if v != Production {
      return MissingTarget(newNext);
    }
    if v != V2 {
      var ok := IsConnected(ctx.grid, ctx.nb, f.cell, newNext, newVisited);
      if !ok {
        return Prune;
      }
    }
    return Expand(Children(ctx.nb[f.cell], newNext, newPath, newVisited));
  }

  // ---------------------------------------------------------------------
  // Soundness: children keep the frame invariant; a finish is a solution
  // ---------------------------------------------------------------------

  /** A frame whose cell is new has one more cell to go than it has path. */
  lemma FrameCount(ctx: Context, f: Frame)
    requires ContextOk(ctx) && FrameOk(ctx, f) && f.cell !in f.visited
    ensures |f.visited| == |f.path| && |f.path| + 1 <= ctx.area
  {
    var p := f.path + [f.cell];
    assert Distinct(p) by {
      forall i, j | 0 <= i < j < |p| ensures p[i] != p[j] {
        if j == |f.path| {
          assert p[i] in f.visited;
        }
      }
    }
    assert AllIn(|ctx.grid|, p);
    DistinctCard(f.path);
    DistinctCard(p);
    BoundedByBoard(|ctx.grid|, SetOf(p));
  }

  lemma RangeSnoc(lo: int, hi: int)
    requires lo <= hi
    ensures Range(lo, hi) + [hi] == Range(lo, hi + 1)
  {
  }

  /** The target counter after the popped cell: one more on the label due, unchanged on 0. */
  function NewNext(ctx: Context, f: Frame): int
    requires ContextOk(ctx) && InBounds(|ctx.grid|, f.cell)
  {
    if Label(ctx.grid, f.cell) == f.next then f.next + 1 else f.next
  }

  /** An expanded frame had its label due (and not the last) or unlabelled, and
      pushes one child per neighbour, all sharing the new counter, path and visited set. */
  lemma ExpandShape(v: Variant, ctx: Context, f: Frame)
    requires ContextOk(ctx) && InBounds(|ctx.grid|, f.cell)
    requires Step(v, ctx, f).Expand?
    ensures var val := Label(ctx.grid, f.cell);
      (val == f.next && f.next != ctx.end) || (val == 0 && val != f.next)
    ensures Step(v, ctx, f).children == Children(ctx.nb[f.cell], NewNext(ctx, f), f.path + [f.cell], f.visited + {f.cell})
  {
  }

  /** `new_path = path + [(r, c)]` and `new_visited = visited | {(r, c)}` keep the
      frame invariant's promises about the path. */
  lemma ExtendedPath(ctx: Context, f: Frame)
    requires ContextOk(ctx) && FrameOk(ctx, f) && f.cell !in f.visited
    requires var val := Label(ctx.grid, f.cell); val == f.next || val == 0
    ensures var np := f.path + [f.cell];
      && AllIn(|ctx.grid|, np) && Distinct(np) && SetOf(np) == f.visited + {f.cell}
      && IsTrail(ctx.walls, np) && np[0] == Home(ctx)
      && ctx.start <= NewNext(ctx, f) <= ctx.end + 1
      && Labels(ctx.grid, np) == Range(ctx.start, NewNext(ctx, f))
  {
    FreshCellExtends(f.path, f.cell);
    TrailExtends(ctx.walls, f.path, f.cell);
    LabelsExtend(ctx.grid, f.path, f.cell, ctx.start, f.next);
  }

  /** `path + [(r, c)]` of a fresh frame, as a progress message carries it, is a
      trail of distinct board cells from `positions[start]`. */
  lemma ProgressPath(ctx: Context, f: Frame)
    requires ContextOk(ctx) && FrameOk(ctx, f) && f.cell !in f.visited
    ensures IsPartialTrail(ctx.grid, ctx.walls, Home(ctx), f.path + [f.cell])
  {
    FreshCellExtends(f.path, f.cell);
    TrailExtends(ctx.walls, f.path, f.cell);
  }

  /** Appending a cell not yet on a distinct path keeps it distinct and adds the cell to its set. */
  lemma FreshCellExtends(p: seq<Cell>, x: Cell)
    requires Distinct(p) && x !in SetOf(p)
    ensures Distinct(p + [x]) && SetOf(p + [x]) == SetOf(p) + {x}
  {
    var np := p + [x];
    forall i, j | 0 <= i < j < |np| ensures np[i] != np[j] {
      if j == |p| {
        assert np[i] in SetOf(p);
      }
    }
  }

  /** Appending a cell linked to the last one keeps a trail a trail. */
  lemma TrailExtends(walls: seq<Wall>, p: seq<Cell>, x: Cell)
    requires IsTrail(walls, p) && (p != [] ==> Link(walls, p[|p| - 1], x))
    ensures IsTrail(walls, p + [x])
  {
    var np := p + [x];
    forall i | 0 < i < |np| ensures LinkAt(walls, np, i) {
      if i < |p| {
        assert LinkAt(walls, p, i);
      }
    }
  }

  /** Appending the cell labelled `next` (or an unlabelled one) to a path whose
      labels are `start, ..., next - 1` gives the labels up to the new counter. */
  lemma LabelsExtend(grid: Board, p: seq<Cell>, x: Cell, start: int, next: int)
    requires IsSquare(grid) && AllIn(|grid|, p) && InBounds(|grid|, x) && 1 <= start <= next
    requires Labels(grid, p) == Range(start, next)
    requires Label(grid, x) == next || Label(grid, x) == 0
    ensures Labels(grid, p + [x]) == Range(start, if Label(grid, x) == next then next + 1 else next)
  {
    var np := p + [x];
    assert np[..|np| - 1] == p;
    if Label(grid, x) == next {
      RangeSnoc(start, next);
    }
  }

  /** Every pushed child satisfies the frame invariant. */
  lemma ChildrenOk(v: Variant, ctx: Context, f: Frame)
    requires ContextOk(ctx) && FrameOk(ctx, f) && f.cell !in f.visited
    requires Step(v, ctx, f).Expand?
    ensures forall i :: 0 <= i < |Step(v, ctx, f).children| ==> FrameOk(ctx, Step(v, ctx, f).children[i])
  {
    ExpandShape(v, ctx, f);
    ExtendedPath(ctx, f);
    ChildFrames(ctx, f, Step(v, ctx, f).children);
  }

  lemma ChildFrames(ctx: Context, f: Frame, kids: seq<Frame>)
    requires ContextOk(ctx) && FrameOk(ctx, f)
    requires var np := f.path + [f.cell];
      && AllIn(|ctx.grid|, np) && Distinct(np) && SetOf(np) == f.visited + {f.cell}
      && IsTrail(ctx.walls, np) && np[0] == Home(ctx)
      && ctx.start <= NewNext(ctx, f) <= ctx.end
      && Labels(ctx.grid, np) == Range(ctx.start, NewNext(ctx, f))
    requires kids == Children(ctx.nb[f.cell], NewNext(ctx, f), f.path + [f.cell], f.visited + {f.cell})
    ensures forall i :: 0 <= i < |kids| ==> FrameOk(ctx, kids[i])
  {
    forall i | 0 <= i < |kids| ensures FrameOk(ctx, kids[i]) {
      var z := ctx.nb[f.cell][i];
      assert kids[i].cell == z;
      assert IsNeighbor(|ctx.grid|, ctx.walls, f.cell, z);
    }
  }

  /** Labels met along a solution are increasing, so no label occurs twice on it. */
  predicate Increasing(s: seq<int>) {
    forall a, b :: 0 <= a < b < |s| ==> s[a] < s[b]
  }

  lemma {:induction false} LabelsOnce(grid: Board, p: seq<Cell>)
    requires IsSquare(grid) && AllIn(|grid|, p) && Increasing(Labels(grid, p))
    ensures forall i, j :: 0 <= i < j < |p| && Label(grid, p[i]) != 0 ==> Label(grid, p[i]) != Label(grid, p[j])
  {
    if p != [] {
      var q := p[..|p| - 1];
      var lp, lq := Labels(grid, p), Labels(grid, q);
      assert Label(grid, p[|p| - 1]) != 0 ==> lp == lq + [Label(grid, p[|p| - 1])];
      assert Label(grid, p[|p| - 1]) == 0 ==> lp == lq;
      assert Increasing(lq) by {
        forall a, b | 0 <= a < b < |lq| ensures lq[a] < lq[b] {
          assert lq[a] == lp[a] && lq[b] == lp[b];
        }
      }
      LabelsOnce(grid, q);
      LabelsMembers(grid, q);
      forall i, j | 0 <= i < j < |p| && Label(grid, p[i]) != 0 ensures Label(grid, p[i]) != Label(grid, p[j]) {
        assert p[i] == q[i];
        if j < |q| {
          assert p[j] == q[j];
        } else if Label(grid, p[j]) != 0 {
          assert lp == lq + [Label(grid, p[j])];
          assert Label(grid, q[i]) in lq;
          var m :| 0 <= m < |lq| && lq[m] == Label(grid, q[i]);
          assert lp[m] < lp[|lq|];
        }
      }
    }
  }

  /** A board that has a solution carries each label on one cell only. */
  lemma SolutionLabelsDistinct(grid: Board, walls: seq<Wall>, start: int, end: int, sol: seq<Cell>)
    requires IsSolution(grid, walls, start, end, sol)
    ensures DistinctLabels(grid)
  {
    var n := |grid|;
    LabelsOnce(grid, sol);
    forall a, b | InBounds(n, a) && InBounds(n, b) && a != b && Label(grid, a) != 0
      ensures Label(grid, a) != Label(grid, b)
    {
      var i :| 0 <= i < |sol| && sol[i] == a;
      var j :| 0 <= j < |sol| && sol[j] == b;
      if j < i && Label(grid, b) != 0 {
        assert Label(grid, sol[j]) != Label(grid, sol[i]);
      }
    }
  }

  /** A reported finish is a solution, from `positions[start]` to `positions[end]`. */
  lemma FinishSound(v: Variant, ctx: Context, f: Frame)
    requires ContextOk(ctx) && FrameOk(ctx, f) && f.cell !in f.visited
    requires Step(v, ctx, f).Finish?
    ensures Solves(ctx, Step(v, ctx, f).solution)
    ensures var sol := Step(v, ctx, f).solution;
      sol[0] == Home(ctx) && ctx.end in ctx.positions && sol[|sol| - 1] == ctx.positions[ctx.end]
  {
    assert Label(ctx.grid, f.cell) == f.next == ctx.end && |f.visited| == ctx.area - 1;
    CompletedPath(ctx, f);
  }

  /** The path completed on the last label with every other cell visited is a solution. */
  lemma CompletedPath(ctx: Context, f: Frame)
    requires ContextOk(ctx) && FrameOk(ctx, f) && f.cell !in f.visited
    requires Label(ctx.grid, f.cell) == f.next == ctx.end && |f.visited| == ctx.area - 1
    ensures var sol := f.path + [f.cell];
      && Solves(ctx, sol)
      && sol[0] == Home(ctx) && ctx.end in ctx.positions && sol[|sol| - 1] == ctx.positions[ctx.end]
  {
    var sol := f.path + [f.cell];
    assert Solves(ctx, sol) by {
      ExtendedPath(ctx, f);
      FrameCount(ctx, f);
      FullPathCovers(|ctx.grid|, sol);
    }
    assert sol[0] == Home(ctx) by {
      ExtendedPath(ctx, f);
    }
    SolutionLabelsDistinct(ctx.grid, ctx.walls, ctx.start, ctx.end, sol);
    PositionsUnique(ctx.grid, ctx.positions, sol[|sol| - 1]);
  }

  /** Every label from `start` to `end` is on a board that has a solution. */
  lemma SolutionHasLabels(ctx: Context, sol: seq<Cell>, l: int)
    requires ContextOk(ctx) && Solves(ctx, sol) && ctx.start <= l <= ctx.end
    ensures l in ctx.positions
  {
    LabelsMembers(ctx.grid, sol);
    assert Range(ctx.start, ctx.end + 1)[l - ctx.start] == l;
    assert l in Labels(ctx.grid, sol);
    var k :| 0 <= k < |sol| && Label(ctx.grid, sol[k]) == l;
  }

  /** A solution is as long as the board: `len(solution) == N * N`. */
  lemma SolutionLength(ctx: Context, sol: seq<Cell>)
    requires ContextOk(ctx) && Solves(ctx, sol)
    ensures |sol| == ctx.area
  {
    CoveringPathLength(|ctx.grid|, sol);
  }

  /** A missing target label is one no solution can do without. */
  lemma MissingSound(v: Variant, ctx: Context, f: Frame)
    requires ContextOk(ctx) && FrameOk(ctx, f)
    requires Step(v, ctx, f).MissingTarget?
    ensures var l := Step(v, ctx, f).target; l !in ctx.positions && ctx.start <= l <= ctx.end
    ensures forall sol :: !Solves(ctx, sol)
  {
    var l := Step(v, ctx, f).target;
    assert l !in ctx.positions && ctx.start <= l <= ctx.end;
    forall sol ensures !Solves(ctx, sol) {
      if Solves(ctx, sol) {
        SolutionHasLabels(ctx, sol, l);
      }
    }
  }

  // ---------------------------------------------------------------------
  // Completeness: the frame leading to a solution is never pruned
  // ---------------------------------------------------------------------

  /** Cutting a path around an unlabelled cell splits its labels in two. */
  lemma LabelSplitUnlabelled(grid: Board, p: seq<Cell>, k: int)
    requires IsSquare(grid) && AllIn(|grid|, p) && 0 <= k < |p| && Label(grid, p[k]) == 0
    ensures Labels(grid, p) == Labels(grid, p[..k]) + Labels(grid, p[k + 1..])
  {
    var q := p[..k + 1];
    assert p == q + p[k + 1..];
    LabelsAppend(grid, q, p[k + 1..]);
    assert q[..|q| - 1] == p[..k] && q[|q| - 1] == p[k];
  }

  /** Cutting a path around a labelled cell splits its labels around that label. */
  lemma LabelSplitLabelled(grid: Board, p: seq<Cell>, k: int)
    requires IsSquare(grid) && AllIn(|grid|, p) && 0 <= k < |p| && Label(grid, p[k]) != 0
    ensures Labels(grid, p) == Labels(grid, p[..k]) + [Label(grid, p[k])] + Labels(grid, p[k + 1..])
  {
    var q := p[..k + 1];
    assert p == q + p[k + 1..];
    LabelsAppend(grid, q, p[k + 1..]);
    assert q[..|q| - 1] == p[..k] && q[|q| - 1] == p[k];
  }

  /** A trail of `j - i` moves covers at most Manhattan distance `j - i`. */
  lemma {:induction false} TrailDistance(walls: seq<Wall>, p: seq<Cell>, i: int, j: int)
    requires IsTrail(walls, p) && 0 <= i <= j < |p|
    ensures Dist(p[i], p[j]) <= j - i
    decreases j - i
  {
    if i < j {
      TrailDistance(walls, p, i, j - 1);
      assert LinkAt(walls, p, j);
    }
  }

  /** Along a solution, everything after the current cell is required, and reachable. */
  lemma SuffixReachable(ctx: Context, sol: seq<Cell>, k: int, nn: int)
    requires ContextOk(ctx) && Solves(ctx, sol) && 0 <= k < |sol|
    requires forall t :: k < t < |sol| && Label(ctx.grid, sol[t]) != 0 ==> Label(ctx.grid, sol[t]) >= nn
    ensures AllReachable(ctx.nb, Required(ctx.grid, nn, SetOf(sol[..k + 1])), sol[k])
  {
    SuffixRequired(ctx, sol, k, nn);
    TrailReaches(|ctx.grid|, ctx.walls, ctx.nb, sol, k, Required(ctx.grid, nn, SetOf(sol[..k + 1])));
  }

  /** If the cells of a trail after position `k` are exactly `req`, each of them is reachable from `p[k]`. */
  lemma TrailReaches(n: nat, walls: seq<Wall>, nb: NeighborMapT, p: seq<Cell>, k: int, req: set<Cell>)
    requires NeighborsOk(n, walls, nb) && AllIn(n, p) && IsTrail(walls, p) && 0 <= k < |p|
    requires forall i :: k < i < |p| ==> p[i] in req
    requires forall y :: y in req ==> exists t :: k < t < |p| && p[t] == y
    ensures AllReachable(nb, req, p[k])
  {
    forall y | y in req ensures Reachable(nb, req, p[k], y) {
      var t :| k < t < |p| && p[t] == y;
      var w := p[k..t + 1];
      forall i | 0 < i < |w| ensures StepAt(nb, req, w, i) {
        assert w[i] == p[k + i] && w[i - 1] == p[k + i - 1];
        assert LinkAt(walls, p, k + i);
        assert IsNeighbor(n, walls, w[i - 1], w[i]);
      }
      assert IsWalk(nb, req, p[k], w) && w[|w| - 1] == y;
    }
  }

  /** The required cells are exactly those after position `k` of the solution. */
  lemma SuffixRequired(ctx: Context, sol: seq<Cell>, k: int, nn: int)
    requires ContextOk(ctx) && Solves(ctx, sol) && 0 <= k < |sol|
    requires forall t :: k < t < |sol| && Label(ctx.grid, sol[t]) != 0 ==> Label(ctx.grid, sol[t]) >= nn
    ensures var req := Required(ctx.grid, nn, SetOf(sol[..k + 1]));
      && (forall i :: k < i < |sol| ==> sol[i] in req)
      && (forall y :: y in req ==> exists t :: k < t < |sol| && sol[t] == y)
  {
    var req := Required(ctx.grid, nn, SetOf(sol[..k + 1]));
    forall i | k < i < |sol| ensures sol[i] in req {
      assert sol[i] !in sol[..k + 1];
    }
    forall y | y in req ensures exists t :: k < t < |sol| && sol[t] == y {
      assert forall t :: 0 <= t <= k ==> sol[..k + 1][t] == sol[t];
      var t :| 0 <= t < |sol| && sol[t] == y;
    }
  }

  /** The facts about the labels met along a solution at the cell of a frame
      on the way along it. */
  lemma WitnessLabels(grid: Board, f: Frame, sol: seq<Cell>, start: int, end: int, nn: int)
    requires IsSquare(grid) && AllIn(|grid|, sol) && Witness(f, sol) && |f.path| < |sol| - 1
    requires 1 <= start <= f.next <= end && Label(grid, sol[|sol| - 1]) == end
    requires Labels(grid, sol) == Range(start, end + 1) && Labels(grid, f.path) == Range(start, f.next)
    requires nn == if Label(grid, f.cell) == f.next then f.next + 1 else f.next
    ensures var val := Label(grid, f.cell);
      val == 0 || (val == f.next && f.next != end)
    ensures nn <= end && Labels(grid, sol[|f.path| + 1..]) == Range(nn, end + 1)
  {
    LabelsAhead(grid, sol, |f.path|, start, f.next, end);
  }

  /** Along a path whose labels are `start, ..., end`, with the labels before
      position `k` being `start, ..., next - 1`: the label at `k` is `next` (and
      not the last) or 0, and the labels after `k` are the remaining ones. */
  lemma LabelsAhead(grid: Board, sol: seq<Cell>, k: int, start: int, next: int, end: int)
    requires IsSquare(grid) && AllIn(|grid|, sol) && 0 <= k < |sol| - 1
    requires 1 <= start <= next <= end && Label(grid, sol[|sol| - 1]) == end
    requires Labels(grid, sol) == Range(start, end + 1)
    requires Labels(grid, sol[..k]) == Range(start, next)
    ensures var val := Label(grid, sol[k]);
      val == 0 || (val == next && next != end)
    ensures var nn := if Label(grid, sol[k]) == next then next + 1 else next;
      nn <= end && Labels(grid, sol[k + 1..]) == Range(nn, end + 1)
  {
    var val := Label(grid, sol[k]);
    if val == 0 {
      UnlabelledAhead(grid, sol, k, start, next, end);
    } else {
      LabelledAhead(grid, sol, k, start, next, end);
    }
    LastAhead(grid, sol, k, end);
  }

  lemma UnlabelledAhead(grid: Board, sol: seq<Cell>, k: int, start: int, next: int, end: int)
    requires IsSquare(grid) && AllIn(|grid|, sol) && 0 <= k < |sol| && start <= next <= end
    requires Labels(grid, sol) == Range(start, end + 1)
    requires Labels(grid, sol[..k]) == Range(start, next)
    requires Label(grid, sol[k]) == 0
    ensures Labels(grid, sol[k + 1..]) == Range(next, end + 1)
  {
    var a, c := Labels(grid, sol[..k]), Labels(grid, sol[k + 1..]);
    LabelSplitUnlabelled(grid, sol, k);
    RangeDropPrefix(start, next, end + 1, c);
  }

  lemma LabelledAhead(grid: Board, sol: seq<Cell>, k: int, start: int, next: int, end: int)
    requires IsSquare(grid) && AllIn(|grid|, sol) && 0 <= k < |sol| && start <= next <= end
    requires Labels(grid, sol) == Range(start, end + 1)
    requires Labels(grid, sol[..k]) == Range(start, next)
    requires Label(grid, sol[k]) != 0
    ensures Label(grid, sol[k]) == next && Labels(grid, sol[k + 1..]) == Range(next + 1, end + 1)
  {
    LabelSplitLabelled(grid, sol, k);
    RangeSplitAt(start, next, end + 1, Label(grid, sol[k]), Labels(grid, sol[k + 1..]));
  }

  /** The last label `end` is still ahead of any position but the last. */
  lemma LastAhead(grid: Board, sol: seq<Cell>, k: int, end: int)
    requires IsSquare(grid) && AllIn(|grid|, sol) && 0 <= k < |sol| - 1
    requires Label(grid, sol[|sol| - 1]) == end && end != 0
    ensures end in Labels(grid, sol[k + 1..])
  {
    var rest := sol[k + 1..];
    LabelsMembers(grid, rest);
    assert rest[|rest| - 1] == sol[|sol| - 1];
  }

  /** The frame leading to a solution is never discarded: it either completes the
      solution or pushes a child leading to it (whatever the variant). */
  lemma WitnessProgresses(v: Variant, ctx: Context, f: Frame, sol: seq<Cell>)
    requires ContextOk(ctx) && FrameOk(ctx, f) && Solves(ctx, sol)
    ensures Witness(f, sol) ==> f.cell !in f.visited
    ensures Witness(f, sol) ==>
      || Step(v, ctx, f) == Finish(sol)
      || (Step(v, ctx, f).Expand? &&
          exists j :: 0 <= j < |Step(v, ctx, f).children| && Witness(Step(v, ctx, f).children[j], sol))
  {
    if Witness(f, sol) {
      WitnessFresh(ctx, f, sol);
      SolutionLength(ctx, sol);
      if |f.path| == |sol| - 1 {
        WitnessCompletes(v, ctx, f, sol);
      } else {
        WitnessExpands(v, ctx, f, sol);
      }
    }
  }

  lemma WitnessFresh(ctx: Context, f: Frame, sol: seq<Cell>)
    requires ContextOk(ctx) && FrameOk(ctx, f) && Solves(ctx, sol) && Witness(f, sol)
    ensures f.cell !in f.visited && |f.visited| == |f.path|
  {
    forall i | 0 <= i < |f.path| ensures f.path[i] != f.cell {
      assert f.path[i] == sol[i];
    }
    DistinctCard(f.path);
  }

  /** On the last cell of a solution, the frame finishes with that solution. */
  lemma WitnessCompletes(v: Variant, ctx: Context, f: Frame, sol: seq<Cell>)
    requires ContextOk(ctx) && FrameOk(ctx, f) && Solves(ctx, sol) && Witness(f, sol)
    requires |sol| == ctx.area && |f.path| == |sol| - 1 && |f.visited| == |f.path|
    ensures Step(v, ctx, f) == Finish(sol)
  {
    assert sol == f.path + [f.cell] by {
      WitnessPrefix(f, sol);
    }
    assert Label(ctx.grid, f.cell) == f.next == ctx.end by {
      LastIsEnd(ctx.grid, sol, ctx.start, f.next, ctx.end);
    }
  }

  /** The frame on the way along `sol` has walked exactly its first cells. */
  lemma WitnessPrefix(f: Frame, sol: seq<Cell>)
    requires Witness(f, sol) && f.visited == SetOf(f.path)
    ensures f.path + [f.cell] == sol[..|f.path| + 1]
    ensures SetOf(sol[..|f.path| + 1]) == f.visited + {f.cell}
  {
    assert f.path + [f.cell] == sol[..|f.path| + 1];
  }

  /** When the labels before the last cell are `start, ..., next - 1` and all of
      them are `start, ..., end`, the last cell carries `next`, which is `end`. */
  lemma LastIsEnd(grid: Board, sol: seq<Cell>, start: int, next: int, end: int)
    requires IsSquare(grid) && AllIn(|grid|, sol) && |sol| > 0
    requires 1 <= start <= next <= end && Label(grid, sol[|sol| - 1]) == end
    requires Labels(grid, sol) == Range(start, end + 1)
    requires Labels(grid, sol[..|sol| - 1]) == Range(start, next)
    ensures next == end
  {
    assert Labels(grid, sol) == Range(start, next) + [end];
  }

  /** Before the last cell of a solution, the frame is expanded and one child steps
      onto the next cell of the solution. */
  lemma WitnessExpands(v: Variant, ctx: Context, f: Frame, sol: seq<Cell>)
    requires ContextOk(ctx) && FrameOk(ctx, f) && Solves(ctx, sol) && Witness(f, sol)
    requires |sol| == ctx.area && |f.path| < |sol| - 1 && |f.visited| == |f.path| && f.cell !in f.visited
    ensures Step(v, ctx, f).Expand?
    ensures exists j :: 0 <= j < |Step(v, ctx, f).children| && Witness(Step(v, ctx, f).children[j], sol)
  {
    NoPruneFires(ctx, f, sol);
    StepExpands(v, ctx, f);
    NextChild(ctx, f, sol);
    WitnessPrefix(f, sol);
    var kids := Step(v, ctx, f).children;
    var j :| 0 <= j < |ctx.nb[f.cell]| && ctx.nb[f.cell][j] == sol[|f.path| + 1];
    assert kids[j] == Frame(sol[|f.path| + 1], NewNext(ctx, f), f.path + [f.cell], f.visited + {f.cell});
    assert Witness(kids[j], sol);
  }

  /** On the way along a solution no prune fires: the label is due or 0, the next
      target is in `positions` and within reach, and all required cells are reachable. */
  lemma NoPruneFires(ctx: Context, f: Frame, sol: seq<Cell>)
    requires ContextOk(ctx) && FrameOk(ctx, f) && Solves(ctx, sol) && Witness(f, sol)
    requires |sol| == ctx.area && |f.path| < |sol| - 1 && |f.visited| == |f.path| && f.cell !in f.visited
    ensures var val := Label(ctx.grid, f.cell); val == 0 || (val == f.next && f.next != ctx.end)
    ensures NewNext(ctx, f) in ctx.positions
    ensures Dist(f.cell, ctx.positions[NewNext(ctx, f)]) <= ctx.area - |f.visited + {f.cell}|
    ensures AllReachable(ctx.nb, Required(ctx.grid, NewNext(ctx, f), f.visited + {f.cell}), f.cell)
  {
    WitnessLabels(ctx.grid, f, sol, ctx.start, ctx.end, NewNext(ctx, f));
    TargetWithinReach(ctx, f, sol);
    RestReachable(ctx, f, sol);
  }

  /** The next target is in `positions`, no farther than the cells left to visit. */
  lemma TargetWithinReach(ctx: Context, f: Frame, sol: seq<Cell>)
    requires ContextOk(ctx) && FrameOk(ctx, f) && Solves(ctx, sol) && Witness(f, sol)
    requires |sol| == ctx.area && |f.path| < |sol| - 1 && |f.visited| == |f.path| && f.cell !in f.visited
    ensures NewNext(ctx, f) in ctx.positions
    ensures Dist(f.cell, ctx.positions[NewNext(ctx, f)]) <= ctx.area - |f.visited + {f.cell}|
  {
    TargetWithin(ctx.grid, ctx.walls, ctx.positions, sol, ctx.start, ctx.end, f, NewNext(ctx, f), ctx.area);
  }

  lemma TargetWithin(grid: Board, walls: seq<Wall>, positions: map<int, Cell>, sol: seq<Cell>, start: int, end: int,
                     f: Frame, nn: int, area: int)
    requires IsSolution(grid, walls, start, end, sol) && PositionsOk(grid, positions)
    requires Witness(f, sol) && |f.path| < |sol| - 1 && 1 <= start <= f.next <= end
    requires Labels(grid, f.path) == Range(start, f.next)
    requires nn == if Label(grid, f.cell) == f.next then f.next + 1 else f.next
    requires |sol| == area && |f.visited| == |f.path| && f.cell !in f.visited
    ensures nn in positions && Dist(f.cell, positions[nn]) <= area - |f.visited + {f.cell}|
  {
    WitnessLabels(grid, f, sol, start, end, nn);
    TargetAhead(grid, walls, positions, sol, |f.path|, nn, start, end);
    AddFresh(f.visited, f.cell);
  }

  lemma AddFresh<T>(s: set<T>, x: T)
    requires x !in s
    ensures |s + {x}| == |s| + 1
  {
  }

  /** Every cell the connectivity prune requires is reachable along the rest of the solution. */
  lemma RestReachable(ctx: Context, f: Frame, sol: seq<Cell>)
    requires ContextOk(ctx) && FrameOk(ctx, f) && Solves(ctx, sol) && Witness(f, sol)
    requires |f.path| < |sol| - 1
    ensures AllReachable(ctx.nb, Required(ctx.grid, NewNext(ctx, f), f.visited + {f.cell}), f.cell)
  {
    var k, nn := |f.path|, NewNext(ctx, f);
    WitnessPrefix(f, sol);
    WitnessLabels(ctx.grid, f, sol, ctx.start, ctx.end, nn);
    LabelsAtLeast(ctx.grid, sol, k, nn, ctx.end + 1);
    SuffixReachable(ctx, sol, k, nn);
  }

  /** The cells after position `k` carry no label below `lo`. */
  lemma LabelsAtLeast(grid: Board, sol: seq<Cell>, k: int, lo: int, hi: int)
    requires IsSquare(grid) && AllIn(|grid|, sol) && 0 <= k < |sol|
    requires Labels(grid, sol[k + 1..]) == Range(lo, hi)
    ensures forall t :: k < t < |sol| && Label(grid, sol[t]) != 0 ==> Label(grid, sol[t]) >= lo
  {
    var rest := sol[k + 1..];
    LabelsMembers(grid, rest);
    forall t | k < t < |sol| && Label(grid, sol[t]) != 0 ensures Label(grid, sol[t]) >= lo {
      assert rest[t - k - 1] == sol[t];
    }
  }

  /** The next label due sits on a later cell of the solution, no farther away than the moves left. */
  lemma TargetAhead(grid: Board, walls: seq<Wall>, positions: map<int, Cell>, sol: seq<Cell>, k: int, nn: int,
                    start: int, end: int)
    requires IsSolution(grid, walls, start, end, sol) && PositionsOk(grid, positions)
    requires 0 <= k < |sol| - 1 && nn <= end && Labels(grid, sol[k + 1..]) == Range(nn, end + 1)
    ensures nn in positions && Dist(sol[k], positions[nn]) <= |sol| - k - 1
  {
    SolutionLabelsDistinct(grid, walls, start, end, sol);
    var rest := sol[k + 1..];
    LabelsMembers(grid, rest);
    var ls := Labels(grid, rest);
    assert ls[0] == nn;
    assert nn in ls;
    assert exists t :: 0 <= t < |rest| && Label(grid, rest[t]) == nn;
    var t :| 0 <= t < |rest| && Label(grid, rest[t]) == nn;
    var y := sol[k + 1 + t];
    assert rest[t] == y && Label(grid, y) == nn;
    PositionsUnique(grid, positions, y);
    assert positions[nn] == y;
    TrailDistance(walls, sol, k, k + 1 + t);
    assert Dist(sol[k], y) <= t + 1;
  }

  /** A frame none of whose prunes fires is expanded. */
  lemma StepExpands(v: Variant, ctx: Context, f: Frame)
    requires ContextOk(ctx) && InBounds(|ctx.grid|, f.cell)
    requires var val := Label(ctx.grid, f.cell); val == 0 || (val == f.next && f.next != ctx.end)
    requires NewNext(ctx, f) in ctx.positions
    requires Dist(f.cell, ctx.positions[NewNext(ctx, f)]) <= ctx.area - |f.visited + {f.cell}|
    requires AllReachable(ctx.nb, Required(ctx.grid, NewNext(ctx, f), f.visited + {f.cell}), f.cell)
    ensures Step(v, ctx, f) == Expand(Children(ctx.nb[f.cell], NewNext(ctx, f), f.path + [f.cell], f.visited + {f.cell}))
  {
  }

  /** Among the neighbours of the current cell is the next cell of the solution. */
  lemma NextChild(ctx: Context, f: Frame, sol: seq<Cell>)
    requires ContextOk(ctx) && Solves(ctx, sol) && Witness(f, sol) && |f.path| < |sol| - 1
    ensures exists j :: 0 <= j < |ctx.nb[f.cell]| && ctx.nb[f.cell][j] == sol[|f.path| + 1]
  {
    var k := |f.path|;
    assert LinkAt(ctx.walls, sol, k + 1);
    assert IsNeighbor(|ctx.grid|, ctx.walls, sol[k], sol[k + 1]);
  }

  // ---------------------------------------------------------------------
  // Termination: a child has one more visited cell, and there are at most four
  // ---------------------------------------------------------------------

  function Pow5(k: nat): (p: nat)
    ensures p >= 1
  {
    if k == 0 then 1 else 5 * Pow5(k - 1)
  }

  /** `5 ^ (N * N - len(visited))`: a frame can push at most four children, each with one more visited cell. */
  function FrameWeight(area: int, f: Frame): nat {
    if |f.visited| <= area then Pow5(area - |f.visited|) else 0
  }

  /** The termination measure of the stack loops. */
  function Weight(area: int, s: seq<Frame>): nat {
    if s == [] then 0 else Weight(area, s[..|s| - 1]) + FrameWeight(area, s[|s| - 1])
  }

  lemma {:induction false} WeightAppend(area: int, a: seq<Frame>, b: seq<Frame>)
    ensures Weight(area, a + b) == Weight(area, a) + Weight(area, b)
    decreases |b|
  {
    if b != [] {
      assert (a + b)[..|a + b| - 1] == a + b[..|b| - 1];
      WeightAppend(area, a, b[..|b| - 1]);
    } else {
      assert a + b == a;
    }
  }

  lemma {:induction false} UniformWeight(area: int, kids: seq<Frame>, w: nat)
    requires forall i :: 0 <= i < |kids| ==> FrameWeight(area, kids[i]) == w
    ensures Weight(area, kids) == |kids| * w
  {
    if kids != [] {
      UniformWeight(area, kids[..|kids| - 1], w);
    }
  }

  /** The children of a frame weigh less than the frame. */
  lemma ExpandLighter(v: Variant, ctx: Context, f: Frame)
    requires ContextOk(ctx) && FrameOk(ctx, f) && f.cell !in f.visited
    requires Step(v, ctx, f).Expand?
    ensures Weight(ctx.area, Step(v, ctx, f).children) < FrameWeight(ctx.area, f)
  {
    var kids := Step(v, ctx, f).children;
    ExpandShape(v, ctx, f);
    FrameCount(ctx, f);
    var k: nat := ctx.area - |f.visited| - 1;
    assert |f.visited + {f.cell}| == |f.visited| + 1;
    forall i | 0 <= i < |kids| ensures FrameWeight(ctx.area, kids[i]) == Pow5(k) {
    }
    UniformWeight(ctx.area, kids, Pow5(k));
    FourLess(|kids|, Pow5(k));
  }

  lemma FourLess(a: nat, p: nat)
    requires a <= 4 && p >= 1
    ensures a * p < 5 * p
  {
    if a == 0 {
    } else if a == 1 {
    } else if a == 2 {
    } else if a == 3 {
    }
  }

  // ---------------------------------------------------------------------
  // The loop step, for the three engines
  // ---------------------------------------------------------------------

  /** The first frame `(sr, sc, start, [], set())` satisfies the invariant and
      leads to every solution. */
  lemma InitialOk(ctx: Context)
    requires ContextOk(ctx)
    ensures var f := Frame(Home(ctx), ctx.start, [], {}); FrameOk(ctx, f) && Covers(ctx, [f])
  {
    var f := Frame(Home(ctx), ctx.start, [], {});
    forall sol | Solves(ctx, sol) ensures exists g :: g in [f] && Witness(g, sol) {
      SolutionLabelsDistinct(ctx.grid, ctx.walls, ctx.start, ctx.end, sol);
      PositionsUnique(ctx.grid, ctx.positions, sol[0]);
      assert Witness(f, sol);
    }
  }

  /** Replacing the top frame by what the pop pushes keeps the stack invariant,
      keeps every solution covered, and lowers the weight. */
  lemma PopKeeps(v: Variant, ctx: Context, stack: seq<Frame>, kids: seq<Frame>)
    requires ContextOk(ctx) && stack != [] && StackOk(ctx, stack) && FrameOk(ctx, stack[|stack| - 1])
    requires var f := stack[|stack| - 1];
      || (f.cell in f.visited && kids == [])
      || (f.cell !in f.visited && Step(v, ctx, f) == Prune && kids == [])
      || (f.cell !in f.visited && Step(v, ctx, f) == Expand(kids))
    ensures StackOk(ctx, stack[..|stack| - 1] + kids)
    ensures Covers(ctx, stack) ==> Covers(ctx, stack[..|stack| - 1] + kids)
    ensures Weight(ctx.area, stack[..|stack| - 1] + kids) < Weight(ctx.area, stack)
  {
    var f := stack[|stack| - 1];
    assert f in stack;
    assert (forall i :: 0 <= i < |kids| ==> FrameOk(ctx, kids[i])) && Weight(ctx.area, kids) < FrameWeight(ctx.area, f) by {
      if f.cell !in f.visited && Step(v, ctx, f).Expand? {
        ChildrenOk(v, ctx, f);
        ExpandLighter(v, ctx, f);
      } else {
        assert kids == [];
        BoundedByBoard(|ctx.grid|, f.visited);
      }
    }
    StackReplaceTop(ctx, stack, kids);
    if Covers(ctx, stack) {
      CoversReplaceTop(v, ctx, stack, kids);
    }
  }

  /** Replacing the top frame by frames that keep the invariant and weigh less
      keeps the invariant and lowers the weight of the stack. */
  lemma StackReplaceTop(ctx: Context, stack: seq<Frame>, kids: seq<Frame>)
    requires ContextOk(ctx) && stack != [] && StackOk(ctx, stack)
    requires forall i :: 0 <= i < |kids| ==> FrameOk(ctx, kids[i])
    requires Weight(ctx.area, kids) < FrameWeight(ctx.area, stack[|stack| - 1])
    ensures StackOk(ctx, stack[..|stack| - 1] + kids)
    ensures Weight(ctx.area, stack[..|stack| - 1] + kids) < Weight(ctx.area, stack)
  {
    var rest := stack[..|stack| - 1];
    WeightAppend(ctx.area, rest, kids);
    forall g | g in rest + kids ensures FrameOk(ctx, g) {
      if g in rest {
        assert g in stack;
      } else {
        var i :| 0 <= i < |kids| && kids[i] == g;
      }
    }
  }

  /** Replacing the top frame by what its pop pushes keeps every solution covered. */
  lemma CoversReplaceTop(v: Variant, ctx: Context, stack: seq<Frame>, kids: seq<Frame>)
    requires ContextOk(ctx) && stack != [] && FrameOk(ctx, stack[|stack| - 1]) && Covers(ctx, stack)
    requires var f := stack[|stack| - 1];
      || (f.cell in f.visited && kids == [])
      || (f.cell !in f.visited && Step(v, ctx, f) == Prune && kids == [])
      || (f.cell !in f.visited && Step(v, ctx, f) == Expand(kids))
    ensures Covers(ctx, stack[..|stack| - 1] + kids)
  {
    var f := stack[|stack| - 1];
    var rest := stack[..|stack| - 1];
    assert stack == rest + [f];
    forall sol | Solves(ctx, sol) ensures exists g :: g in rest + kids && Witness(g, sol) {
      var g :| g in stack && Witness(g, sol);
      if g != f {
        assert g in rest;
      } else {
        WitnessProgresses(v, ctx, f, sol);
        var j :| 0 <= j < |kids| && Witness(kids[j], sol);
        assert kids[j] in rest + kids;
      }
    }
  }

  // ---------------------------------------------------------------------
  // The stack loop of the standalone solvers
  // ---------------------------------------------------------------------

  datatype SearchResult = Found(solution: seq<Cell>) | Exhausted | Missing(target: int)

  /** `stack = [(sr, sc, start, [], set())]; while stack: ...; return False`, as in
      zip_solver_v3.solve and zip_solver_v2.solve. */
  method StackSearch(v: Variant, ctx: Context) returns (r: SearchResult)
    requires ContextOk(ctx) && v != Production
    ensures r.Found? || r.Missing? ==> Stopped(ctx, r)
    ensures r.Exhausted? ==> forall sol :: !Solves(ctx, sol)
  {
    InitialOk(ctx);
    var stack := [Frame(Home(ctx), ctx.start, [], {})];
    while stack != []
      invariant StackOk(ctx, stack) && Covers(ctx, stack)
      decreases Weight(ctx.area, stack)
    {
      var stop;
      stack, stop := Pop(v, ctx, stack);
      if stop.Some? {
        return stop.value;
      }
    }
    r := Exhausted;
  }

  /** One iteration of the stack loop: pop the top frame; stop with a solution or
      a missing target, or go on with the stack that keeps the invariant, still
      covers every solution, and weighs less. */
  method Pop(v: Variant, ctx: Context, stack: seq<Frame>) returns (stack': seq<Frame>, stop: Option<SearchResult>)
    requires ContextOk(ctx) && stack != [] && StackOk(ctx, stack) && Covers(ctx, stack)
    ensures stop.None? ==> StackOk(ctx, stack') && Covers(ctx, stack')
    ensures stop.None? ==> Weight(ctx.area, stack') < Weight(ctx.area, stack)
    ensures stop.Some? ==> Stopped(ctx, stop.value)
    ensures stop.Some? && v == Production ==> stop.value.Found?
    ensures stop.Some? ==> stack[|stack| - 1].cell !in stack[|stack| - 1].visited
  {
    var f := stack[|stack| - 1];
    assert f in stack;
    if f.cell in f.visited {
      PopKeeps(v, ctx, stack, []);
      assert stack[..|stack| - 1] + [] == stack[..|stack| - 1];
      return stack[..|stack| - 1], None;
    }
    var o := Examine(v, ctx, f);
    PopCases(v, ctx, stack, o);
    if o.Finish? {
      return stack, Some(Found(o.solution));
    } else if o.MissingTarget? {
      return stack, Some(Missing(o.target));
    } else if o.Expand? {
      return stack[..|stack| - 1] + o.children, None;
    } else {
      return stack[..|stack| - 1], None;
    }
  }

  /** What a search that stops early promises: a solution from `positions[start]`
      to `positions[end]`, or a missing label between them that rules out every solution. */
  ghost predicate Stopped(ctx: Context, r: SearchResult)
    requires ContextOk(ctx)
  {
    match r
    case Found(sol) =>
      Solves(ctx, sol) && sol[0] == Home(ctx) && ctx.end in ctx.positions && sol[|sol| - 1] == ctx.positions[ctx.end]
    case Missing(l) => l !in ctx.positions && ctx.start <= l <= ctx.end && forall sol :: !Solves(ctx, sol)
    case Exhausted => false
  }

  /** The outcome of popping a fresh top frame, case by case. */
  lemma PopCases(v: Variant, ctx: Context, stack: seq<Frame>, o: Outcome)
    requires ContextOk(ctx) && stack != [] && StackOk(ctx, stack) && Covers(ctx, stack)
    requires var f := stack[|stack| - 1]; f.cell !in f.visited && InBounds(|ctx.grid|, f.cell) && o == Step(v, ctx, f)
    ensures o.Finish? ==> Stopped(ctx, Found(o.solution))
    ensures o.MissingTarget? ==> Stopped(ctx, Missing(o.target))
    ensures o.Expand? ==> var s := stack[..|stack| - 1] + o.children;
      StackOk(ctx, s) && Covers(ctx, s) && Weight(ctx.area, s) < Weight(ctx.area, stack)
    ensures o.Prune? ==> var s := stack[..|stack| - 1];
      StackOk(ctx, s) && Covers(ctx, s) && Weight(ctx.area, s) < Weight(ctx.area, stack)
  {
    var f := stack[|stack| - 1];
    assert f in stack;
    match o
    case Finish(_) => FinishSound(v, ctx, f);
    case MissingTarget(_) => MissingSound(v, ctx, f);
    case Expand(kids) => PopKeeps(v, ctx, stack, kids);
    case Prune =>
      PopKeeps(v, ctx, stack, []);
      assert stack[..|stack| - 1] + [] == stack[..|stack| - 1];
  }
}
