/** `solver_process` of grid_solver.py: the production engine. It builds
    `positions` and the wall-filtered neighbour map, runs the stack search
    with both prunes, reports throttled progress, honours the stop event and
    ends with exactly one terminal message. The message queue is the returned
    sequence `out`; the stop event and the full queue are parameters. */
module SolverProcess {
  import opened Grid
  import opened Adjacency
  import opened Connectivity
  import opened Search

  /** The dictionaries put on `update_queue`. */
  datatype Message =
    | Progress(checked: nat, path: seq<Cell>)          // {"checked": ..., "path": ...}
    | FoundSolution(solution: seq<Cell>, checked: nat) // {"found": True, "solution": ..., "checked": ...}
    | Done(checked: nat, stopped: bool)                // {"done": True, "checked": ...[, "stopped": True]}

  /** `stop_event`: never set, or set from the `k`-th test of the loop condition on
      (counting from 0); once set it stays set. */
  datatype StopEvent = Never | SetAfter(k: nat)

  predicate IsSet(e: StopEvent, polls: nat) {
    e.SetAfter? && e.k <= polls
  }

  // ---------------------------------------------------------------------
  // Progress throttling
  // ---------------------------------------------------------------------

  /** `checked - last_update >= update_interval_checks` fires exactly at the
      multiples of the interval (at every pop when the interval is at most 1). */
  predicate Tick(interval: int, c: nat) {
    interval <= 1 || c % interval == 0
  }

  /** The value of `last_update` once `checked` has reached `c`. */
  function LastTick(interval: int, c: nat): nat {
    if interval <= 1 then c else c - c % interval
  }

  /** The `checked` values carried by the progress messages that reach the queue
      in the first `c` fresh pops: every tick whose non-blocking put does not
      meet a full queue. */
  function Ticks(interval: int, full: set<nat>, c: nat): seq<nat> {
    if c == 0 then []
    else Ticks(interval, full, c - 1) + (if Tick(interval, c) && c !in full then [c] else [])
  }

  /** The progress counts are increasing, and are exactly the ticks up to `c`
      at which the queue accepts. */
  lemma {:induction false} TicksSpec(interval: int, full: set<nat>, c: nat)
    ensures forall t :: t in Ticks(interval, full, c) <==> 1 <= t <= c && Tick(interval, t) && t !in full
    ensures forall i, j :: 0 <= i < j < |Ticks(interval, full, c)| ==> Ticks(interval, full, c)[i] < Ticks(interval, full, c)[j]
  {
    if c > 0 {
      TicksSpec(interval, full, c - 1);
      var t := Ticks(interval, full, c - 1);
      forall i, j | 0 <= i < j < |Ticks(interval, full, c)|
        ensures Ticks(interval, full, c)[i] < Ticks(interval, full, c)[j]
      {
        if j == |t| {
          assert t[i] in t;
        }
      }
    }
  }

  /** One fresh pop moves `last_update` as the source's test and assignment do. */
  lemma TickStep(interval: int, c: nat)
    ensures (c + 1 - LastTick(interval, c) >= interval) <==> Tick(interval, c + 1)
    ensures LastTick(interval, c + 1) == if Tick(interval, c + 1) then c + 1 else LastTick(interval, c)
  {
    if interval > 1 {
      var q, m := c / interval, c % interval;
      assert c == q * interval + m;
      if m + 1 < interval {
        assert c + 1 == q * interval + (m + 1);
        ModOf(c + 1, interval, q, m + 1);
      } else {
        assert c + 1 == (q + 1) * interval;
        ModOf(c + 1, interval, q + 1, 0);
      }
    }
  }

  lemma ModOf(a: int, d: int, q: int, m: int)
    requires d > 0 && a == q * d + m && 0 <= m < d
    ensures a % d == m
  {
    var q', m' := a / d, a % d;
    assert (q - q') * d == m' - m;
    if q > q' {
      MulAtLeast(q - q', d);
    } else if q < q' {
      MulAtLeast(q' - q, d);
    }
  }

  lemma {:induction false} MulAtLeast(k: int, d: int)
    requires k >= 1 && d > 0
    ensures k * d >= d
  {
    if k > 1 {
      MulAtLeast(k - 1, d);
      assert k * d == (k - 1) * d + d;
    }
  }

  /** The `checked` values of a sequence of messages. */
  function Checks(ms: seq<Message>): seq<nat> {
    if ms == [] then [] else Checks(ms[..|ms| - 1]) + [ms[|ms| - 1].checked]
  }

  // ---------------------------------------------------------------------
  // The process
  // ---------------------------------------------------------------------

  /** `start, end = min(positions), max(positions)`. */
  function FirstLabel(grid: Board): (l: int)
    requires IsSquare(grid) && BoardLabels(grid) != []
    ensures l in Positions(grid) && forall k :: k in Positions(grid) ==> l <= k
  {
    PositionsSpec(grid);
    SeqMin(BoardLabels(grid))
  }

  function LastLabel(grid: Board): (l: int)
    requires IsSquare(grid) && BoardLabels(grid) != []
    ensures l in Positions(grid) && forall k :: k in Positions(grid) ==> k <= l
  {
    PositionsSpec(grid);
    SeqMax(BoardLabels(grid))
  }

  /** The puzzle `solver_process` poses: a path through every cell visiting the
      labels from the smallest to the largest, each in turn. */
  ghost predicate Solvable(grid: Board, walls: seq<Wall>)
    requires IsSquare(grid) && BoardLabels(grid) != []
  {
    exists sol :: IsSolution(grid, walls, FirstLabel(grid), LastLabel(grid), sol)
  }

  /** Only the last message is terminal. */
  predicate WellFramed(out: seq<Message>) {
    && out != []
    && !out[|out| - 1].Progress?
    && forall i :: 0 <= i < |out| - 1 ==> out[i].Progress?
  }

  /** The stop event is honoured over `polls` tests of the loop condition: the
      loop is tested no more often than the event allows, `checked` counts at
      most one pop per test, a solution is found on a counted pop, and
      "stopped" is reported exactly when the event was set at the last test. */
  predicate Honours(stop: StopEvent, out: seq<Message>, polls: nat)
    requires out != []
  {
    && out[|out| - 1].checked <= polls
    && (out[|out| - 1].FoundSolution? ==> out[|out| - 1].checked >= 1)
    && (stop.SetAfter? ==> polls <= stop.k)
    && (out[|out| - 1].Done? ==> out[|out| - 1].stopped == IsSet(stop, polls))
  }

  /** What `solver_process` promises about the messages it puts: one terminal
      message last; the progress counts are exactly the accepted ticks; every
      progress path is a trail from the cell of the smallest label; a reported
      solution solves the puzzle from the smallest to the largest label; "done"
      without "stopped" means there is no solution (or no label at all), and
      "stopped" means the stop event was set. On a board with labels the loop
      runs `polls` tests of its condition and honours the stop event; a board
      without labels ends before the loop, whatever the event. */
  ghost predicate ProcessOk(grid: Board, walls: seq<Wall>, interval: int, stop: StopEvent, full: set<nat>,
                            out: seq<Message>, polls: nat)
    requires IsSquare(grid)
  {
    && WellFramed(out)
    && (BoardLabels(grid) == [] ==> out == [Done(0, false)] && polls == 0)
    && (BoardLabels(grid) != [] ==> Honours(stop, out, polls))
    && Checks(out[..|out| - 1]) == Ticks(interval, full, out[|out| - 1].checked)
    && (BoardLabels(grid) != [] ==> forall i :: 0 <= i < |out| - 1 ==>
          IsPartialTrail(grid, walls, Positions(grid)[FirstLabel(grid)], out[i].path))
    && (out[|out| - 1].FoundSolution? ==>
          (BoardLabels(grid) != [] &&
           var sol := out[|out| - 1].solution;
           && IsSolution(grid, walls, FirstLabel(grid), LastLabel(grid), sol)
           && sol[0] == Positions(grid)[FirstLabel(grid)]
           && sol[|sol| - 1] == Positions(grid)[LastLabel(grid)]))
    && (out[|out| - 1].Done? && !out[|out| - 1].stopped ==>
          BoardLabels(grid) == [] || !Solvable(grid, walls))
    && (out[|out| - 1].Done? && out[|out| - 1].stopped ==> stop.SetAfter?)
  }

  /** `solver_process(grid, walls, update_queue, stop_event, update_interval_checks)`:
      `full` holds the `checked` values at which the non-blocking progress put
      finds the queue full. */
  method SolverProcessRun(grid: Board, walls: seq<Wall>, interval: int, stop: StopEvent, full: set<nat>)
    returns (out: seq<Message>, ghost polls: nat)
    requires IsSquare(grid) && NonNegative(grid)
    ensures ProcessOk(grid, walls, interval, stop, full, out, polls)
  {
    var n := |grid|;
    var positions := Positions(grid);
    PositionsSpec(grid);
    if |positions| == 0 {
      out, polls := [Done(0, false)], 0;
      NoLabels(grid, walls, interval, stop, full);
      return;
    }
    assert BoardLabels(grid) != [] by {
      var l :| l in positions;
    }
    var ctx := Setup(grid, walls, positions);
    out, polls := StackLoop(ctx, interval, stop, full);
    Reported(grid, walls, interval, stop, full, ctx, out, polls);
  }

  /** A board without labels reports "done" at once. */
  lemma NoLabels(grid: Board, walls: seq<Wall>, interval: int, stop: StopEvent, full: set<nat>)
    requires IsSquare(grid) && Positions(grid) == map[]
    ensures ProcessOk(grid, walls, interval, stop, full, [Done(0, false)], 0)
  {
    EmptyPositions(grid);
    assert [Done(0, false)][..0] == [];
  }

  /** `not positions` holds exactly on a board without labels. */
  lemma EmptyPositions(grid: Board)
    requires IsSquare(grid)
    ensures Positions(grid) == map[] <==> BoardLabels(grid) == []
  {
    PositionsSpec(grid);
    if BoardLabels(grid) != [] {
      var l := BoardLabels(grid)[0];
      assert l in BoardLabels(grid);
      assert l in Positions(grid);
    }
  }

  /** The guarantees of the stack loop, restated over the board. */
  lemma Reported(grid: Board, walls: seq<Wall>, interval: int, stop: StopEvent, full: set<nat>,
                 ctx: Context, out: seq<Message>, polls: nat)
    requires IsSquare(grid) && BoardLabels(grid) != [] && ContextOk(ctx)
    requires ctx.grid == grid && ctx.walls == walls && ctx.positions == Positions(grid)
    requires ctx.start == FirstLabel(grid) && ctx.end == LastLabel(grid)
    requires WellFramed(out)
    requires Checks(out[..|out| - 1]) == Ticks(interval, full, out[|out| - 1].checked)
    requires forall i :: 0 <= i < |out| - 1 ==> IsPartialTrail(ctx.grid, ctx.walls, Home(ctx), out[i].path)
    requires out[|out| - 1].FoundSolution? ==> Stopped(ctx, Found(out[|out| - 1].solution))
    requires out[|out| - 1].Done? && !out[|out| - 1].stopped ==> forall sol :: !Solves(ctx, sol)
    requires out[|out| - 1].Done? && out[|out| - 1].stopped ==> stop.SetAfter?
    requires Honours(stop, out, polls)
    ensures ProcessOk(grid, walls, interval, stop, full, out, polls)
  {
    if out[|out| - 1].FoundSolution? {
      var sol := out[|out| - 1].solution;
      assert Solves(ctx, sol) && sol[0] == Home(ctx) && sol[|sol| - 1] == ctx.positions[ctx.end];
    }
    if out[|out| - 1].Done? && !out[|out| - 1].stopped {
      forall sol ensures !IsSolution(grid, walls, ctx.start, ctx.end, sol) {
        assert IsSolution(grid, walls, ctx.start, ctx.end, sol) == Solves(ctx, sol);
      }
    }
  }

  /** `start, end = min(positions), max(positions)` and the neighbour map, packed
      as the context of the search. */
  method Setup(grid: Board, walls: seq<Wall>, positions: map<int, Cell>) returns (ctx: Context)
    requires IsSquare(grid) && NonNegative(grid) && BoardLabels(grid) != [] && positions == Positions(grid)
    ensures ContextOk(ctx)
    ensures ctx.grid == grid && ctx.walls == walls && ctx.positions == positions
    ensures ctx.start == FirstLabel(grid) && ctx.end == LastLabel(grid)
  {
    var n := |grid|;
    var start, end := FirstLabel(grid), LastLabel(grid);
    var nb := BuildNeighbors(n, walls);
    NeighborMapOk(n, walls);
    PositionsSpec(grid);
    ctx := Context(grid, walls, nb, positions, start, end, n * n);
    assert start >= 1 by {
      assert Label(grid, positions[start]) == start;
    }
  }

  /** The progress messages sent so far, with the counters that throttle them. */
  ghost predicate ProgressOk(ctx: Context, interval: int, full: set<nat>, checked: nat, lastUpdate: int, progress: seq<Message>)
    requires ContextOk(ctx)
  {
    && lastUpdate == LastTick(interval, checked)
    && (forall i :: 0 <= i < |progress| ==> progress[i].Progress?)
    && Checks(progress) == Ticks(interval, full, checked)
    && (forall i :: 0 <= i < |progress| ==> IsPartialTrail(ctx.grid, ctx.walls, Home(ctx), progress[i].path))
  }

  /** The stack loop of `solver_process` and its terminal message. */
  method StackLoop(ctx: Context, interval: int, stop: StopEvent, full: set<nat>) returns (out: seq<Message>, polls: nat)
    requires ContextOk(ctx)
    ensures WellFramed(out)
    ensures Checks(out[..|out| - 1]) == Ticks(interval, full, out[|out| - 1].checked)
    ensures forall i :: 0 <= i < |out| - 1 ==> IsPartialTrail(ctx.grid, ctx.walls, Home(ctx), out[i].path)
    ensures out[|out| - 1].FoundSolution? ==> Stopped(ctx, Found(out[|out| - 1].solution))
    ensures out[|out| - 1].Done? && !out[|out| - 1].stopped ==> forall sol :: !Solves(ctx, sol)
    ensures out[|out| - 1].Done? && out[|out| - 1].stopped ==> stop.SetAfter?
    ensures Honours(stop, out, polls)
  {
    InitialOk(ctx);
    var stack := [Frame(ctx.positions[ctx.start], ctx.start, [], {})];
    var checked, lastUpdate := 0, 0;
    polls := 0;
    var progress: seq<Message> := [];
    while stack != [] && !IsSet(stop, polls)
      invariant StackOk(ctx, stack) && Covers(ctx, stack)
      invariant ProgressOk(ctx, interval, full, checked, lastUpdate, progress)
      invariant checked <= polls && (stop.SetAfter? ==> polls <= stop.k)
      decreases Weight(ctx.area, stack)
    {
      var f := stack[|stack| - 1];
      assert f in stack;
      polls := polls + 1;
      if f.cell !in f.visited {
        checked, lastUpdate, progress := Count(ctx, interval, full, f, checked, lastUpdate, progress);
      }
      var stopped;
      stack, stopped := Pop(Production, ctx, stack);
      if stopped.Some? {
        out := progress + [FoundSolution(stopped.value.solution, checked)];
        Terminate(ctx, interval, full, checked, lastUpdate, progress, out);
        return;
      }
    }
    out := progress + [Done(checked, IsSet(stop, polls))];
    Terminate(ctx, interval, full, checked, lastUpdate, progress, out);
  }

  /** Appending the terminal message to the progress messages. */
  lemma Terminate(ctx: Context, interval: int, full: set<nat>, checked: nat, lastUpdate: int,
                  progress: seq<Message>, out: seq<Message>)
    requires ContextOk(ctx) && ProgressOk(ctx, interval, full, checked, lastUpdate, progress)
    requires |out| == |progress| + 1 && out[..|progress|] == progress
    requires !out[|progress|].Progress? && out[|progress|].checked == checked
    ensures WellFramed(out)
    ensures Checks(out[..|out| - 1]) == Ticks(interval, full, out[|out| - 1].checked)
    ensures forall i :: 0 <= i < |out| - 1 ==> IsPartialTrail(ctx.grid, ctx.walls, Home(ctx), out[i].path)
  {
    forall i | 0 <= i < |out| - 1 ensures out[i] == progress[i] {
      assert out[..|progress|][i] == out[i];
    }
  }

  /** A stop event set before the first test of the loop condition ends a search
      on a board with labels at once: nothing is popped and only
      `{"done": True, "checked": 0, "stopped": True}` is put. */
  lemma StopBeforeStart(grid: Board, walls: seq<Wall>, interval: int, full: set<nat>, out: seq<Message>, polls: nat)
    requires IsSquare(grid) && BoardLabels(grid) != []
    requires ProcessOk(grid, walls, interval, SetAfter(0), full, out, polls)
    ensures out == [Done(0, true)]
  {
    var last := out[|out| - 1];
    assert polls == 0 && last.checked == 0;
    assert |Checks(out[..|out| - 1])| == 0;
    ChecksLength(out[..|out| - 1]);
    assert out == [last];
  }

  lemma {:induction false} ChecksLength(ms: seq<Message>)
    ensures |Checks(ms)| == |ms|
  {
    if ms != [] {
      ChecksLength(ms[..|ms| - 1]);
    }
  }

  /** `checked += 1` and the throttled, non-blocking progress put for a fresh popped frame. */
  method Count(ctx: Context, interval: int, full: set<nat>, f: Frame, checked: nat, lastUpdate: int, progress: seq<Message>)
    returns (checked': nat, lastUpdate': int, progress': seq<Message>)
    requires ContextOk(ctx) && FrameOk(ctx, f) && f.cell !in f.visited
    requires ProgressOk(ctx, interval, full, checked, lastUpdate, progress)
    ensures ProgressOk(ctx, interval, full, checked', lastUpdate', progress')
    ensures checked' == checked + 1
  {
    TickStep(interval, checked);
    checked', lastUpdate', progress' := checked + 1, lastUpdate, progress;
    if checked' - lastUpdate' >= interval {
      if checked' !in full {
        ProgressPath(ctx, f);
        progress' := progress' + [Progress(checked', f.path + [f.cell])];
        assert progress'[..|progress'| - 1] == progress;
      }
      lastUpdate' := checked';
    }
  }
}
