/** The connectivity prune `is_connected`: a breadth-first flood fill from the
    current cell that only steps into `required` cells (unvisited cells whose
    label is 0 or not yet due), passing when it reaches all of them. */
module Connectivity {
  import opened Grid
  import opened Adjacency

  /** `required = {(rr, cc) ... if (rr, cc) not in visited and (grid[rr][cc] == 0 or grid[rr][cc] >= new_next)}` */
  function Required(grid: Board, next: int, visited: set<Cell>): (req: set<Cell>)
    requires IsSquare(grid)
    ensures forall y :: y in req ==> InBounds(|grid|, y)
  {
    set y | y in Cells(|grid|) && y !in visited && (Label(grid, y) == 0 || Label(grid, y) >= next)
  }

  /** `p` starts at `from`; every later cell is in `req` and follows its predecessor in `nb`. */
  ghost predicate IsWalk(nb: NeighborMapT, req: set<Cell>, from: Cell, p: seq<Cell>) {
    && |p| >= 1
    && p[0] == from
    && forall i :: 0 < i < |p| ==> StepAt(nb, req, p, i)
  }

  /** The step into `p[i]` stays in `req` and follows the neighbour map. */
  ghost predicate StepAt(nb: NeighborMapT, req: set<Cell>, p: seq<Cell>, i: int)
    requires 0 < i < |p|
  {
    p[i] in req && p[i - 1] in nb && p[i] in nb[p[i - 1]]
  }

  ghost predicate Reachable(nb: NeighborMapT, req: set<Cell>, from: Cell, y: Cell) {
    exists p :: IsWalk(nb, req, from, p) && p[|p| - 1] == y
  }

  /** What `is_connected` decides: every required cell is reachable from `from` through required cells. */
  ghost predicate AllReachable(nb: NeighborMapT, req: set<Cell>, from: Cell) {
    forall y :: y in req ==> Reachable(nb, req, from, y)
  }

  /** No required neighbour of `w` is missing from `seen`. */
  ghost predicate ClosedAt(nb: NeighborMapT, req: set<Cell>, seen: set<Cell>, w: Cell)
    requires w in nb
  {
    forall z :: z in nb[w] && z in req ==> z in seen
  }

  /** A walk from inside a closed set never leaves it. */
  lemma {:induction false} WalkStaysInside(nb: NeighborMapT, req: set<Cell>, seen: set<Cell>, from: Cell, p: seq<Cell>)
    requires from in seen && IsWalk(nb, req, from, p)
    requires forall w :: w in seen ==> w in nb && ClosedAt(nb, req, seen, w)
    ensures p[|p| - 1] in seen
    decreases |p|
  {
    if |p| > 1 {
      var p' := p[..|p| - 1];
      assert forall k :: 0 < k < |p'| ==> StepAt(nb, req, p, k) ==> StepAt(nb, req, p', k);
      assert IsWalk(nb, req, from, p');
      assert StepAt(nb, req, p, |p| - 1);
      WalkStaysInside(nb, req, seen, from, p');
    }
  }

  lemma ExtendWalk(nb: NeighborMapT, req: set<Cell>, from: Cell, p: seq<Cell>, z: Cell)
    requires IsWalk(nb, req, from, p)
    requires z in req && p[|p| - 1] in nb && z in nb[p[|p| - 1]]
    ensures IsWalk(nb, req, from, p + [z])
  {
    var p' := p + [z];
    assert StepAt(nb, req, p', |p'| - 1);
    forall k | 0 < k < |p| ensures StepAt(nb, req, p', k) {
      assert StepAt(nb, req, p, k);
    }
  }

  /** `is_connected(r, c, new_next, visited)`. */
  method IsConnected(grid: Board, nb: NeighborMapT, from: Cell, next: int, visited: set<Cell>) returns (ok: bool)
    requires IsSquare(grid) && InBounds(|grid|, from)
    requires forall y :: InBounds(|grid|, y) ==> y in nb
    ensures Required(grid, next, visited) == {} ==> ok
    ensures ok <==> AllReachable(nb, Required(grid, next, visited), from)
  {
    var req := Required(grid, next, visited);
    if req == {} {
      return true;
    }
    var seen := Flood(nb, req, from);
    ok := req <= seen;
    if ok {
      forall y | y in req ensures Reachable(nb, req, from, y) {
      }
    } else {
      var y :| y in req && y !in seen;
      if Reachable(nb, req, from, y) {
        var p :| IsWalk(nb, req, from, p) && p[|p| - 1] == y;
        WalkStaysInside(nb, req, seen, from, p);
      }
    }
  }

  /** The state of the flood fill: `seen` holds `from` and required cells only,
      and `walks` records how each seen cell was reached. */
  ghost predicate FloodState(nb: NeighborMapT, req: set<Cell>, from: Cell, seen: set<Cell>, walks: map<Cell, seq<Cell>>) {
    && from in seen && seen <= req + {from}
    && (forall w :: w in seen ==> w in nb)
    && walks.Keys == seen
    && forall w :: w in seen ==> IsWalk(nb, req, from, walks[w]) && walks[w][|walks[w]| - 1] == w
  }

  /** The breadth-first flood fill of `is_connected`: `dq` is the deque, `seen` the
      cells reached; a cell enters `seen` only when it is required. */
  method Flood(nb: NeighborMapT, req: set<Cell>, from: Cell) returns (seen: set<Cell>)
    requires from in nb && forall y :: y in req ==> y in nb
    ensures from in seen && seen <= req + {from}
    ensures forall w :: w in seen ==> w in nb && ClosedAt(nb, req, seen, w)
    ensures forall w :: w in seen ==> Reachable(nb, req, from, w)
  {
    var dq := [from];
    seen := {from};
    ghost var walks: map<Cell, seq<Cell>> := map[from := [from]];
    assert IsWalk(nb, req, from, [from]);
    SubsetCard(seen, req + {from});
    while dq != []
      invariant FloodState(nb, req, from, seen, walks)
      invariant forall z :: z in dq ==> z in seen
      invariant forall w :: w in seen ==> w in dq || ClosedAt(nb, req, seen, w)
      invariant |seen| <= |req + {from}|
      decreases |req + {from}| - |seen|, |dq|
    {
      var y := dq[0];
      ghost var seen0, dq0 := seen, dq;
      dq, seen, walks := VisitNeighbors(nb, req, from, y, dq[1..], seen, walks);
      forall w | w in seen ensures w in dq || ClosedAt(nb, req, seen, w) {
        if w in seen0 && w != y && w !in dq0[1..] {
          assert ClosedAt(nb, req, seen0, w);
        }
      }
      SubsetCard(seen0, seen);
      SubsetCard(seen, req + {from});
    }
    forall w | w in seen ensures Reachable(nb, req, from, w) {
      assert IsWalk(nb, req, from, walks[w]);
    }
  }

  /** `for nr, nc in neighbors[(cr, cc)]: if (nr, nc) in required and (nr, nc) not in seen: ...` */
  method VisitNeighbors(nb: NeighborMapT, req: set<Cell>, from: Cell, y: Cell, dq: seq<Cell>, seen: set<Cell>,
                        ghost walks: map<Cell, seq<Cell>>)
    returns (dq': seq<Cell>, seen': set<Cell>, ghost walks': map<Cell, seq<Cell>>)
    requires forall z :: z in req ==> z in nb
    requires FloodState(nb, req, from, seen, walks) && y in seen
    requires forall z :: z in dq ==> z in seen
    ensures FloodState(nb, req, from, seen', walks')
    ensures seen <= seen' && |dq'| - |dq| == |seen'| - |seen|
    ensures forall z :: z in dq' ==> z in dq || z in seen' - seen
    ensures forall z :: z in dq ==> z in dq'
    ensures forall z :: z in seen' - seen ==> z in dq'
    ensures ClosedAt(nb, req, seen', y)
  {
    dq', seen', walks' := dq, seen, walks;
    var ns := nb[y];
    for i := 0 to |ns|
      invariant FloodState(nb, req, from, seen', walks')
      invariant seen <= seen' && |dq'| - |dq| == |seen'| - |seen|
      invariant forall z :: z in dq' ==> z in dq || z in seen' - seen
      invariant forall z :: z in dq ==> z in dq'
      invariant forall z :: z in seen' - seen ==> z in dq'
      invariant forall j :: 0 <= j < i && ns[j] in req ==> ns[j] in seen'
    {
      var z := ns[i];
      if z in req && z !in seen' {
        ExtendWalk(nb, req, from, walks'[y], z);
        walks' := walks'[z := walks'[y] + [z]];
        seen' := seen' + {z};
        dq' := dq' + [z];
      }
    }
  }
}
