/** The neighbour map: for every cell, its 4-neighbours in the fixed order
    down, up, right, left, without those outside the board and without those
    behind a wall. */
module Adjacency {
  import opened Grid

  /** A wall `((r1, c1), (r2, c2))`; it blocks the edge in both orientations. */
  type Wall = (Cell, Cell)

  type NeighborMapT = map<Cell, seq<Cell>>

  /** `[(r + 1, c), (r - 1, c), (r, c + 1), (r, c - 1)]`. */
  function Candidates(x: Cell): seq<Cell> {
    [Cell(x.r + 1, x.c), Cell(x.r - 1, x.c), Cell(x.r, x.c + 1), Cell(x.r, x.c - 1)]
  }

  /** Rank of the direction from x to y in the candidate order: 0 down, 1 up, 2 right, 3 left. */
  function Direction(x: Cell, y: Cell): int {
    if y == Cell(x.r + 1, x.c) then 0
    else if y == Cell(x.r - 1, x.c) then 1
    else if y == Cell(x.r, x.c + 1) then 2
    else 3
  }

  /** `s` lists neighbours of x in strictly increasing direction rank. */
  predicate InDirectionOrder(x: Cell, s: seq<Cell>) {
    forall i, j :: 0 <= i < j < |s| ==> Direction(x, s[i]) < Direction(x, s[j])
  }

  predicate Walled(walls: seq<Wall>, a: Cell, b: Cell) {
    (a, b) in walls || (b, a) in walls
  }

  /** `[(nr, nc) for nr, nc in s if 0 <= nr < N and 0 <= nc < N]` */
  function KeepInBounds(n: int, s: seq<Cell>): seq<Cell> {
    if s == [] then []
    else (if InBounds(n, s[0]) then [s[0]] else []) + KeepInBounds(n, s[1..])
  }

  /** `[(nr, nc) for (nr, nc) in s if ((r, c), (nr, nc)) not in walls and ((nr, nc), (r, c)) not in walls]` */
  function KeepUnwalled(walls: seq<Wall>, x: Cell, s: seq<Cell>): seq<Cell> {
    if s == [] then []
    else (if !Walled(walls, x, s[0]) then [s[0]] else []) + KeepUnwalled(walls, x, s[1..])
  }

  function BoundsNeighbors(n: int, x: Cell): seq<Cell> {
    KeepInBounds(n, Candidates(x))
  }

  /** The dict comprehension that starts the neighbour map: board bounds only. */
  function InitialNeighbors(n: nat): NeighborMapT {
    map x | x in Cells(n) :: BoundsNeighbors(n, x)
  }

  /** The finished neighbour map. */
  function NeighborMap(n: nat, walls: seq<Wall>): NeighborMapT {
    map x | x in Cells(n) :: KeepUnwalled(walls, x, BoundsNeighbors(n, x))
  }

  // ---------------------------------------------------------------------
  // Filter lemmas
  // ---------------------------------------------------------------------

  lemma {:induction false} KeepInBoundsSpec(n: int, x: Cell, s: seq<Cell>)
    requires InDirectionOrder(x, s)
    ensures forall y :: y in KeepInBounds(n, s) <==> y in s && InBounds(n, y)
    ensures InDirectionOrder(x, KeepInBounds(n, s))
    ensures |KeepInBounds(n, s)| <= |s|
  {
    if s != [] {
      KeepInBoundsSpec(n, x, s[1..]);
      var t := KeepInBounds(n, s[1..]);
      forall i, j | 0 <= i < j < |KeepInBounds(n, s)|
        ensures Direction(x, KeepInBounds(n, s)[i]) < Direction(x, KeepInBounds(n, s)[j])
      {
        if InBounds(n, s[0]) && i == 0 {
          assert KeepInBounds(n, s)[j] in s[1..];
        }
      }
    }
  }

  lemma {:induction false} KeepUnwalledSpec(walls: seq<Wall>, x: Cell, s: seq<Cell>)
    requires InDirectionOrder(x, s)
    ensures forall y :: y in KeepUnwalled(walls, x, s) <==> y in s && !Walled(walls, x, y)
    ensures InDirectionOrder(x, KeepUnwalled(walls, x, s))
    ensures |KeepUnwalled(walls, x, s)| <= |s|
  {
    if s != [] {
      KeepUnwalledSpec(walls, x, s[1..]);
      forall i, j | 0 <= i < j < |KeepUnwalled(walls, x, s)|
        ensures Direction(x, KeepUnwalled(walls, x, s)[i]) < Direction(x, KeepUnwalled(walls, x, s)[j])
      {
        if !Walled(walls, x, s[0]) && i == 0 {
          assert KeepUnwalled(walls, x, s)[j] in s[1..];
        }
      }
    }
  }

  /** Filtering by the same walls again changes nothing: the per-wall loop of the
      standalone solvers repeats an idempotent pass. */
  lemma {:induction false} KeepUnwalledIdempotent(walls: seq<Wall>, x: Cell, s: seq<Cell>)
    ensures KeepUnwalled(walls, x, KeepUnwalled(walls, x, s)) == KeepUnwalled(walls, x, s)
  {
    if s != [] {
      var t := KeepUnwalled(walls, x, s[1..]);
      KeepUnwalledIdempotent(walls, x, s[1..]);
      if !Walled(walls, x, s[0]) {
        var u := [s[0]] + t;
        assert KeepUnwalled(walls, x, s) == u;
        assert u != [] && u[0] == s[0] && u[1..] == t;
        assert KeepUnwalled(walls, x, u) == [s[0]] + KeepUnwalled(walls, x, t);
      } else {
        assert KeepUnwalled(walls, x, s) == t;
      }
    }
  }

  /** With no walls the filter keeps every entry. */
  lemma {:induction false} KeepUnwalledNoWalls(x: Cell, s: seq<Cell>)
    ensures KeepUnwalled([], x, s) == s
  {
    if s != [] {
      KeepUnwalledNoWalls(x, s[1..]);
    }
  }

  lemma CandidatesSpec(x: Cell)
    ensures InDirectionOrder(x, Candidates(x))
    ensures forall y :: y in Candidates(x) <==> Adjacent(x, y)
  {
  }

  // ---------------------------------------------------------------------
  // What the finished map holds
  // ---------------------------------------------------------------------

  /** One move of the puzzle: to a 4-neighbour not separated by a wall. */
  predicate Link(walls: seq<Wall>, a: Cell, b: Cell) {
    Adjacent(a, b) && !Walled(walls, a, b)
  }

  /** `y` belongs in the neighbour list of `x` on an n x n board. */
  predicate IsNeighbor(n: int, walls: seq<Wall>, x: Cell, y: Cell) {
    InBounds(n, y) && Link(walls, x, y)
  }

  /** What the neighbour map promises: an entry for exactly the board cells, each
      listing exactly its neighbours, at most four. */
  ghost predicate NeighborsOk(n: nat, walls: seq<Wall>, nb: NeighborMapT) {
    && (forall x :: x in nb <==> InBounds(n, x))
    && (forall x, y :: x in nb ==> (y in nb[x] <==> IsNeighbor(n, walls, x, y)))
    && (forall x :: x in nb ==> |nb[x]| <= 4)
  }

  /** Every board cell has an entry; an entry lists exactly the in-bounds,
      Manhattan-adjacent cells not walled off in either orientation, at most four,
      in the order down, up, right, left. */
  lemma NeighborMapSpec(n: nat, walls: seq<Wall>)
    ensures forall x :: x in NeighborMap(n, walls) <==> InBounds(n, x)
    ensures forall x, y :: InBounds(n, x) ==>
      (y in NeighborMap(n, walls)[x] <==> InBounds(n, y) && Adjacent(x, y) && !Walled(walls, x, y))
    ensures forall x :: InBounds(n, x) ==>
      InDirectionOrder(x, NeighborMap(n, walls)[x]) && |NeighborMap(n, walls)[x]| <= 4
  {
    forall x | InBounds(n, x)
      ensures forall y :: y in NeighborMap(n, walls)[x] <==> InBounds(n, y) && Adjacent(x, y) && !Walled(walls, x, y)
      ensures InDirectionOrder(x, NeighborMap(n, walls)[x]) && |NeighborMap(n, walls)[x]| <= 4
    {
      CandidatesSpec(x);
      KeepInBoundsSpec(n, x, Candidates(x));
      KeepUnwalledSpec(walls, x, BoundsNeighbors(n, x));
    }
  }

  /** The finished map keeps the promises of `NeighborsOk`. */
  lemma NeighborMapOk(n: nat, walls: seq<Wall>)
    ensures NeighborsOk(n, walls, NeighborMap(n, walls))
  {
    var nb := NeighborMap(n, walls);
    forall x | x in nb
      ensures forall y :: y in nb[x] <==> IsNeighbor(n, walls, x, y)
      ensures |nb[x]| <= 4
    {
      CandidatesSpec(x);
      KeepInBoundsSpec(n, x, Candidates(x));
      KeepUnwalledSpec(walls, x, BoundsNeighbors(n, x));
    }
  }

  /** Without walls the finished map is the bounds-only map. */
  lemma NoWallsKeepsBounds(n: nat)
    ensures NeighborMap(n, []) == InitialNeighbors(n)
  {
    forall x | x in Cells(n) ensures NeighborMap(n, [])[x] == InitialNeighbors(n)[x] {
      KeepUnwalledNoWalls(x, BoundsNeighbors(n, x));
    }
  }

  // ---------------------------------------------------------------------
  // The loops that build the map
  // ---------------------------------------------------------------------

  /** `for r, c in list(neighbors.keys()): neighbors[(r, c)] = [...]` in grid_solver:
      one filtering pass over the keys in insertion (row-major) order. */
  method BuildNeighbors(n: nat, walls: seq<Wall>) returns (nb: NeighborMapT)
    ensures nb == NeighborMap(n, walls)
  {
    nb := InitialNeighbors(n);
    nb := FilterPass(walls, nb, NeighborMap(n, walls));
  }

  /** `for w in walls: for r, c in neighbors: neighbors[(r, c)] = [...]` in the
      standalone solvers: the same filter (against all walls, not just `w`) run
      once per wall. */
  method BuildNeighborsPerWall(n: nat, walls: seq<Wall>) returns (nb: NeighborMapT)
    ensures nb == NeighborMap(n, walls)
  {
    nb := InitialNeighbors(n);
    for i := 0 to |walls|
      invariant nb == if i == 0 then InitialNeighbors(n) else NeighborMap(n, walls)
    {
      if i > 0 {
        forall x | x in nb ensures KeepUnwalled(walls, x, nb[x]) == NeighborMap(n, walls)[x] {
          KeepUnwalledIdempotent(walls, x, BoundsNeighbors(n, x));
        }
      }
      nb := FilterPass(walls, nb, NeighborMap(n, walls));
    }
    if |walls| == 0 {
      NoWallsKeepsBounds(n);
    }
  }

  /** One pass over the keys, filtering each entry by the walls; `target` is
      what each entry becomes. The entries are independent, so the order of the
      keys (row-major in the source) does not matter. */
  method FilterPass(walls: seq<Wall>, before: NeighborMapT, ghost target: NeighborMapT) returns (nb: NeighborMapT)
    requires target.Keys == before.Keys
    requires forall x :: x in before ==> KeepUnwalled(walls, x, before[x]) == target[x]
    ensures nb == target
  {
    nb := before;
    var todo := before.Keys;
    while todo != {}
      invariant nb.Keys == before.Keys && todo <= before.Keys
      invariant forall x :: x in todo ==> nb[x] == before[x]
      invariant forall x :: x in nb && x !in todo ==> nb[x] == target[x]
      decreases |todo|
    {
      var x :| x in todo;
      nb := nb[x := KeepUnwalled(walls, x, nb[x])];
      todo := todo - {x};
    }
  }
}
