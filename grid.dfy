/** The puzzle board: cells, labels, the row-major scan order and the
    label -> cell map (`positions`) that every solver builds first. */
module Grid {

  datatype Option<T> = None | Some(value: T)

  /** A cell `(r, c)`; identity is positional. */
  datatype Cell = Cell(r: int, c: int)

  /** `grid[r][c]` is the label of cell (r, c); 0 means "unconstrained". */
  type Board = seq<seq<int>>

  predicate IsSquare(grid: Board) {
    forall r :: 0 <= r < |grid| ==> |grid[r]| == |grid|
  }

  /** Labels entered in the editor are `int` of a digit string. */
  predicate NonNegative(grid: Board) {
    forall r, c :: 0 <= r < |grid| && 0 <= c < |grid[r]| ==> grid[r][c] >= 0
  }

  predicate InBounds(n: int, x: Cell) {
    0 <= x.r < n && 0 <= x.c < n
  }

  predicate AllIn(n: int, p: seq<Cell>) {
    forall i :: 0 <= i < |p| ==> InBounds(n, p[i])
  }

  predicate Distinct(p: seq<Cell>) {
    forall i, j :: 0 <= i < j < |p| ==> p[i] != p[j]
  }

  function SetOf(p: seq<Cell>): set<Cell> {
    set x | x in p
  }

  function Label(grid: Board, x: Cell): int
    requires IsSquare(grid) && InBounds(|grid|, x)
  {
    grid[x.r][x.c]
  }

  /** Distinct non-zero cells carry distinct labels. */
  ghost predicate DistinctLabels(grid: Board)
    requires IsSquare(grid)
  {
    forall a, b :: InBounds(|grid|, a) && InBounds(|grid|, b) && a != b && Label(grid, a) != 0 ==>
      Label(grid, a) != Label(grid, b)
  }

  function Abs(x: int): nat {
    if x < 0 then -x else x
  }

  /** Manhattan distance `abs(r - tr) + abs(c - tc)`. */
  function Dist(a: Cell, b: Cell): nat {
    Abs(a.r - b.r) + Abs(a.c - b.c)
  }

  predicate Adjacent(a: Cell, b: Cell) {
    Dist(a, b) == 1
  }

  // ---------------------------------------------------------------------
  // Row-major scan order: `for r in range(N) for c in range(N)`
  // ---------------------------------------------------------------------

  function Row(r: int, n: nat): seq<Cell> {
    seq(n, c => Cell(r, c))
  }

  function RowsUpTo(n: nat, rows: nat): seq<Cell> {
    if rows == 0 then [] else RowsUpTo(n, rows - 1) + Row(rows - 1, n)
  }

  function RowMajor(n: nat): seq<Cell> {
    RowsUpTo(n, n)
  }

  /** The first `rows` rows of the scan hold exactly the cells above row `rows`, once each. */
  lemma {:induction false} RowsUpToSpec(n: nat, rows: nat)
    ensures |RowsUpTo(n, rows)| == rows * n
    ensures Distinct(RowsUpTo(n, rows))
    ensures forall x: Cell :: x in RowsUpTo(n, rows) <==> 0 <= x.r < rows && 0 <= x.c < n
  {
    if rows > 0 {
      RowsUpToSpec(n, rows - 1);
      var a, b := RowsUpTo(n, rows - 1), Row(rows - 1, n);
      assert RowsUpTo(n, rows) == a + b;
      assert |a + b| == (rows - 1) * n + n == rows * n;
      forall x: Cell ensures x in a + b <==> 0 <= x.r < rows && 0 <= x.c < n {
        if 0 <= x.r < rows && 0 <= x.c < n && x.r == rows - 1 {
          assert b[x.c] == x;
        }
      }
      forall i, j | 0 <= i < j < |a + b| ensures (a + b)[i] != (a + b)[j] {
        if j >= |a| && i < |a| {
          assert (a + b)[i] in a;
        }
      }
    }
  }

  lemma RowMajorSpec(n: nat)
    ensures |RowMajor(n)| == n * n
    ensures Distinct(RowMajor(n))
    ensures forall x :: x in RowMajor(n) <==> InBounds(n, x)
  {
    RowsUpToSpec(n, n);
  }

  /** All cells of an n x n board. */
  function Cells(n: nat): (s: set<Cell>)
    ensures forall x :: x in s <==> InBounds(n, x)
  {
    RowMajorSpec(n);
    SetOf(RowMajor(n))
  }

  /** A duplicate-free path has as many distinct cells as entries. */
  lemma {:induction false} DistinctCard(p: seq<Cell>)
    requires Distinct(p)
    ensures |SetOf(p)| == |p|
  {
    if p != [] {
      var q := p[..|p| - 1];
      DistinctCard(q);
      assert SetOf(p) == SetOf(q) + {p[|p| - 1]};
      assert p[|p| - 1] !in SetOf(q);
    }
  }

  lemma CellsCard(n: nat)
    ensures |Cells(n)| == n * n
  {
    RowMajorSpec(n);
    DistinctCard(RowMajor(n));
  }

  lemma {:induction false} SubsetCard<T>(a: set<T>, b: set<T>)
    requires a <= b
    ensures |a| <= |b|
    ensures |a| == |b| ==> a == b
    decreases |b|
  {
    if a != {} {
      var x :| x in a;
      SubsetCard(a - {x}, b - {x});
      if |a| == |b| {
        assert a == (a - {x}) + {x} && b == (b - {x}) + {x};
      }
    } else if |b| == 0 {
      assert b == {};
    }
  }

  /** A set of board cells has at most as many elements as the board, and all of
      them only when it holds every cell. */
  lemma BoundedByBoard(n: nat, s: set<Cell>)
    requires forall x :: x in s ==> InBounds(n, x)
    ensures |s| <= n * n
    ensures |s| == n * n ==> forall x :: InBounds(n, x) ==> x in s
  {
    SubsetCard(s, Cells(n));
    CellsCard(n);
  }


  /** A duplicate-free path of board cells as long as the board passes through every cell. */
  lemma FullPathCovers(n: nat, p: seq<Cell>)
    requires AllIn(n, p) && Distinct(p) && |p| == n * n
    ensures forall x :: InBounds(n, x) ==> x in p
  {
    DistinctCard(p);
    BoundedByBoard(n, SetOf(p));
  }

  /** A duplicate-free path through every cell of the board is as long as the board. */
  lemma CoveringPathLength(n: nat, p: seq<Cell>)
    requires AllIn(n, p) && Distinct(p) && forall x :: InBounds(n, x) ==> x in p
    ensures |p| == n * n
  {
    DistinctCard(p);
    assert SetOf(p) == Cells(n);
    CellsCard(n);
  }

  // ---------------------------------------------------------------------
  // Checkpoint labels along a path
  // ---------------------------------------------------------------------

  /** `[lo, lo + 1, ..., hi - 1]`. */
  function Range(lo: int, hi: int): (s: seq<int>)
    ensures |s| == if hi <= lo then 0 else hi - lo
    ensures forall k :: 0 <= k < |s| ==> s[k] == lo + k
  {
    seq(if hi <= lo then 0 else hi - lo, k => lo + k)
  }

  lemma RangeSuffix(lo: int, hi: int, m: int)
    requires lo <= m <= hi
    ensures Range(lo, hi)[m - lo..] == Range(m, hi)
  {
  }

  /** What follows `lo, ..., mid - 1` in `lo, ..., hi - 1` is `mid, ..., hi - 1`. */
  lemma RangeDropPrefix(lo: int, mid: int, hi: int, t: seq<int>)
    requires lo <= mid <= hi && Range(lo, mid) + t == Range(lo, hi)
    ensures t == Range(mid, hi)
  {
    assert t == Range(lo, hi)[mid - lo..];
    RangeSuffix(lo, hi, mid);
  }

  /** A range that starts with `x` is `x` followed by the range after it. */
  lemma RangeCons(lo: int, hi: int, x: int, t: seq<int>)
    requires [x] + t == Range(lo, hi)
    ensures lo < hi && x == lo && t == Range(lo + 1, hi)
  {
    assert ([x] + t)[0] == x;
    assert t == Range(lo, hi)[1..];
    RangeSuffix(lo, hi, lo + 1);
  }

  /** Splitting `lo, ..., hi - 1` after `lo, ..., mid - 1` leaves `mid` and then the rest. */
  lemma RangeSplitAt(lo: int, mid: int, hi: int, x: int, t: seq<int>)
    requires lo <= mid <= hi && Range(lo, mid) + [x] + t == Range(lo, hi)
    ensures x == mid && t == Range(mid + 1, hi)
  {
    RangeDropPrefix(lo, mid, hi, [x] + t);
    RangeCons(mid, hi, x, t);
  }

  /** The non-zero labels met along `p`, in path order. */
  function Labels(grid: Board, p: seq<Cell>): seq<int>
    requires IsSquare(grid) && AllIn(|grid|, p)
  {
    if p == [] then []
    else if Label(grid, p[|p| - 1]) != 0 then Labels(grid, p[..|p| - 1]) + [Label(grid, p[|p| - 1])]
    else Labels(grid, p[..|p| - 1])
  }

  lemma {:induction false} LabelsAppend(grid: Board, p: seq<Cell>, q: seq<Cell>)
    requires IsSquare(grid) && AllIn(|grid|, p) && AllIn(|grid|, q)
    ensures AllIn(|grid|, p + q)
    ensures Labels(grid, p + q) == Labels(grid, p) + Labels(grid, q)
    decreases |q|
  {
    if q != [] {
      var q' := q[..|q| - 1];
      assert (p + q)[..|p + q| - 1] == p + q';
      LabelsAppend(grid, p, q');
    } else {
      assert p + q == p;
    }
  }

  /** Every label in `Labels(grid, p)` is the non-zero label of a cell of `p`, and conversely. */
  lemma {:induction false} LabelsMembers(grid: Board, p: seq<Cell>)
    requires IsSquare(grid) && AllIn(|grid|, p)
    ensures forall k :: 0 <= k < |p| && Label(grid, p[k]) != 0 ==> Label(grid, p[k]) in Labels(grid, p)
    ensures forall l :: l in Labels(grid, p) ==> l != 0 && exists k :: 0 <= k < |p| && Label(grid, p[k]) == l
  {
    if p != [] {
      var q := p[..|p| - 1];
      LabelsMembers(grid, q);
      forall l | l in Labels(grid, p) ensures l != 0 && exists k :: 0 <= k < |p| && Label(grid, p[k]) == l {
        if l in Labels(grid, q) {
          var k :| 0 <= k < |q| && Label(grid, q[k]) == l;
          assert p[k] == q[k];
        } else {
          assert Label(grid, p[|p| - 1]) == l;
        }
      }
      forall k | 0 <= k < |p| && Label(grid, p[k]) != 0 ensures Label(grid, p[k]) in Labels(grid, p) {
        if k < |q| {
          assert p[k] == q[k];
        }
      }
    }
  }

  // ---------------------------------------------------------------------
  // positions = {grid[r][c]: (r, c) for r in range(N) for c in range(N) if grid[r][c] != 0}
  // ---------------------------------------------------------------------

  /** The dict comprehension over `cells` in order: a later cell overwrites an earlier one with the same label. */
  function PositionsOf(grid: Board, cells: seq<Cell>): (m: map<int, Cell>)
    requires IsSquare(grid) && AllIn(|grid|, cells)
    ensures forall l :: l in m ==> m[l] in cells && Label(grid, m[l]) == l && l != 0
  {
    if cells == [] then map[]
    else
      var m := PositionsOf(grid, cells[..|cells| - 1]);
      var x := cells[|cells| - 1];
      if Label(grid, x) != 0 then m[Label(grid, x) := x] else m
  }

  /** The keys of `positions` are exactly the non-zero labels the cells carry. */
  lemma {:induction false} PositionsKeys(grid: Board, cells: seq<Cell>)
    requires IsSquare(grid) && AllIn(|grid|, cells)
    ensures forall l :: l in PositionsOf(grid, cells) <==> l in Labels(grid, cells)
  {
    if cells != [] {
      PositionsKeys(grid, cells[..|cells| - 1]);
    }
  }

  function Positions(grid: Board): (m: map<int, Cell>)
    requires IsSquare(grid)
    ensures forall l :: l in m ==> InBounds(|grid|, m[l]) && Label(grid, m[l]) == l && l != 0
  {
    RowMajorSpec(|grid|);
    PositionsOf(grid, RowMajor(|grid|))
  }

  /** The non-zero labels of the board in row-major order. */
  function BoardLabels(grid: Board): seq<int>
    requires IsSquare(grid)
  {
    RowMajorSpec(|grid|);
    Labels(grid, RowMajor(|grid|))
  }

  /** What `positions` promises: each key is a non-zero label carried by the
      cell it maps to, and every non-zero label on the board is a key. */
  ghost predicate PositionsOk(grid: Board, m: map<int, Cell>)
    requires IsSquare(grid)
  {
    && (forall l :: l in m ==> InBounds(|grid|, m[l]) && Label(grid, m[l]) == l && l != 0)
    && (forall x :: InBounds(|grid|, x) && Label(grid, x) != 0 ==> Label(grid, x) in m)
  }

  /** `positions` maps each label on the board to a cell that carries it, and to nothing else. */
  lemma PositionsSpec(grid: Board)
    requires IsSquare(grid)
    ensures PositionsOk(grid, Positions(grid))
    ensures forall l :: l in Positions(grid) <==> l in BoardLabels(grid)
  {
    var n := |grid|;
    RowMajorSpec(n);
    var cells := RowMajor(n);
    PositionsKeys(grid, cells);
    LabelsMembers(grid, cells);
    forall x | InBounds(n, x) && Label(grid, x) != 0 ensures Label(grid, x) in Positions(grid) {
      var k :| 0 <= k < |cells| && cells[k] == x;
    }
  }

  /** When labels are distinct, `positions[l]` is the one cell labelled `l`. */
  lemma PositionsUnique(grid: Board, m: map<int, Cell>, x: Cell)
    requires IsSquare(grid) && PositionsOk(grid, m) && DistinctLabels(grid)
    requires InBounds(|grid|, x) && Label(grid, x) != 0
    ensures Label(grid, x) in m && m[Label(grid, x)] == x
  {
  }

  // ---------------------------------------------------------------------
  // min / max
  // ---------------------------------------------------------------------

  function SeqMin(s: seq<int>): (m: int)
    requires s != []
    ensures m in s && forall k :: 0 <= k < |s| ==> m <= s[k]
  {
    if |s| == 1 then s[0]
    else
      var m := SeqMin(s[..|s| - 1]);
      if s[|s| - 1] < m then s[|s| - 1] else m
  }

  function SeqMax(s: seq<int>): (m: int)
    requires s != []
    ensures m in s && forall k :: 0 <= k < |s| ==> s[k] <= m
  {
    if |s| == 1 then s[0]
    else
      var m := SeqMax(s[..|s| - 1]);
      if s[|s| - 1] > m then s[|s| - 1] else m
  }

  /** `max([max(row) for row in grid])`: the largest value on a non-empty board, 0 included. */
  function GridMax(grid: Board): (m: int)
    requires IsSquare(grid) && |grid| > 0
    ensures exists x :: InBounds(|grid|, x) && Label(grid, x) == m
    ensures forall x :: InBounds(|grid|, x) ==> Label(grid, x) <= m
  {
    var rowMax := seq(|grid|, r requires 0 <= r < |grid| => SeqMax(grid[r]));
    var m := SeqMax(rowMax);
    assert forall x :: InBounds(|grid|, x) ==> Label(grid, x) <= rowMax[x.r];
    var r :| 0 <= r < |grid| && rowMax[r] == m;
    var c :| 0 <= c < |grid| && grid[r][c] == m;
    assert Label(grid, Cell(r, c)) == m;
    m
  }
}
