/** The puzzle editor of solvers/grid_maker.py: a square board of labels, a set
    of walls, the selected cell and the digits typed into it so far. Clicks on a
    cell select it; key presses type its label; shift-clicks near an edge toggle
    the wall between two cells. Drawing is not modelled. */
module GridMaker {
  import opened Grid
  import opened Adjacency

  // ---------------------------------------------------------------------
  // Walls
  // ---------------------------------------------------------------------

  /** Python's tuple order on `(r, c)`: by row, then by column. */
  predicate CellLess(a: Cell, b: Cell) {
    a.r < b.r || (a.r == b.r && a.c < b.c)
  }

  /** `if cell1 > cell2: cell1, cell2 = cell2, cell1`. */
  function Normalise(a: Cell, b: Cell): (w: Wall)
    ensures w == (a, b) || w == (b, a)
    ensures a != b ==> CellLess(w.0, w.1)
  {
    if CellLess(b, a) then (b, a) else (a, b)
  }

  /** Every stored wall is a pair of two cells in increasing order. */
  predicate Normalised(walls: set<Wall>) {
    forall w :: w in walls ==> CellLess(w.0, w.1)
  }

  /** `toggle_wall(cell1, cell2)`: nothing for one cell twice; otherwise the
      normalised pair is removed when present and added when absent. */
  function AfterToggle(walls: set<Wall>, a: Cell, b: Cell): (r: set<Wall>)
    ensures a == b ==> r == walls
    ensures a != b ==> forall w :: w in r <==> (w in walls <==> w != Normalise(a, b))
  {
    if a == b then walls
    else if Normalise(a, b) in walls then walls - {Normalise(a, b)}
    else walls + {Normalise(a, b)}
  }

  /** Toggling the same wall twice restores the walls. */
  lemma ToggleTwice(walls: set<Wall>, a: Cell, b: Cell)
    ensures AfterToggle(AfterToggle(walls, a, b), a, b) == walls
  {
    var once := AfterToggle(walls, a, b);
    var twice := AfterToggle(once, a, b);
    forall w ensures w in twice <==> w in walls {
    }
  }

  /** The order in which the two cells are given does not matter. */
  lemma ToggleSymmetric(walls: set<Wall>, a: Cell, b: Cell)
    ensures AfterToggle(walls, a, b) == AfterToggle(walls, b, a)
  {
    assert a != b ==> Normalise(a, b) == Normalise(b, a);
  }

  /** Toggling keeps every stored pair in increasing order. */
  lemma ToggleNormalised(walls: set<Wall>, a: Cell, b: Cell)
    requires Normalised(walls)
    ensures Normalised(AfterToggle(walls, a, b))
  {
  }

  // ---------------------------------------------------------------------
  // The input buffer
  // ---------------------------------------------------------------------

  predicate IsDigitChar(ch: char) {
    '0' <= ch <= '9'
  }

  /** `s.isdigit()` for ASCII text: non-empty, digits only. */
  predicate IsDigits(s: string) {
    |s| > 0 && forall i :: 0 <= i < |s| ==> IsDigitChar(s[i])
  }

  /** The buffer holds digits only (possibly none). */
  predicate DigitsOrEmpty(s: string) {
    forall i :: 0 <= i < |s| ==> IsDigitChar(s[i])
  }

  /** `int(s)` for a string of decimal digits, with 0 for the empty string. */
  function Value(s: string): (v: nat)
    requires DigitsOrEmpty(s)
  {
    if s == [] then 0
    else 10 * Value(s[..|s| - 1]) + (s[|s| - 1] - '0') as nat
  }

  /** Typing one more digit multiplies the value by ten and adds the digit. */
  lemma ValueAppend(s: string, d: char)
    requires DigitsOrEmpty(s) && IsDigitChar(d)
    ensures DigitsOrEmpty(s + [d]) && Value(s + [d]) == 10 * Value(s) + (d - '0') as int
  {
    assert (s + [d])[..|s|] == s;
  }

  /** Deleting the last digit divides the value by ten, rounding down. */
  lemma ValueDropLast(s: string)
    requires DigitsOrEmpty(s) && s != []
    ensures DigitsOrEmpty(s[..|s| - 1]) && Value(s[..|s| - 1]) == Value(s) / 10
  {
    var d := (s[|s| - 1] - '0') as int;
    var p := Value(s[..|s| - 1]);
    assert Value(s) == 10 * p + d && 0 <= d < 10;
    DivTen(p, d);
  }

  lemma DivTen(p: int, d: int)
    requires 0 <= d < 10
    ensures (10 * p + d) / 10 == p
  {
  }

  // ---------------------------------------------------------------------
  // Key presses
  // ---------------------------------------------------------------------

  /** The editor's fields that the handlers read and write. */
  datatype EditorState = EditorState(grid: Board, walls: set<Wall>, selected: Option<Cell>, buffer: string)

  /** What the handlers keep: a square board, the selection on it, a buffer of
      digits that is empty when nothing is selected, and normalised walls. */
  predicate EditorOk(s: EditorState) {
    && IsSquare(s.grid)
    && (s.selected.Some? ==> InBounds(|s.grid|, s.selected.value))
    && DigitsOrEmpty(s.buffer)
    && (s.selected.None? ==> s.buffer == "")
    && Normalised(s.walls)
  }

  /** `grid[r][c] = v`. */
  function SetCell(grid: Board, x: Cell, v: int): (g: Board)
    requires IsSquare(grid) && InBounds(|grid|, x)
    ensures IsSquare(g) && |g| == |grid|
    ensures forall y :: InBounds(|grid|, y) ==> Label(g, y) == if y == x then v else Label(grid, y)
  {
    grid[x.r := grid[x.r][x.c := v]]
  }

  /** `onkey(event)` with `event.key == key`: with a cell selected, a digit
      key is appended to the buffer and the cell takes the buffer's value;
      backspace drops the buffer's last character and the cell takes the value
      of what is left (0 when nothing is); enter ends the selection and clears
      the buffer; any other key, or no selection, changes nothing. */
  function AfterKey(s: EditorState, key: string): (t: EditorState)
    requires EditorOk(s)
  {
    if s.selected.None? then s
    else if IsDigits(key) then
      var buf := s.buffer + key;
      s.(buffer := buf, grid := SetCell(s.grid, s.selected.value, Value(buf)))
    else if key == "backspace" then
      var buf := if s.buffer == [] then [] else s.buffer[..|s.buffer| - 1];
      s.(buffer := buf, grid := SetCell(s.grid, s.selected.value, if buf != [] then Value(buf) else 0))
    else if key == "enter" then
      s.(selected := None, buffer := "")
    else s
  }

  /** Every key press keeps the editor's invariant, leaves the walls alone and
      changes no cell but the selected one. */
  lemma KeyKeepsOk(s: EditorState, key: string)
    requires EditorOk(s)
    ensures EditorOk(AfterKey(s, key))
    ensures AfterKey(s, key).walls == s.walls
    ensures |AfterKey(s, key).grid| == |s.grid|
    ensures forall y :: InBounds(|s.grid|, y) && Some(y) != s.selected ==>
      Label(AfterKey(s, key).grid, y) == Label(s.grid, y)
  {
    if s.selected.Some? && IsDigits(key) {
      assert DigitsOrEmpty(s.buffer + key);
    }
  }

  /** With no cell selected, a key press changes nothing. */
  lemma NoSelectionNoChange(s: EditorState, key: string)
    requires EditorOk(s) && s.selected.None?
    ensures AfterKey(s, key) == s
  {
  }

  /** A digit key puts `10 * int(buffer) + digit` into the selected cell. */
  lemma DigitShiftsValue(s: EditorState, d: char)
    requires EditorOk(s) && s.selected.Some? && IsDigitChar(d)
    ensures var t := AfterKey(s, [d]);
      && t.buffer == s.buffer + [d]
      && Label(t.grid, s.selected.value) == 10 * Value(s.buffer) + (d - '0') as int
  {
    ValueAppend(s.buffer, d);
  }

  /** Backspace after a digit restores the buffer and sets the cell to the value
      it had before the digit was typed. */
  lemma DigitThenBackspace(s: EditorState, d: char)
    requires EditorOk(s) && s.selected.Some? && IsDigitChar(d)
    ensures var t := AfterKey(AfterKey(s, [d]), "backspace");
      && t.buffer == s.buffer && t.selected == s.selected && t.walls == s.walls
      && t.grid == SetCell(s.grid, s.selected.value, Value(s.buffer))
  {
    var x := s.selected.value;
    var t1 := AfterKey(s, [d]);
    assert t1.buffer[..|t1.buffer| - 1] == s.buffer;
    var t := AfterKey(t1, "backspace");
    assert t.grid == SetCell(s.grid, x, Value(s.buffer)) by {
      assert s.buffer == [] ==> Value(s.buffer) == 0;
      assert t1.grid[x.r][x.c := Value(t.buffer)] == s.grid[x.r][x.c := Value(s.buffer)];
    }
  }

  /** Backspace leaves `int(buffer) // 10` in the selected cell. */
  lemma BackspaceDividesByTen(s: EditorState)
    requires EditorOk(s) && s.selected.Some?
    ensures Label(AfterKey(s, "backspace").grid, s.selected.value) == Value(s.buffer) / 10
  {
    if s.buffer != [] {
      ValueDropLast(s.buffer);
    }
  }

  /** Enter ends the selection and leaves the board as it is. */
  lemma EnterFinishes(s: EditorState)
    requires EditorOk(s) && s.selected.Some?
    ensures var t := AfterKey(s, "enter");
      t.selected.None? && t.buffer == "" && t.grid == s.grid && t.walls == s.walls
  {
  }

  // ---------------------------------------------------------------------
  // The editor object
  // ---------------------------------------------------------------------

  class GridEditor {
    const n: int
    var grid: Board
    var walls: set<Wall>
    var selected: Option<Cell>
    var buffer: string

    ghost function State(): EditorState
      reads this
    {
      EditorState(grid, walls, selected, buffer)
    }

    ghost predicate Valid()
      reads this
    {
      EditorOk(State()) && |grid| == if n < 0 then 0 else n
    }

    /** `GridEditor(N)`: an N x N board of zeros, no walls, nothing selected. */
    constructor(n: int)
      ensures Valid() && this.n == n
      ensures grid == seq(if n < 0 then 0 else n, _ => seq(if n < 0 then 0 else n, _ => 0))
      ensures walls == {} && selected == None && buffer == ""
    {
      var size := if n < 0 then 0 else n;
      this.n := n;
      grid := seq(size, _ => seq(size, _ => 0));
      walls := {};
      selected := None;
      buffer := "";
    }

    /** The plain-click branch of `onclick` at cell column `x`, row `y`: a cell on
        the board becomes the selection with an empty buffer. */
    method Click(x: int, y: int)
      modifies this
      requires Valid()
      ensures Valid()
      ensures 0 <= x < n && 0 <= y < n ==> selected == Some(Cell(y, x)) && buffer == ""
      ensures !(0 <= x < n && 0 <= y < n) ==> selected == old(selected) && buffer == old(buffer)
      ensures grid == old(grid) && walls == old(walls)
    {
      if 0 <= x < n && 0 <= y < n {
        selected := Some(Cell(y, x));
        buffer := "";
      }
    }

    /** `toggle_wall(cell1, cell2)`. */
    method ToggleWall(a: Cell, b: Cell)
      modifies this
      requires Valid()
      ensures Valid()
      ensures walls == AfterToggle(old(walls), a, b)
      ensures grid == old(grid) && selected == old(selected) && buffer == old(buffer)
    {
      if a == b {
        return;
      }
      var c1, c2 := a, b;
      if CellLess(c2, c1) {
        c1, c2 := c2, c1;
      }
      if (c1, c2) in walls {
        walls := walls - {(c1, c2)};
      } else {
        walls := walls + {(c1, c2)};
      }
    }

    /** `onkey(event)` with `event.key == key`. */
    method OnKey(key: string)
      modifies this
      requires Valid()
      ensures Valid()
      ensures State() == AfterKey(old(State()), key)
    {
      KeyKeepsOk(State(), key);
      if selected.Some? {
        var x := selected.value;
        if IsDigits(key) {
          buffer := buffer + key;
          grid := grid[x.r := grid[x.r][x.c := Value(buffer)]];
        } else if key == "backspace" {
          buffer := if buffer == [] then [] else buffer[..|buffer| - 1];
          grid := grid[x.r := grid[x.r][x.c := if buffer != [] then Value(buffer) else 0]];
        } else if key == "enter" {
          selected := None;
          buffer := "";
        }
      }
    }
  }
}
