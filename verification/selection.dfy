/** Selection geometry: a drag from `start` to `end` snaps to one of the
    eight compass steps and walks `max(|dx|, |dy|)` steps from `start`,
    stopping at the grid edge; the selected string is the characters along
    that path. */
module Selection {
  import opened Strings
  import opened Types
  import opened GridGenerator

  function Abs(x: int): nat {
    if x < 0 then -x else x
  }

  function Sign(x: int): int {
    if x > 0 then 1 else if x < 0 then -1 else 0
  }

  function Max(a: int, b: int): int {
    if a >= b then a else b
  }

  /** The unit steps of the eight octants, counter-clockwise in screen
      terms from east: E, SE, S, SW, W, NW, N, NE, as (dr, dc). */
  const CompassSteps: seq<Coord> := [
    Coord(0, 1), Coord(1, 1), Coord(1, 0), Coord(1, -1),
    Coord(0, -1), Coord(-1, -1), Coord(-1, 0), Coord(-1, 1)
  ]

  /** The drag is less than 67.5 degrees away from the horizontal axis, so
      it moves along columns: (|dx|+|dy|)^2 > 2|dy|^2. */
  predicate MovesColumns(dx: int, dy: int) {
    2 * Abs(dy) * Abs(dy) < (Abs(dx) + Abs(dy)) * (Abs(dx) + Abs(dy))
  }

  /** The drag is less than 67.5 degrees away from the vertical axis, so it
      moves along rows. */
  predicate MovesRows(dx: int, dy: int) {
    2 * Abs(dx) * Abs(dx) < (Abs(dx) + Abs(dy)) * (Abs(dx) + Abs(dy))
  }

  /** The octant of the drag vector, the exact-integer counterpart of
      rounding `8 * atan2(dy, dx) / 2pi` (mod 8): no integer vector lies on
      an octant boundary. */
  function Octant(dx: int, dy: int): (o: nat)
    requires dx != 0 || dy != 0
    ensures o < |CompassSteps|
  {
    if !MovesRows(dx, dy) then (if dx > 0 then 0 else 4)
    else if !MovesColumns(dx, dy) then (if dy > 0 then 2 else 6)
    else if dy > 0 then (if dx > 0 then 1 else 3)
    else (if dx > 0 then 7 else 5)
  }

  /** A non-zero drag moves along rows or along columns (or both). */
  lemma MovesSomewhere(dx: int, dy: int)
    requires dx != 0 || dy != 0
    ensures MovesRows(dx, dy) || MovesColumns(dx, dy)
    ensures MovesColumns(dx, dy) ==> dx != 0
    ensures MovesRows(dx, dy) ==> dy != 0
  {
    if dx == 0 {
      VerticalDrag(dx, dy);
    } else if dy == 0 {
      HorizontalDrag(dx, dy);
    } else {
      ObliqueDrag(dx, dy);
    }
  }

  /** A drag off both axes is within 67.5 degrees of at least one of them. */
  lemma ObliqueDrag(dx: int, dy: int)
    requires dx != 0 && dy != 0
    ensures MovesRows(dx, dy) || MovesColumns(dx, dy)
  {
    var a, b := Abs(dx), Abs(dy);
    if a >= b {
      WiderSquare(a, b);
    } else {
      WiderSquare(b, a);
      assert (b + a) * (b + a) == (a + b) * (a + b);
    }
  }

  /** With `a >= b > 0`: 2b^2 < (a+b)^2. */
  lemma WiderSquare(a: int, b: int)
    requires a >= b > 0
    ensures 2 * b * b < (a + b) * (a + b)
  {
    var d := a - b;
    assert (a + b) * (a + b) == (2 * b + d) * (2 * b + d);
    assert (2 * b + d) * (2 * b + d) == 4 * (b * b) + 4 * (b * d) + d * d;
    assert b * d >= 0 && d * d >= 0 && b * b > 0;
    assert 2 * b * b == 2 * (b * b);
  }

  /** The compass step of a drag: each axis moves in the drag's direction
      exactly when the drag is within 67.5 degrees of that axis. */
  function SnapStep(dx: int, dy: int): (step: Coord)
    requires dx != 0 || dy != 0
    ensures step in CompassSteps
    ensures step.row == (if MovesRows(dx, dy) then Sign(dy) else 0)
    ensures step.col == (if MovesColumns(dx, dy) then Sign(dx) else 0)
  {
    MovesSomewhere(dx, dy);
    CompassSteps[Octant(dx, dy)]
  }

  /** A purely vertical drag moves along rows only. */
  lemma VerticalDrag(dx: int, dy: int)
    requires dx == 0 && dy != 0
    ensures MovesRows(dx, dy) && !MovesColumns(dx, dy)
  {
    var b := Abs(dy);
    assert b * b > 0;
    assert 2 * b * b == 2 * (b * b);
  }

  /** A purely horizontal drag moves along columns only. */
  lemma HorizontalDrag(dx: int, dy: int)
    requires dy == 0 && dx != 0
    ensures MovesColumns(dx, dy) && !MovesRows(dx, dy)
  {
    var a := Abs(dx);
    assert a * a > 0;
    assert 2 * a * a == 2 * (a * a);
  }

  /** A 45-degree drag moves along both axes. */
  lemma DiagonalDrag(dx: int, dy: int)
    requires dx != 0 && Abs(dx) == Abs(dy)
    ensures MovesColumns(dx, dy) && MovesRows(dx, dy)
  {
    var a := Abs(dx);
    assert a * a > 0;
    assert (a + a) * (a + a) == 4 * (a * a);
    assert 2 * a * a == 2 * (a * a);
  }

  /** Drags along a row, a column or a 45-degree diagonal snap to exactly
      their own direction. */
  lemma SnapStepStraight(dx: int, dy: int)
    requires dx != 0 || dy != 0
    requires dx == 0 || dy == 0 || Abs(dx) == Abs(dy)
    ensures SnapStep(dx, dy) == Coord(Sign(dy), Sign(dx))
  {
    if dx == 0 {
      VerticalDrag(dx, dy);
    } else if dy == 0 {
      HorizontalDrag(dx, dy);
    } else {
      DiagonalDrag(dx, dy);
    }
  }

  predicate InBounds(p: Coord, size: int) {
    0 <= p.row < size && 0 <= p.col < size
  }

  /** The walk from step `i` to step `steps` along `dir`, stopping before the
      first cell outside the grid. */
  function Walk(start: Coord, dir: Coord, steps: int, size: int, i: int): (cells: seq<Coord>)
    requires 0 <= i
    ensures |cells| <= Max(steps + 1 - i, 0)
    ensures forall k :: 0 <= k < |cells| ==> cells[k] == RayCell(start, dir, i + k) && InBounds(cells[k], size)
    ensures |cells| < steps + 1 - i ==> !InBounds(RayCell(start, dir, i + |cells|), size)
    decreases steps + 1 - i
  {
    if i > steps then []
    else if InBounds(RayCell(start, dir, i), size) then [RayCell(start, dir, i)] + Walk(start, dir, steps, size, i + 1)
    else []
  }

  /** `getSelectedCells`: a press and release on the same cell selects that
      cell; otherwise the snapped walk of `max(|dx|, |dy|)` steps. */
  function GetSelectedCells(start: Coord, end: Coord, size: int): (cells: seq<Coord>)
    ensures start == end ==> cells == [start]
    ensures start != end ==>
              var dx, dy := end.col - start.col, end.row - start.row;
              var step := SnapStep(dx, dy);
              && step != Coord(0, 0)
              && |cells| <= Max(Abs(dx), Abs(dy)) + 1
              && (forall k :: 0 <= k < |cells| ==> cells[k] == RayCell(start, step, k) && InBounds(cells[k], size))
              && (|cells| <= Max(Abs(dx), Abs(dy)) ==> !InBounds(RayCell(start, step, |cells|), size))
  {
    var dx, dy := end.col - start.col, end.row - start.row;
    if dx == 0 && dy == 0 then [start]
    else Walk(start, SnapStep(dx, dy), Max(Abs(dx), Abs(dy)), size, 0)
  }

  /** Along one axis, the first `n` unit steps towards an offset of size
      0 or `n` stay between the two ends and the `n`-th step lands on it. */
  lemma AxisSteps(x0: int, d: int, n: int, m: int)
    requires 0 <= m <= n && (d == 0 || Abs(d) == n)
    ensures (x0 <= x0 + Sign(d) * m <= x0 + d) || (x0 + d <= x0 + Sign(d) * m <= x0)
    ensures x0 + Sign(d) * n == x0 + d
  {
  }

  /** Start and end lie on a common row, column or 45-degree diagonal. */
  predicate Straight(start: Coord, end: Coord) {
    var dx, dy := end.col - start.col, end.row - start.row;
    dx == 0 || dy == 0 || Abs(dx) == Abs(dy)
  }

  /** The unit step from `start` towards `end`. */
  function StepTowards(start: Coord, end: Coord): Coord {
    Coord(Sign(end.row - start.row), Sign(end.col - start.col))
  }

  /** The number of steps from `start` to `end`. */
  function Distance(start: Coord, end: Coord): nat {
    Max(Abs(end.col - start.col), Abs(end.row - start.row))
  }

  /** On a straight line between two board cells, every step up to the end
      stays on the board. */
  lemma StraightStaysInBounds(start: Coord, end: Coord, size: int, m: int)
    requires InBounds(start, size) && InBounds(end, size) && Straight(start, end)
    requires 0 <= m
    ensures m <= Distance(start, end) ==> InBounds(RayCell(start, StepTowards(start, end), m), size)
  {
    var dx, dy := end.col - start.col, end.row - start.row;
    var n := Distance(start, end);
    if m <= n {
      AxisSteps(start.row, dy, n, m);
      AxisSteps(start.col, dx, n, m);
    }
  }

  /** On a straight line, the last step lands on the end. */
  lemma StraightReachesEnd(start: Coord, end: Coord)
    requires Straight(start, end)
    ensures RayCell(start, StepTowards(start, end), Distance(start, end)) == end
  {
    var dx, dy := end.col - start.col, end.row - start.row;
    var n := Distance(start, end);
    AxisSteps(start.row, dy, n, n);
    AxisSteps(start.col, dx, n, n);
  }

  /** A straight selection between distinct board cells walks all its
      steps in the direction of the end. */
  lemma StraightSelectionWalk(start: Coord, end: Coord, size: int)
    requires InBounds(start, size) && InBounds(end, size) && Straight(start, end)
    requires start != end
    ensures var cells := GetSelectedCells(start, end, size);
            && |cells| == Distance(start, end) + 1
            && forall k :: 0 <= k < |cells| ==> cells[k] == RayCell(start, StepTowards(start, end), k)
  {
    SnapStepStraight(end.col - start.col, end.row - start.row);
    var cells := GetSelectedCells(start, end, size);
    StraightStaysInBounds(start, end, size, |cells|);
  }

  /** A selection whose start and end lie in the grid on a common row,
      column or 45-degree diagonal is exactly the cells from start to end. */
  lemma StraightSelection(start: Coord, end: Coord, size: int)
    requires InBounds(start, size) && InBounds(end, size) && Straight(start, end)
    ensures var cells := GetSelectedCells(start, end, size);
            && |cells| == Distance(start, end) + 1
            && cells[0] == start && cells[|cells| - 1] == end
            && forall k :: 0 <= k < |cells| ==> cells[k] == RayCell(start, StepTowards(start, end), k)
  {
    if start != end {
      StraightSelectionWalk(start, end, size);
      StraightReachesEnd(start, end);
      assert RayCell(start, StepTowards(start, end), 0) == start;
    }
  }

  /** A straight selection two steps long is its start, the cell between
      and its end. */
  lemma StraightSelectionOfThree(start: Coord, end: Coord, size: int)
    requires InBounds(start, size) && InBounds(end, size) && Straight(start, end)
    requires Distance(start, end) == 2
    ensures GetSelectedCells(start, end, size) == [start, RayCell(start, StepTowards(start, end), 1), end]
  {
    StraightSelection(start, end, size);
  }

  /** The selection of the generator's own test: from (2,1) to (2,3) in a
      5 x 5 grid. */
  lemma SelectionExampleCells(start: Coord, end: Coord, size: int)
    requires start == Coord(2, 1) && end == Coord(2, 3) && size == 5
    ensures GetSelectedCells(start, end, size) == [start, Coord(2, 2), end]
  {
    assert StepTowards(start, end) == Coord(0, 1);
    StraightSelectionOfThree(start, end, size);
  }

  /** `getWordFromCells`: the characters of the cells, in path order. */
  function GetWordFromCells(g: Grid, cells: seq<Coord>): (s: string)
    requires forall k :: 0 <= k < |cells| ==> InGrid(g, cells[k])
    ensures (forall k :: 0 <= k < |cells| ==> |CharAt(g, cells[k])| == 1) ==>
              |s| == |cells| && forall k :: 0 <= k < |cells| ==> s[k] == CharAt(g, cells[k])[0]
  {
    Concat(seq(|cells|, k requires 0 <= k < |cells| => CharAt(g, cells[k])))
  }

  /** Reading the cells where a word is spelled out gives the word back. */
  lemma ReadAlongWord(g: Grid, w: string, origin: Coord, dir: Coord, cells: seq<Coord>)
    requires ReadsAt(g, w, origin, dir)
    requires |cells| == |w| && forall k :: 0 <= k < |cells| ==> cells[k] == RayCell(origin, dir, k)
    ensures GetWordFromCells(g, cells) == w
  {
    var s := GetWordFromCells(g, cells);
    assert forall k :: 0 <= k < |cells| ==> CharAt(g, cells[k]) == [w[k]];
  }

  /** Cells holding one character each read as exactly those characters. */
  lemma WordFromCellsChars(g: Grid, cells: seq<Coord>)
    requires forall k :: 0 <= k < |cells| ==> InGrid(g, cells[k]) && |CharAt(g, cells[k])| == 1
    ensures var s := GetWordFromCells(g, cells);
            |s| == |cells| && forall k :: 0 <= k < |cells| ==> s[k] == CharAt(g, cells[k])[0]
  {
  }

  /** `s` holds the one character of each cell, in path order. */
  predicate SpellsCells(g: Grid, cells: seq<Coord>, s: string) {
    && |s| == |cells|
    && forall k :: 0 <= k < |cells| ==> InGrid(g, cells[k]) && CharAt(g, cells[k]) == [s[k]]
  }

  /** Position by position, the backwards path spells the forward string
      back to front. */
  lemma SpellsReversed(g: Grid, cells: seq<Coord>, rc: seq<Coord>, s: string, t: string)
    requires |rc| == |cells| && forall k :: 0 <= k < |rc| ==> rc[k] == cells[|cells| - 1 - k]
    requires SpellsCells(g, cells, s) && SpellsCells(g, rc, t)
    ensures |t| == |s| && forall k :: 0 <= k < |t| ==> t[k] == s[|s| - 1 - k]
  {
    var n := |cells|;
    forall k | 0 <= k < n
      ensures t[k] == s[n - 1 - k]
    {
      assert CharAt(g, rc[k]) == [t[k]];
      assert CharAt(g, cells[n - 1 - k]) == [s[n - 1 - k]];
    }
  }

  /** One-character cells spell exactly the string read from them. */
  lemma SpellsWordFromCells(g: Grid, cells: seq<Coord>)
    requires forall k :: 0 <= k < |cells| ==> InGrid(g, cells[k]) && |CharAt(g, cells[k])| == 1
    ensures SpellsCells(g, cells, GetWordFromCells(g, cells))
  {
    var s := GetWordFromCells(g, cells);
    WordFromCellsChars(g, cells);
    forall k | 0 <= k < |cells|
      ensures CharAt(g, cells[k]) == [s[k]]
    {
      var c := CharAt(g, cells[k]);
      assert c == [c[0]];
    }
  }

  /** Reading a path backwards gives the reversed string, which is why the
      board also tries the reversed selection. */
  lemma ReadReversed(g: Grid, cells: seq<Coord>)
    requires forall k :: 0 <= k < |cells| ==> InGrid(g, cells[k]) && |CharAt(g, cells[k])| == 1
    ensures GetWordFromCells(g, Reverse(cells)) == Reverse(GetWordFromCells(g, cells))
  {
    var n := |cells|;
    var rc := Reverse(cells);
    forall k | 0 <= k < n
      ensures InGrid(g, rc[k]) && |CharAt(g, rc[k])| == 1
    {
      assert rc[k] == cells[n - 1 - k];
    }
    var s := GetWordFromCells(g, cells);
    var t := GetWordFromCells(g, rc);
    SpellsWordFromCells(g, cells);
    SpellsWordFromCells(g, rc);
    SpellsReversed(g, cells, rc, s, t);
    ReverseByIndex(s, t);
  }

  /** The grid of that test: A, B, C written at (2,1), (2,2), (2,3) of a
      blank 5 x 5 grid. */
  function ExampleGrid(): (g: Grid)
    ensures |g| == 5 && IsSquare(g)
    ensures CharAt(g, Coord(2, 1)) == "A" && CharAt(g, Coord(2, 2)) == "B" && CharAt(g, Coord(2, 3)) == "C"
  {
    var g0 := CreateEmptyGrid(5);
    assert |g0[2]| == 5;
    SetChar(SetChar(SetChar(g0, Coord(2, 1), "A"), Coord(2, 2), "B"), Coord(2, 3), "C")
  }

  /** Cells that spell `s` with one character each read as `s`. */
  lemma ReadSpelled(g: Grid, cells: seq<Coord>, s: string)
    requires SpellsCells(g, cells, s)
    ensures GetWordFromCells(g, cells) == s
  {
    WordFromCellsChars(g, cells);
    var r := GetWordFromCells(g, cells);
    forall k | 0 <= k < |cells|
      ensures r[k] == s[k]
    {
      assert CharAt(g, cells[k]) == [s[k]];
    }
  }

  /** The example grid spells "ABC" from (2,1) to (2,3). */
  lemma ExampleGridSpells(g: Grid, cells: seq<Coord>)
    requires g == ExampleGrid() && cells == [Coord(2, 1), Coord(2, 2), Coord(2, 3)]
    ensures SpellsCells(g, cells, "ABC")
  {
    assert InGrid(g, Coord(2, 1)) && InGrid(g, Coord(2, 2)) && InGrid(g, Coord(2, 3));
  }

  /** Reading that selection in that grid gives "ABC". */
  lemma SelectionExample(start: Coord, end: Coord, size: int)
    requires start == Coord(2, 1) && end == Coord(2, 3) && size == 5
    ensures GetWordFromCells(ExampleGrid(), GetSelectedCells(start, end, size)) == "ABC"
  {
    SelectionExampleCells(start, end, size);
    var g := ExampleGrid();
    var cells := [start, Coord(2, 2), end];
    ExampleGridSpells(g, cells);
    ReadSpelled(g, cells, "ABC");
  }
}
