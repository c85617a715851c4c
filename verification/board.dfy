/** The board's drag-selection state machine: a press starts a selection
    on one cell, moves re-snap it to the cell under the pointer, and a
    release reads the selected string, checks it forwards and then
    backwards, and clears the selection. Hit-testing is abstracted to the
    cell (or the absence of one) under the pointer. */
module GridBoard {
  import opened Wrappers
  import opened Strings
  import opened Types
  import opened Selection
  import opened App

  datatype BoardState = BoardState(
    isSelecting: bool,
    selectionStart: Option<Coord>,
    selectionEnd: Option<Coord>,
    selectedCells: seq<Coord>)

  /** The board as first rendered: nothing selected. */
  const Idle: BoardState := BoardState(false, None, None, [])

  datatype PointerKind = Mouse | Touch | Pen

  /** Every selected cell and the selection's ends lie on the board, and a
      selection in progress has a start. */
  predicate BoardInv(b: BoardState, size: int) {
    && (forall k :: 0 <= k < |b.selectedCells| ==> InBounds(b.selectedCells[k], size))
    && (b.selectionStart.Some? ==> InBounds(b.selectionStart.value, size))
    && (b.selectionEnd.Some? ==> InBounds(b.selectionEnd.value, size))
    && (b.isSelecting ==> b.selectionStart.Some?)
  }

  /** `handlePointerDown` on cell (r, c): a mouse button other than the
      primary one is ignored; otherwise the selection starts and ends there. */
  function PointerDown(b: BoardState, cell: Coord, button: int, kind: PointerKind): (b': BoardState)
    ensures button != 0 && kind == Mouse ==> b' == b
    ensures !(button != 0 && kind == Mouse) ==>
              b'.isSelecting && b'.selectionStart == Some(cell) && b'.selectionEnd == Some(cell)
              && b'.selectedCells == [cell]
  {
    if button != 0 && kind == Mouse then b
    else BoardState(true, Some(cell), Some(cell), [cell])
  }

  /** `updateSelection`: with a start set, the selection becomes the snapped
      path from the start to `end`, and `end` becomes the selection's end. */
  function UpdateSelection(b: BoardState, end: Coord, size: int): (b': BoardState)
    ensures b.selectionStart.None? ==> b' == b
    ensures b.selectionStart.Some? ==>
              && b'.selectedCells == GetSelectedCells(b.selectionStart.value, end, size)
              && b'.selectionEnd == Some(end)
              && b'.isSelecting == b.isSelecting && b'.selectionStart == b.selectionStart
  {
    match b.selectionStart
    case None => b
    case Some(start) => b.(selectedCells := GetSelectedCells(start, end, size), selectionEnd := Some(end))
  }

  /** The move is ignored: no selection in progress, no cell under the
      pointer, a negative index, or the cell already at the end. */
  predicate IgnoresMove(b: BoardState, hit: Option<Coord>) {
    || !b.isSelecting || b.selectionStart.None?
    || hit.None?
    || hit.value.row < 0 || hit.value.col < 0
    || (b.selectionEnd.Some? && b.selectionEnd.value == hit.value)
  }

  /** `handlePointerMove`, with `hit` the cell under the pointer (its data
      attributes, -1 where one is missing). */
  function PointerMove(b: BoardState, hit: Option<Coord>, size: int): (b': BoardState)
    ensures IgnoresMove(b, hit) ==> b' == b
    ensures !IgnoresMove(b, hit) ==>
              && b'.selectedCells == GetSelectedCells(b.selectionStart.value, hit.value, size)
              && b'.selectionEnd == hit
              && b'.isSelecting && b'.selectionStart == b.selectionStart
  {
    if !b.isSelecting || b.selectionStart.None? then b
    else match hit
      case None => b
      case Some(p) =>
        if p.row >= 0 && p.col >= 0 then
          if b.selectionEnd.None? || p.row != b.selectionEnd.value.row || p.col != b.selectionEnd.value.col then
            UpdateSelection(b, p, size)
          else b
        else b
  }

  /** The outcome of a release: the board, the application state after the
      checks, and the word found, if any. */
  datatype Release = Release(board: BoardState, app: AppState, found: Option<Word>)

  /** A square grid and cells that all lie on it. */
  predicate OnBoard(g: Grid, cells: seq<Coord>) {
    IsSquare(g) && forall k :: 0 <= k < |cells| ==> InBounds(cells[k], |g|)
  }

  /** The string the selection reads in the grid. */
  function SelectedString(g: Grid, cells: seq<Coord>): (s: string)
    requires OnBoard(g, cells)
    ensures (forall k :: 0 <= k < |cells| ==> |CharAt(g, cells[k])| == 1) ==>
              |s| == |cells| && forall k :: 0 <= k < |cells| ==> s[k] == CharAt(g, cells[k])[0]
  {
    GetWordFromCells(g, cells)
  }

  /** `handlePointerUp`: nothing happens unless a selection is in progress;
      then the selected string is checked, its reversal is checked only when
      that finds nothing, and the selection is cleared. */
  function PointerUp(b: BoardState, app: AppState): (res: Release)
    requires IsSquare(app.grid) && BoardInv(b, |app.grid|)
    ensures !b.isSelecting ==> res == Release(b, app, None)
    ensures b.isSelecting ==>
              var s := SelectedString(app.grid, b.selectedCells);
              var forward := HandleWordCheck(app, s);
              && res.board == Idle
              && (forward.matched.Some? ==> res.app == forward.state && res.found == forward.matched)
              && (forward.matched.None? ==>
                    var backward := HandleWordCheck(app, Reverse(s));
                    res.app == backward.state && res.found == backward.matched)
  {
    if !b.isSelecting then Release(b, app, None)
    else
      var s := SelectedString(app.grid, b.selectedCells);
      var first := HandleWordCheck(app, s);
      var second := if first.matched.Some? then first else HandleWordCheck(first.state, Reverse(s));
      Release(BoardState(false, None, None, []), second.state, second.matched)
  }

  /** The idle board satisfies the invariant. */
  lemma IdleInv(size: int)
    ensures BoardInv(Idle, size)
  {
  }

  /** Pressing a board cell keeps the invariant. */
  lemma PointerDownKeepsInv(b: BoardState, cell: Coord, button: int, kind: PointerKind, size: int)
    requires BoardInv(b, size) && InBounds(cell, size)
    ensures BoardInv(PointerDown(b, cell, button, kind), size)
  {
  }

  /** Moving over a board cell (or none) keeps the invariant: the snapped
      walk never leaves the board, and the hit cell, which becomes the
      selection's end, is a cell of the rendered grid. */
  lemma PointerMoveKeepsInv(b: BoardState, hit: Option<Coord>, size: int)
    requires BoardInv(b, size)
    requires hit.Some? ==> hit.value.row < size && hit.value.col < size
    ensures BoardInv(PointerMove(b, hit, size), size)
  {
    if !IgnoresMove(b, hit) {
      var start, end := b.selectionStart.value, hit.value;
      var cells := GetSelectedCells(start, end, size);
      if start == end {
        assert cells == [start];
      }
    }
  }

  /** A release keeps both the board invariant and the application invariant. */
  lemma PointerUpKeepsInv(b: BoardState, app: AppState)
    requires AppInv(app) && BoardInv(b, |app.grid|)
    ensures var res := PointerUp(b, app);
            BoardInv(res.board, |res.app.grid|) && AppInv(res.app)
  {
    if b.isSelecting {
      var s := SelectedString(app.grid, b.selectedCells);
      HandleWordCheckKeepsInv(app, s);
      HandleWordCheckKeepsInv(app, Reverse(s));
    }
  }

  /** A selection laid along a word of the grid, in either direction, finds
      a game word when an unfound one has that reading. */
  lemma ReleaseFindsWord(b: BoardState, app: AppState, w: string, origin: Coord, dir: Coord)
    requires IsSquare(app.grid) && BoardInv(b, |app.grid|) && b.isSelecting
    requires ReadsAt(app.grid, w, origin, dir)
    requires var ray := seq(|w|, k => RayCell(origin, dir, k));
             b.selectedCells == ray || b.selectedCells == Reverse(ray)
    requires exists i :: 0 <= i < |app.gameWords| && IsMatch(app.gameWords[i], w, app.foundWordIds)
    ensures PointerUp(b, app).found.Some?
  {
    var g := app.grid;
    var ray := seq(|w|, k => RayCell(origin, dir, k));
    ReadAlongWord(g, w, origin, dir, ray);
    var s := SelectedString(g, b.selectedCells);
    if b.selectedCells != ray {
      assert forall k :: 0 <= k < |ray| ==> InGrid(g, ray[k]) && |CharAt(g, ray[k])| == 1 by {
        assert forall k :: 0 <= k < |ray| ==> CharAt(g, ray[k]) == [w[k]];
      }
      ReadReversed(g, ray);
      ReverseInvolutive(w);
      assert Reverse(s) == w;
    }
  }
}
