/** The game's records (`Word`, `Cell`, `Coordinate`, `Grid`) and the grid
    vocabulary shared by generation, selection and flagging: positions along
    a straight line, and what it means for a string to read along one. */
module Types {
  import opened Strings

  /** A vocabulary entry; `hiragana` is the string hidden in the grid. */
  datatype Word = Word(id: string, hiragana: string, kanji: string, meaning: string)

  /** One grid cell. `ch` is `""` while the cell is blank and one character
      afterwards; the optional `isPartOfWord` flag is `false` when
      absent. */
  datatype Cell = Cell(row: int, col: int, ch: string, id: string, isPartOfWord: bool)

  /** A (row, col) pair; also used for a unit step (dr, dc). */
  datatype Coord = Coord(row: int, col: int)

  type Grid = seq<seq<Cell>>

  /** The React key of the cell at (r, c): `${r}-${c}`. */
  function CellId(r: nat, c: nat): string {
    NatToString(r) + "-" + NatToString(c)
  }

  /** The first '-' of `${r}-${c}` is the one after the row number. */
  lemma SeparatorIndex(a: string, b: string)
    requires forall k :: 0 <= k < |a| ==> IsDigit(a[k])
    ensures IndexOf(a + "-" + b, '-') == |a|
  {
    var s := a + "-" + b;
    assert s[|a|] == '-';
    assert forall k :: 0 <= k < |a| ==> s[k] == a[k];
  }

  /** Cell keys are unique: the '-' separator cannot occur inside a number. */
  lemma CellIdInjective(r1: nat, c1: nat, r2: nat, c2: nat)
    requires CellId(r1, c1) == CellId(r2, c2)
    ensures r1 == r2 && c1 == c2
  {
    var a1, a2 := NatToString(r1), NatToString(r2);
    var s := CellId(r1, c1);
    SeparatorIndex(a1, NatToString(c1));
    SeparatorIndex(a2, NatToString(c2));
    assert a1 == s[..|a1|] == a2;
    NatToStringInjective(r1, r2);
    assert NatToString(c1) == s[|a1| + 1..] == NatToString(c2);
    NatToStringInjective(c1, c2);
  }

  /** Every row is as long as the grid is tall. */
  predicate IsSquare(g: Grid) {
    forall r :: 0 <= r < |g| ==> |g[r]| == |g|
  }

  /** Every cell records its own position and the key derived from it. */
  predicate WellFormed(g: Grid) {
    && IsSquare(g)
    && forall r, c :: 0 <= r < |g| && 0 <= c < |g| ==>
         g[r][c].row == r && g[r][c].col == c && g[r][c].id == CellId(r, c)
  }

  predicate InGrid(g: Grid, p: Coord) {
    0 <= p.row < |g| && 0 <= p.col < |g[p.row]|
  }

  function CharAt(g: Grid, p: Coord): string
    requires InGrid(g, p)
  {
    g[p.row][p.col].ch
  }

  /** The i-th cell of the line from `origin` with step `dir`:
      (row + dr*i, col + dc*i). */
  function RayCell(origin: Coord, dir: Coord, i: int): Coord {
    Coord(origin.row + dir.row * i, origin.col + dir.col * i)
  }

  /** `w` is spelled out, one character per cell, along the line from
      `origin` with step `dir`, every cell of it inside the grid. */
  predicate ReadsAt(g: Grid, w: string, origin: Coord, dir: Coord) {
    forall i :: 0 <= i < |w| ==>
      InGrid(g, RayCell(origin, dir, i)) && CharAt(g, RayCell(origin, dir, i)) == [w[i]]
  }

  /** `g'` differs from `g` at most in the characters of its cells. */
  predicate SameExceptChars(g: Grid, g': Grid) {
    && |g'| == |g|
    && (forall r :: 0 <= r < |g| ==> |g'[r]| == |g[r]|)
    && forall r, c :: 0 <= r < |g| && 0 <= c < |g[r]| ==>
         g'[r][c] == g[r][c].(ch := g'[r][c].ch)
  }

  /** `g'` differs from `g` at most in the found flags of its cells. */
  predicate SameExceptFlags(g: Grid, g': Grid) {
    && |g'| == |g|
    && (forall r :: 0 <= r < |g| ==> |g'[r]| == |g[r]|)
    && forall r, c :: 0 <= r < |g| && 0 <= c < |g[r]| ==>
         g'[r][c] == g[r][c].(isPartOfWord := g'[r][c].isPartOfWord)
  }

  /** A string reads the same in two grids that agree on every character. */
  lemma ReadsAtSameChars(g: Grid, g': Grid, w: string, origin: Coord, dir: Coord)
    requires SameExceptFlags(g, g')
    ensures ReadsAt(g, w, origin, dir) <==> ReadsAt(g', w, origin, dir)
  {
    if ReadsAt(g, w, origin, dir) {
      forall i | 0 <= i < |w|
        ensures InGrid(g', RayCell(origin, dir, i)) && CharAt(g', RayCell(origin, dir, i)) == [w[i]]
      {
        var p := RayCell(origin, dir, i);
        assert InGrid(g, p);
        assert g'[p.row][p.col] == g[p.row][p.col].(isPartOfWord := g'[p.row][p.col].isPartOfWord);
      }
    }
    if ReadsAt(g', w, origin, dir) {
      forall i | 0 <= i < |w|
        ensures InGrid(g, RayCell(origin, dir, i)) && CharAt(g, RayCell(origin, dir, i)) == [w[i]]
      {
        var p := RayCell(origin, dir, i);
        assert InGrid(g', p);
        assert g'[p.row][p.col] == g[p.row][p.col].(isPartOfWord := g'[p.row][p.col].isPartOfWord);
      }
    }
  }
}
