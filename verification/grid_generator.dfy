/** Puzzle generation: the blank grid, the placement rule (a word may cross
    another where the letters agree), greedy placement of a shuffled pool
    with a bounded number of attempts per word, and the final fill of every
    blank cell with a filler hiragana. Every random draw of the generator is
    an explicit argument, so each property below holds for all draws. */
module GridGenerator {
  import opened Wrappers
  import opened Strings
  import opened Types
  import opened Constants

  /** The three axes a word is hidden along: right, down, down-right. */
  const Directions: seq<Coord> := [Coord(0, 1), Coord(1, 0), Coord(1, 1)]

  /** How many random starting points a word gets before it is skipped. */
  const MaxAttempts: nat := 50

  // ---------------------------------------------------------------------
  // createEmptyGrid

  /** A `size` x `size` grid of blank, unflagged cells; no rows at all for a
      size that is not positive. */
  function CreateEmptyGrid(size: int): (g: Grid)
    ensures |g| == if size > 0 then size else 0
    ensures WellFormed(g)
    ensures forall r, c :: 0 <= r < |g| && 0 <= c < |g| ==> g[r][c].ch == "" && !g[r][c].isPartOfWord
    ensures AtMostOneChar(g)
  {
    if size <= 0 then []
    else seq(size, r requires 0 <= r < size => seq(size, c requires 0 <= c < size => Cell(r, c, "", CellId(r, c), false)))
  }

  /** Every cell of a well-formed grid has its own key. */
  lemma CellIdsDistinct(g: Grid, r1: int, c1: int, r2: int, c2: int)
    requires WellFormed(g)
    requires 0 <= r1 < |g| && 0 <= c1 < |g| && 0 <= r2 < |g| && 0 <= c2 < |g|
    ensures g[r1][c1].id == g[r2][c2].id <==> r1 == r2 && c1 == c2
  {
    if g[r1][c1].id == g[r2][c2].id {
      CellIdInjective(r1, c1, r2, c2);
    }
  }

  // ---------------------------------------------------------------------
  // canPlaceWord / placeWord

  /** Letter `i` of `w` may go on the line: its cell is inside the grid and
      is blank or already holds that letter. */
  predicate FitsAt(g: Grid, w: string, origin: Coord, dir: Coord, i: int)
    requires 0 <= i < |w|
  {
    && InGrid(g, RayCell(origin, dir, i))
    && (CharAt(g, RayCell(origin, dir, i)) == "" || CharAt(g, RayCell(origin, dir, i)) == [w[i]])
  }

  /** The placement check from letter `i` on, stopping at the first letter
      that does not fit. */
  function CanPlaceFrom(g: Grid, w: string, origin: Coord, dir: Coord, i: nat): (ok: bool)
    requires IsSquare(g) && i <= |w|
    ensures ok <==> forall j :: i <= j < |w| ==> FitsAt(g, w, origin, dir, j)
    decreases |w| - i
  {
    if i == |w| then true
    else
      var p := RayCell(origin, dir, i);
      if p.row < 0 || p.row >= |g| || p.col < 0 || p.col >= |g| then
        assert !FitsAt(g, w, origin, dir, i);
        false
      else if g[p.row][p.col].ch != "" && g[p.row][p.col].ch != [w[i]] then
        assert !FitsAt(g, w, origin, dir, i);
        false
      else CanPlaceFrom(g, w, origin, dir, i + 1)
  }

  /** `canPlaceWord`: every letter of `w` fits along the line. */
  function CanPlaceWord(g: Grid, w: string, origin: Coord, dir: Coord): (ok: bool)
    requires IsSquare(g)
    ensures ok <==> forall i :: 0 <= i < |w| ==> FitsAt(g, w, origin, dir, i)
    ensures ok ==> forall i :: 0 <= i < |w| ==> InGrid(g, RayCell(origin, dir, i))
  {
    FitsInGrid(g, w, origin, dir);
    CanPlaceFrom(g, w, origin, dir, 0)
  }

  /** A word that fits lies inside the grid. */
  lemma FitsInGrid(g: Grid, w: string, origin: Coord, dir: Coord)
    ensures (forall i :: 0 <= i < |w| ==> FitsAt(g, w, origin, dir, i)) ==>
              forall i :: 0 <= i < |w| ==> InGrid(g, RayCell(origin, dir, i))
  {
    if forall i :: 0 <= i < |w| ==> FitsAt(g, w, origin, dir, i) {
      forall i | 0 <= i < |w|
        ensures InGrid(g, RayCell(origin, dir, i))
      {
        assert FitsAt(g, w, origin, dir, i);
      }
    }
  }

  /** The grid with the character of the cell at `p` replaced. */
  function SetChar(g: Grid, p: Coord, ch: string): (g': Grid)
    requires InGrid(g, p)
    ensures SameExceptChars(g, g')
    ensures forall q :: InGrid(g', q) <==> InGrid(g, q)
    ensures g'[p.row][p.col].ch == ch
    ensures forall r, c :: 0 <= r < |g| && 0 <= c < |g[r]| && (r != p.row || c != p.col) ==> g'[r][c] == g[r][c]
  {
    g[p.row := g[p.row][p.col := g[p.row][p.col].(ch := ch)]]
  }

  /** Every cell is blank or holds a single character. */
  predicate AtMostOneChar(g: Grid) {
    forall r, c :: 0 <= r < |g| && 0 <= c < |g[r]| ==> |g[r][c].ch| <= 1
  }

  /** Letters `i..` of `w` written one after the other along the line. */
  function PlaceFrom(g: Grid, w: string, origin: Coord, dir: Coord, i: nat): (g': Grid)
    requires i <= |w|
    requires forall j :: i <= j < |w| ==> InGrid(g, RayCell(origin, dir, j))
    ensures SameExceptChars(g, g')
    ensures forall q :: InGrid(g', q) <==> InGrid(g, q)
    ensures AtMostOneChar(g) ==> AtMostOneChar(g')
    decreases |w| - i
  {
    if i == |w| then g
    else PlaceFrom(SetChar(g, RayCell(origin, dir, i), [w[i]]), w, origin, dir, i + 1)
  }

  /** Writing letters `i..` changes only cells on the line. */
  lemma {:induction false} PlaceFromOffLine(g: Grid, w: string, origin: Coord, dir: Coord, i: nat, r: int, c: int)
    requires i <= |w|
    requires forall j :: i <= j < |w| ==> InGrid(g, RayCell(origin, dir, j))
    requires 0 <= r < |g| && 0 <= c < |g[r]|
    requires forall j :: i <= j < |w| ==> RayCell(origin, dir, j) != Coord(r, c)
    ensures PlaceFrom(g, w, origin, dir, i)[r][c] == g[r][c]
    decreases |w| - i
  {
    if i < |w| {
      var g1 := SetChar(g, RayCell(origin, dir, i), [w[i]]);
      PlaceFromOffLine(g1, w, origin, dir, i + 1, r, c);
    }
  }

  /** After writing letters `i..`, letter `j` is in its cell unless a later
      letter was written over it. */
  lemma {:induction false} PlaceFromLastWrite(g: Grid, w: string, origin: Coord, dir: Coord, i: nat, j: nat)
    requires i <= j < |w|
    requires forall k :: i <= k < |w| ==> InGrid(g, RayCell(origin, dir, k))
    requires forall k :: j < k < |w| ==> RayCell(origin, dir, k) != RayCell(origin, dir, j)
    ensures CharAt(PlaceFrom(g, w, origin, dir, i), RayCell(origin, dir, j)) == [w[j]]
    decreases |w| - i
  {
    var p := RayCell(origin, dir, i);
    var g1 := SetChar(g, p, [w[i]]);
    if j == i {
      PlaceFromOffLine(g1, w, origin, dir, i + 1, p.row, p.col);
    } else {
      PlaceFromLastWrite(g1, w, origin, dir, i + 1, j);
    }
  }

  /** `placeWord`: writes `w` along the line (each cell of it must exist). */
  function PlaceWord(g: Grid, w: string, origin: Coord, dir: Coord): (g': Grid)
    requires forall i :: 0 <= i < |w| ==> InGrid(g, RayCell(origin, dir, i))
    ensures SameExceptChars(g, g')
    ensures IsSquare(g) ==> IsSquare(g')
    ensures AtMostOneChar(g) ==> AtMostOneChar(g')
  {
    PlaceFrom(g, w, origin, dir, 0)
  }

  /** `placeWord` changes no cell off the line. */
  lemma PlaceWordOffLine(g: Grid, w: string, origin: Coord, dir: Coord, r: int, c: int)
    requires forall i :: 0 <= i < |w| ==> InGrid(g, RayCell(origin, dir, i))
    requires 0 <= r < |g| && 0 <= c < |g[r]|
    requires forall i :: 0 <= i < |w| ==> RayCell(origin, dir, i) != Coord(r, c)
    ensures PlaceWord(g, w, origin, dir)[r][c] == g[r][c]
  {
    PlaceFromOffLine(g, w, origin, dir, 0, r, c);
  }

  /** A line with a non-zero step never visits a cell twice. */
  lemma RayCellInjective(origin: Coord, dir: Coord, i: int, j: int)
    requires dir != Coord(0, 0)
    ensures RayCell(origin, dir, i) == RayCell(origin, dir, j) <==> i == j
  {
    if RayCell(origin, dir, i) == RayCell(origin, dir, j) {
      if dir.row != 0 {
        assert dir.row * i == dir.row * j;
        assert dir.row * (i - j) == 0;
      } else {
        assert dir.col * i == dir.col * j;
        assert dir.col * (i - j) == 0;
      }
    }
  }

  /** `g'` keeps every letter of `g`: same cells apart from characters, and
      only blank cells may have received one. */
  predicate KeepsLetters(g: Grid, g': Grid) {
    && SameExceptChars(g, g')
    && forall r, c :: 0 <= r < |g| && 0 <= c < |g[r]| && g[r][c].ch != "" ==> g'[r][c].ch == g[r][c].ch
  }

  lemma KeepsLettersTransitive(g1: Grid, g2: Grid, g3: Grid)
    requires KeepsLetters(g1, g2) && KeepsLetters(g2, g3)
    ensures KeepsLetters(g1, g3)
  {
    forall r, c | 0 <= r < |g1| && 0 <= c < |g1[r]|
      ensures g3[r][c] == g1[r][c].(ch := g3[r][c].ch)
    {
      assert g2[r][c] == g1[r][c].(ch := g2[r][c].ch);
    }
  }

  /** A word that reads in `g` still reads once more letters are added. */
  lemma ReadsAtKept(g: Grid, g': Grid, w: string, origin: Coord, dir: Coord)
    requires KeepsLetters(g, g')
    requires ReadsAt(g, w, origin, dir)
    ensures ReadsAt(g', w, origin, dir)
  {
    forall i | 0 <= i < |w|
      ensures InGrid(g', RayCell(origin, dir, i)) && CharAt(g', RayCell(origin, dir, i)) == [w[i]]
    {
      var p := RayCell(origin, dir, i);
      assert InGrid(g, p) && g[p.row][p.col].ch == [w[i]];
    }
  }

  /** A placement that passed the check reads along its line, leaves every
      cell off the line alone and overwrites no letter, so words placed
      earlier stay readable. */
  lemma PlaceWordSpec(g: Grid, w: string, origin: Coord, dir: Coord)
    requires IsSquare(g) && dir != Coord(0, 0)
    requires CanPlaceWord(g, w, origin, dir)
    ensures var g' := PlaceWord(g, w, origin, dir);
            && ReadsAt(g', w, origin, dir)
            && KeepsLetters(g, g')
            && IsSquare(g')
  {
    assert forall i :: 0 <= i < |w| ==> FitsAt(g, w, origin, dir, i);
    var g': Grid := PlaceWord(g, w, origin, dir);
    forall i | 0 <= i < |w|
      ensures InGrid(g', RayCell(origin, dir, i)) && CharAt(g', RayCell(origin, dir, i)) == [w[i]]
    {
      forall k | i < k < |w|
        ensures RayCell(origin, dir, k) != RayCell(origin, dir, i)
      {
        RayCellInjective(origin, dir, i, k);
      }
      PlaceFromLastWrite(g, w, origin, dir, 0, i);
    }
    forall r, c | 0 <= r < |g| && 0 <= c < |g[r]| && g[r][c].ch != ""
      ensures g'[r][c].ch == g[r][c].ch
    {
      if i :| 0 <= i < |w| && RayCell(origin, dir, i) == Coord(r, c) {
        assert FitsAt(g, w, origin, dir, i);
      } else {
        PlaceFromOffLine(g, w, origin, dir, 0, r, c);
      }
    }
  }

  // ---------------------------------------------------------------------
  // generateGameGrid

  /** One random draw of the attempt loop: an index into `Directions` and a
      starting cell. */
  datatype Attempt = Attempt(dirIndex: int, row: int, col: int)

  /** A draw the generator can make for a grid of side `size`. */
  predicate ValidAttempt(a: Attempt, size: int) {
    0 <= a.dirIndex < |Directions| && 0 <= a.row < size && 0 <= a.col < size
  }

  predicate HasDirection(a: Attempt) {
    0 <= a.dirIndex < |Directions|
  }

  /** The attempt places `w` in `g`. */
  predicate Fits(g: Grid, w: string, a: Attempt)
    requires IsSquare(g) && HasDirection(a)
  {
    CanPlaceWord(g, w, Coord(a.row, a.col), Directions[a.dirIndex])
  }

  /** The index of the first attempt that places `w`, or `None` when all of
      them fail. */
  function FirstFit(g: Grid, w: string, attempts: seq<Attempt>): (m: Option<nat>)
    requires IsSquare(g)
    requires forall k :: 0 <= k < |attempts| ==> HasDirection(attempts[k])
    ensures m.None? <==> forall k :: 0 <= k < |attempts| ==> !Fits(g, w, attempts[k])
    ensures m.Some? ==> m.value < |attempts| && Fits(g, w, attempts[m.value])
    ensures m.Some? ==> forall k :: 0 <= k < m.value ==> !Fits(g, w, attempts[k])
  {
    if |attempts| == 0 then None
    else if Fits(g, w, attempts[0]) then Some(0)
    else
      match FirstFit(g, w, attempts[1..])
      case None => None
      case Some(m) => Some(m + 1)
  }

  /** Where a placed word was written. */
  datatype Placement = Placement(origin: Coord, dir: Coord)

  /** The state of the placement loop: the grid, the words placed so far and
      where each one went. */
  datatype Layout = Layout(grid: Grid, placed: seq<Word>, spots: seq<Placement>)

  /** Each placed word reads at its recorded place, along one of the axes. */
  predicate Readable(l: Layout) {
    && |l.spots| == |l.placed|
    && forall k :: 0 <= k < |l.placed| ==>
         l.spots[k].dir in Directions && ReadsAt(l.grid, l.placed[k].hiragana, l.spots[k].origin, l.spots[k].dir)
  }

  /** `xs` is `ys` with some elements left out. */
  predicate IsSubsequence<T(==)>(xs: seq<T>, ys: seq<T>) {
    || |xs| == 0
    || (|ys| > 0 && ((xs[0] == ys[0] && IsSubsequence(xs[1..], ys[1..])) || IsSubsequence(xs, ys[1..])))
  }

  lemma {:induction false} SubsequenceMembers<T>(xs: seq<T>, ys: seq<T>)
    requires IsSubsequence(xs, ys)
    ensures forall x :: x in xs ==> x in ys
    decreases |ys|
  {
    if |xs| > 0 {
      if xs[0] == ys[0] && IsSubsequence(xs[1..], ys[1..]) {
        SubsequenceMembers(xs[1..], ys[1..]);
        assert xs == [xs[0]] + xs[1..];
        assert ys == [ys[0]] + ys[1..];
      } else {
        SubsequenceMembers(xs, ys[1..]);
        assert ys == [ys[0]] + ys[1..];
      }
    }
  }

  /** The attempt loop for one word: the word goes to its first fitting
      attempt and joins the placed words; with no fitting attempt nothing
      changes. */
  function PlaceOne(l: Layout, word: Word, attempts: seq<Attempt>): (l': Layout)
    requires IsSquare(l.grid)
    requires forall j :: 0 <= j < |attempts| ==> HasDirection(attempts[j])
    ensures IsSquare(l'.grid) && |l'.grid| == |l.grid|
    ensures AtMostOneChar(l.grid) ==> AtMostOneChar(l'.grid)
    ensures |l'.spots| == |l.spots| + (|l'.placed| - |l.placed|)
    ensures FirstFit(l.grid, word.hiragana, attempts).None? ==> l' == l
    ensures FirstFit(l.grid, word.hiragana, attempts).Some? ==> l'.placed == l.placed + [word]
  {
    match FirstFit(l.grid, word.hiragana, attempts)
    case None => l
    case Some(m) =>
      var a := attempts[m];
      var origin, dir := Coord(a.row, a.col), Directions[a.dirIndex];
      assert forall i :: 0 <= i < |word.hiragana| ==> FitsAt(l.grid, word.hiragana, origin, dir, i);
      Layout(PlaceWord(l.grid, word.hiragana, origin, dir), l.placed + [word], l.spots + [Placement(origin, dir)])
  }

  /** Placing one more word keeps every letter, so all placed words, the
      new one included, read at their recorded places. */
  lemma PlaceOneReadable(l: Layout, word: Word, attempts: seq<Attempt>)
    requires IsSquare(l.grid) && Readable(l)
    requires forall j :: 0 <= j < |attempts| ==> HasDirection(attempts[j])
    ensures var l' := PlaceOne(l, word, attempts);
            Readable(l') && KeepsLetters(l.grid, l'.grid)
  {
    match FirstFit(l.grid, word.hiragana, attempts)
    case None =>
    case Some(m) =>
      var a := attempts[m];
      var spot := Placement(Coord(a.row, a.col), Directions[a.dirIndex]);
      PlaceWordSpec(l.grid, word.hiragana, spot.origin, spot.dir);
      var l' := PlaceOne(l, word, attempts);
      assert l'.spots == l.spots + [spot];
      ReadableAfterPlace(l, l', word.hiragana, spot);
  }

  /** The placement loop from pool index `k`: stops once `count` words are
      placed, otherwise runs the attempt loop for the next word. */
  function PlaceWords(l: Layout, pool: seq<Word>, attempts: seq<seq<Attempt>>, count: int, k: nat): (res: Layout)
    requires IsSquare(l.grid)
    requires |attempts| == |pool| && k <= |pool|
    requires forall i, j :: 0 <= i < |attempts| && 0 <= j < |attempts[i]| ==> HasDirection(attempts[i][j])
    ensures IsSquare(res.grid) && |res.grid| == |l.grid|
    ensures AtMostOneChar(l.grid) ==> AtMostOneChar(res.grid)
    ensures |res.placed| <= if count > |l.placed| then count else |l.placed|
    decreases |pool| - k
  {
    if k == |pool| || |l.placed| >= count then l
    else PlaceWords(PlaceOne(l, pool[k], attempts[k]), pool, attempts, count, k + 1)
  }

  /** The loop keeps every letter and every placed word readable. */
  lemma {:induction false} PlaceWordsReadable(l: Layout, pool: seq<Word>, attempts: seq<seq<Attempt>>, count: int, k: nat)
    requires IsSquare(l.grid) && Readable(l)
    requires |attempts| == |pool| && k <= |pool|
    requires forall i, j :: 0 <= i < |attempts| && 0 <= j < |attempts[i]| ==> HasDirection(attempts[i][j])
    ensures var res := PlaceWords(l, pool, attempts, count, k);
            Readable(res) && KeepsLetters(l.grid, res.grid)
    decreases |pool| - k
  {
    if k < |pool| && |l.placed| < count {
      var l' := PlaceOne(l, pool[k], attempts[k]);
      PlaceOneReadable(l, pool[k], attempts[k]);
      PlaceWordsReadable(l', pool, attempts, count, k + 1);
      KeepsLettersTransitive(l.grid, l'.grid, PlaceWords(l', pool, attempts, count, k + 1).grid);
    } else {
      KeepsLettersTransitive(l.grid, l.grid, l.grid);
    }
  }

  /** The loop only appends, and what it appends is drawn, in order, from
      the rest of the pool. */
  lemma {:induction false} PlaceWordsFromPool(l: Layout, pool: seq<Word>, attempts: seq<seq<Attempt>>, count: int, k: nat)
    requires IsSquare(l.grid)
    requires |attempts| == |pool| && k <= |pool|
    requires forall i, j :: 0 <= i < |attempts| && 0 <= j < |attempts[i]| ==> HasDirection(attempts[i][j])
    ensures var res := PlaceWords(l, pool, attempts, count, k);
            && |res.placed| >= |l.placed| && res.placed[..|l.placed|] == l.placed
            && IsSubsequence(res.placed[|l.placed|..], pool[k..])
    decreases |pool| - k
  {
    var res := PlaceWords(l, pool, attempts, count, k);
    if k < |pool| && |l.placed| < count {
      var l' := PlaceOne(l, pool[k], attempts[k]);
      PlaceWordsFromPool(l', pool, attempts, count, k + 1);
      if l'.placed == l.placed {
        assert pool[k..][1..] == pool[k + 1..];
      } else {
        PlacedTail(l.placed, pool[k], res.placed, pool, k);
      }
    } else {
      assert res.placed[|l.placed|..] == [];
    }
  }

  lemma ReadableAfterPlace(l: Layout, l': Layout, w: string, spot: Placement)
    requires Readable(l) && KeepsLetters(l.grid, l'.grid)
    requires |l'.placed| == |l.placed| + 1 && l'.placed[..|l.placed|] == l.placed
    requires l'.spots == l.spots + [spot] && spot.dir in Directions
    requires l'.placed[|l.placed|].hiragana == w && ReadsAt(l'.grid, w, spot.origin, spot.dir)
    ensures Readable(l')
  {
    forall k | 0 <= k < |l'.placed|
      ensures ReadsAt(l'.grid, l'.placed[k].hiragana, l'.spots[k].origin, l'.spots[k].dir)
    {
      if k < |l.placed| {
        assert l'.placed[k] == l.placed[k] && l'.spots[k] == l.spots[k];
        ReadsAtKept(l.grid, l'.grid, l.placed[k].hiragana, l.spots[k].origin, l.spots[k].dir);
      }
    }
  }

  lemma PlacedTail(placed: seq<Word>, w: Word, res: seq<Word>, pool: seq<Word>, k: nat)
    requires k < |pool| && pool[k] == w
    requires |res| >= |placed| + 1 && res[..|placed| + 1] == placed + [w]
    requires IsSubsequence(res[|placed| + 1..], pool[k + 1..])
    ensures |res| >= |placed| && res[..|placed|] == placed
    ensures IsSubsequence(res[|placed|..], pool[k..])
  {
    assert res[..|placed|] == res[..|placed| + 1][..|placed|];
    var tail := res[|placed|..];
    assert tail[0] == res[..|placed| + 1][|placed|] == w;
    assert tail[1..] == res[|placed| + 1..];
    assert pool[k..][0] == w && pool[k..][1..] == pool[k + 1..];
  }

  // ---------------------------------------------------------------------
  // filling and the whole generator

  /** A filler index per cell, each one a draw the generator can make. */
  predicate ValidFillers(fillers: seq<seq<int>>, size: int) {
    && |fillers| == size
    && (forall r :: 0 <= r < size ==> |fillers[r]| == size)
    && forall r, c :: 0 <= r < size && 0 <= c < size ==> 0 <= fillers[r][c] < |HiraganaChars|
  }

  /** A blank cell takes the filler with index `f`; any other cell is kept. */
  function FillCell(cell: Cell, f: int): (filled: Cell)
    requires 0 <= f < |HiraganaChars|
    ensures filled == cell.(ch := filled.ch)
    ensures cell.ch != "" ==> filled == cell
    ensures cell.ch == "" ==> filled.ch in HiraganaChars && |filled.ch| == 1
  {
    HiraganaCharsShape();
    if cell.ch == "" then cell.(ch := HiraganaChars[f]) else cell
  }

  /** Every blank cell receives the filler hiragana drawn for it. */
  function FillBlanks(g: Grid, fillers: seq<seq<int>>): (g': Grid)
    requires IsSquare(g) && ValidFillers(fillers, |g|)
    ensures KeepsLetters(g, g') && IsSquare(g')
    ensures forall r, c :: 0 <= r < |g| && 0 <= c < |g| ==> g'[r][c] == FillCell(g[r][c], fillers[r][c])
    ensures AtMostOneChar(g) ==> forall r, c :: 0 <= r < |g| && 0 <= c < |g| ==> |g'[r][c].ch| == 1
  {
    seq(|g|, r requires 0 <= r < |g| =>
      seq(|g|, c requires 0 <= c < |g| => FillCell(g[r][c], fillers[r][c])))
  }

  /** After filling, no cell is blank. */
  lemma FillBlanksNoBlank(g: Grid, fillers: seq<seq<int>>)
    requires IsSquare(g) && ValidFillers(fillers, |g|)
    ensures var g' := FillBlanks(g, fillers);
            forall r, c :: 0 <= r < |g'| && 0 <= c < |g'| ==> g'[r][c].ch != ""
  {
    HiraganaCharsShape();
    var g': Grid := FillBlanks(g, fillers);
    forall r, c | 0 <= r < |g'| && 0 <= c < |g'|
      ensures g'[r][c].ch != ""
    {
      if g[r][c].ch == "" {
        assert g'[r][c] == FillCell(g[r][c], fillers[r][c]);
        var i :| 0 <= i < |HiraganaChars| && HiraganaChars[i] == g'[r][c].ch;
      }
    }
  }

  /** The generator's result. */
  datatype Generated = Generated(grid: Grid, placedWords: seq<Word>)

  /** `w` reads somewhere in `g` along one of the three axes. */
  ghost predicate Findable(g: Grid, w: string) {
    exists origin, dir :: dir in Directions && ReadsAt(g, w, origin, dir)
  }

  /** `shuffled` is a reordering of `allWords`; `attempts[k]` holds the 50
      draws for the `k`-th word of `shuffled`; `fillers` holds a draw per
      cell. */
  predicate ValidDraws(allWords: seq<Word>, size: int, shuffled: seq<Word>,
                       attempts: seq<seq<Attempt>>, fillers: seq<seq<int>>)
  {
    && multiset(shuffled) == multiset(allWords)
    && |attempts| == |shuffled|
    && (forall i :: 0 <= i < |attempts| ==> |attempts[i]| == MaxAttempts)
    && (forall i, j :: 0 <= i < |attempts| && 0 <= j < |attempts[i]| ==> ValidAttempt(attempts[i][j], size))
    && ValidFillers(fillers, size)
  }

  /** The placement phase of `generateGameGrid`: the shuffled words tried
      in order on a blank grid until `count` are placed. */
  function PlaceAll(count: int, size: int, shuffled: seq<Word>, attempts: seq<seq<Attempt>>): (l: Layout)
    requires size > 0 && |attempts| == |shuffled|
    requires forall i, j :: 0 <= i < |attempts| && 0 <= j < |attempts[i]| ==> ValidAttempt(attempts[i][j], size)
    ensures IsSquare(l.grid) && |l.grid| == size && WellFormed(l.grid) && AtMostOneChar(l.grid)
    ensures Readable(l)
    ensures |l.placed| <= if count > 0 then count else 0
    ensures IsSubsequence(l.placed[0..], shuffled[0..])
  {
    var l0 := Layout(CreateEmptyGrid(size), [], []);
    assert IsSquare(l0.grid) && Readable(l0);
    assert forall i, j :: 0 <= i < |attempts| && 0 <= j < |attempts[i]| ==> HasDirection(attempts[i][j]) by {
      forall i, j | 0 <= i < |attempts| && 0 <= j < |attempts[i]|
        ensures HasDirection(attempts[i][j])
      {
        assert ValidAttempt(attempts[i][j], size);
      }
    }
    PlaceWordsReadable(l0, shuffled, attempts, count, 0);
    PlaceWordsFromPool(l0, shuffled, attempts, count, 0);
    var l := PlaceWords(l0, shuffled, attempts, count, 0);
    WellFormedKept(l0.grid, l.grid);
    l
  }

  /** `generateGameGrid` for a grid of side `size`, with the shuffle, the
      attempt draws and the filler draws given. */
  function GenerateGameGrid(allWords: seq<Word>, count: int, size: int, shuffled: seq<Word>,
                            attempts: seq<seq<Attempt>>, fillers: seq<seq<int>>): (r: Generated)
    requires size > 0
    requires ValidDraws(allWords, size, shuffled, attempts, fillers)
    ensures |r.grid| == size && WellFormed(r.grid)
    ensures forall row, col :: 0 <= row < size && 0 <= col < size ==> r.grid[row][col].ch != ""
    ensures forall row, col :: 0 <= row < size && 0 <= col < size ==> |r.grid[row][col].ch| == 1
    ensures |r.placedWords| <= if count > 0 then count else 0
    ensures IsSubsequence(r.placedWords, shuffled)
    ensures forall w :: w in r.placedWords ==> w in allWords
    ensures forall k :: 0 <= k < |r.placedWords| ==> Findable(r.grid, r.placedWords[k].hiragana)
  {
    var l := PlaceAll(count, size, shuffled, attempts);
    var g := FillBlanks(l.grid, fillers);
    WellFormedKept(l.grid, g);
    FillBlanksNoBlank(l.grid, fillers);
    GeneratedFromPool(allWords, shuffled, l.placed);
    GeneratedReadable(l, g);
    Generated(g, l.placed)
  }

  lemma WellFormedKept(g: Grid, g': Grid)
    requires WellFormed(g) && SameExceptChars(g, g')
    ensures WellFormed(g')
  {
    forall r, c | 0 <= r < |g| && 0 <= c < |g|
      ensures g'[r][c].row == r && g'[r][c].col == c && g'[r][c].id == CellId(r, c)
    {
      assert g'[r][c] == g[r][c].(ch := g'[r][c].ch);
    }
  }

  /** The placed words come, in order, from the shuffled pool, hence from
      the vocabulary. */
  lemma GeneratedFromPool(allWords: seq<Word>, shuffled: seq<Word>, placed: seq<Word>)
    requires multiset(shuffled) == multiset(allWords)
    requires IsSubsequence(placed[0..], shuffled[0..])
    ensures IsSubsequence(placed, shuffled)
    ensures forall w :: w in placed ==> w in allWords
  {
    assert placed[0..] == placed && shuffled[0..] == shuffled;
    SubsequenceMembers(placed, shuffled);
    assert forall w :: w in shuffled ==> w in multiset(allWords);
  }

  /** Filling only blank cells keeps every placed word findable. */
  lemma GeneratedReadable(l: Layout, g: Grid)
    requires Readable(l) && KeepsLetters(l.grid, g)
    ensures forall k :: 0 <= k < |l.placed| ==> Findable(g, l.placed[k].hiragana)
  {
    forall k | 0 <= k < |l.placed|
      ensures Findable(g, l.placed[k].hiragana)
    {
      var spot := l.spots[k];
      ReadsAtKept(l.grid, g, l.placed[k].hiragana, spot.origin, spot.dir);
      assert spot.dir in Directions && ReadsAt(g, l.placed[k].hiragana, spot.origin, spot.dir);
    }
  }
}
