/** The game state of the application and its word check: a selected
    string is matched against the unfound words of the game, the match is
    recorded, every occurrence of the string along the three axes is
    flagged in the grid, and the game is won once every word is found. */
module App {
  import opened Wrappers
  import opened Strings
  import opened Types
  import opened GridGenerator

  /** The application state: the words of this game, the grid, the ids
      found so far in finding order, and whether the win dialog is shown. */
  datatype AppState = AppState(gameWords: seq<Word>, grid: Grid, foundWordIds: seq<string>, showWinModal: bool)

  /** The ids of the words, in order. */
  function IdsOf(words: seq<Word>): (ids: seq<string>)
    ensures |ids| == |words|
    ensures forall k :: 0 <= k < |words| ==> ids[k] == words[k].id
  {
    if |words| == 0 then [] else [words[0].id] + IdsOf(words[1..])
  }

  /** No entry occurs twice. */
  predicate Distinct<T(==)>(s: seq<T>) {
    forall i, j :: 0 <= i < j < |s| ==> s[i] != s[j]
  }

  /** Found ids are ids of this game's words and none is recorded twice. */
  predicate AppInv(st: AppState) {
    && IsSquare(st.grid)
    && (forall k :: 0 <= k < |st.foundWordIds| ==> st.foundWordIds[k] in IdsOf(st.gameWords))
    && Distinct(st.foundWordIds)
  }

  /** `startNewGame`: the generated grid and placed words, nothing found,
      no win dialog. */
  function StartNewGame(generated: Generated): (st: AppState)
    requires IsSquare(generated.grid)
    ensures AppInv(st)
    ensures st.gameWords == generated.placedWords && st.grid == generated.grid
    ensures |st.foundWordIds| == 0 && !st.showWinModal
  {
    AppState(generated.placedWords, generated.grid, [], false)
  }

  // ---------------------------------------------------------------------
  // the match lookup

  /** Word `w` is a match for `s`: its reading is `s` and it is not found yet. */
  predicate IsMatch(w: Word, s: string, found: seq<string>) {
    w.hiragana == s && w.id !in found
  }

  /** The index of the first matching game word, or -1 (`Array.prototype.find`). */
  function MatchIndex(words: seq<Word>, found: seq<string>, s: string): (k: int)
    ensures -1 <= k < |words|
    ensures k == -1 <==> forall i :: 0 <= i < |words| ==> !IsMatch(words[i], s, found)
    ensures 0 <= k ==> IsMatch(words[k], s, found) && forall i :: 0 <= i < k ==> !IsMatch(words[i], s, found)
  {
    if |words| == 0 then -1
    else if IsMatch(words[0], s, found) then 0
    else
      var k := MatchIndex(words[1..], found, s);
      if k == -1 then -1 else k + 1
  }

  // ---------------------------------------------------------------------
  // the re-scan

  /** One iteration of the innermost scan loop: does `s`, from letter `i`
      on, read from `origin` along `dir`, stopping at the first cell past
      the bottom or right edge or holding another character? */
  function MatchesFrom(g: Grid, s: string, origin: Coord, dir: Coord, i: nat): (ok: bool)
    requires IsSquare(g) && i <= |s|
    requires 0 <= origin.row && 0 <= origin.col && 0 <= dir.row && 0 <= dir.col
    ensures ok <==> forall j :: i <= j < |s| ==>
                      InGrid(g, RayCell(origin, dir, j)) && CharAt(g, RayCell(origin, dir, j)) == [s[j]]
    decreases |s| - i
  {
    if i == |s| then true
    else
      var p := RayCell(origin, dir, i);
      if p.row >= |g| || p.col >= |g| then
        assert !InGrid(g, p);
        false
      else if g[p.row][p.col].ch != [s[i]] then
        assert CharAt(g, p) != [s[i]];
        false
      else MatchesFrom(g, s, origin, dir, i + 1)
  }

  /** Cell `p` is one of the first `n` cells of the line. */
  predicate OnRay(origin: Coord, dir: Coord, n: int, p: Coord) {
    exists i :: 0 <= i < n && RayCell(origin, dir, i) == p
  }

  function SetFound(cell: Cell): (flagged: Cell)
    ensures flagged == cell.(isPartOfWord := true)
  {
    cell.(isPartOfWord := true)
  }

  /** Flags the first `n` cells of the line as part of a found word. */
  function MarkRay(g: Grid, origin: Coord, dir: Coord, n: int): (g': Grid)
    ensures SameExceptFlags(g, g')
    ensures forall r, c :: 0 <= r < |g| && 0 <= c < |g[r]| ==>
              g'[r][c].isPartOfWord == (g[r][c].isPartOfWord || OnRay(origin, dir, n, Coord(r, c)))
  {
    seq(|g|, r requires 0 <= r < |g| =>
      seq(|g[r]|, c requires 0 <= c < |g[r]| =>
        if OnRay(origin, dir, n, Coord(r, c)) then SetFound(g[r][c]) else g[r][c]))
  }

  /** A starting cell and axis visited by the scan. */
  datatype ScanItem = ScanItem(origin: Coord, dir: Coord)

  predicate NonNegative(it: ScanItem) {
    0 <= it.origin.row && 0 <= it.origin.col && 0 <= it.dir.row && 0 <= it.dir.col
  }

  /** One visit: if the string reads from the item's cell along its axis,
      the cells it covers are flagged. */
  function FlagAt(g: Grid, s: string, it: ScanItem): (g': Grid)
    requires IsSquare(g) && NonNegative(it)
    ensures SameExceptFlags(g, g') && IsSquare(g')
    ensures forall r, c :: 0 <= r < |g| && 0 <= c < |g| ==>
              g'[r][c].isPartOfWord == (g[r][c].isPartOfWord || CoversAt(g, s, it, Coord(r, c)))
  {
    if MatchesFrom(g, s, it.origin, it.dir, 0) then MarkRay(g, it.origin, it.dir, |s|) else g
  }

  /** The visits of the scan, in order. */
  function FlagAll(g: Grid, s: string, items: seq<ScanItem>): (g': Grid)
    requires IsSquare(g) && forall k :: 0 <= k < |items| ==> NonNegative(items[k])
    ensures SameExceptFlags(g, g') && IsSquare(g')
    decreases |items|
  {
    if |items| == 0 then g else FlagAll(FlagAt(g, s, items[0]), s, items[1..])
  }

  /** The string reads from the item's cell along its axis, over cell `p`. */
  predicate CoversAt(g: Grid, s: string, it: ScanItem, p: Coord) {
    ReadsAt(g, s, it.origin, it.dir) && OnRay(it.origin, it.dir, |s|, p)
  }

  /** Some visited item reads the string over cell `p`. */
  predicate Covers(g: Grid, s: string, items: seq<ScanItem>, p: Coord) {
    exists k :: 0 <= k < |items| && CoversAt(g, s, items[k], p)
  }

  lemma CoversMember(g: Grid, s: string, items: seq<ScanItem>, it: ScanItem, p: Coord)
    requires it in items && CoversAt(g, s, it, p)
    ensures Covers(g, s, items, p)
  {
    var k :| 0 <= k < |items| && items[k] == it;
  }

  lemma SameExceptFlagsTransitive(g1: Grid, g2: Grid, g3: Grid)
    requires SameExceptFlags(g1, g2) && SameExceptFlags(g2, g3)
    ensures SameExceptFlags(g1, g3)
  {
    forall r, c | 0 <= r < |g1| && 0 <= c < |g1[r]|
      ensures g3[r][c] == g1[r][c].(isPartOfWord := g3[r][c].isPartOfWord)
    {
      assert g2[r][c] == g1[r][c].(isPartOfWord := g2[r][c].isPartOfWord);
    }
  }

  /** The items cover `p` exactly when the first one does or the rest do,
      whichever of two grids with the same characters is read. */
  lemma CoversStep(g: Grid, g1: Grid, s: string, items: seq<ScanItem>, p: Coord)
    requires SameExceptFlags(g, g1) && |items| > 0
    ensures Covers(g, s, items, p) <==> CoversAt(g, s, items[0], p) || Covers(g1, s, items[1..], p)
  {
    var rest := items[1..];
    if Covers(g1, s, rest, p) {
      var k :| 0 <= k < |rest| && CoversAt(g1, s, rest[k], p);
      ReadsAtSameChars(g, g1, s, rest[k].origin, rest[k].dir);
      assert items[k + 1] == rest[k];
      assert CoversAt(g, s, items[k + 1], p);
    }
    if Covers(g, s, items, p) {
      var k :| 0 <= k < |items| && CoversAt(g, s, items[k], p);
      if k > 0 {
        ReadsAtSameChars(g, g1, s, items[k].origin, items[k].dir);
        assert rest[k - 1] == items[k];
        assert CoversAt(g1, s, rest[k - 1], p);
      }
    }
  }

  /** After the visits, a cell is flagged exactly when it was flagged before
      or a visited item reads the string over it. Flags never change the
      characters, so every visit sees the characters of the original grid. */
  lemma {:induction false} FlagAllSpec(g: Grid, s: string, items: seq<ScanItem>, r: int, c: int)
    requires IsSquare(g) && forall k :: 0 <= k < |items| ==> NonNegative(items[k])
    requires 0 <= r < |g| && 0 <= c < |g|
    ensures FlagAll(g, s, items)[r][c].isPartOfWord == (g[r][c].isPartOfWord || Covers(g, s, items, Coord(r, c)))
    decreases |items|
  {
    if |items| > 0 {
      var g1 := FlagAt(g, s, items[0]);
      FlagAllSpec(g1, s, items[1..], r, c);
      CoversStep(g, g1, s, items, Coord(r, c));
    }
  }

  /** The visits of row `r` from column `c` on: each cell, each axis. */
  function ScanCols(size: int, r: int, c: int): (items: seq<ScanItem>)
    requires 0 <= r && 0 <= c
    ensures forall k :: 0 <= k < |items| ==> NonNegative(items[k])
    ensures forall it :: it in items <==>
              it.origin.row == r && c <= it.origin.col < size && it.dir in Directions
    decreases size - c
  {
    if c >= size then []
    else
      var p := Coord(r, c);
      [ScanItem(p, Directions[0]), ScanItem(p, Directions[1]), ScanItem(p, Directions[2])]
        + ScanCols(size, r, c + 1)
  }

  /** The visits of rows `r..`, row by row (the scan's loop nest). */
  function ScanRows(size: int, r: int): (items: seq<ScanItem>)
    requires 0 <= r
    ensures forall k :: 0 <= k < |items| ==> NonNegative(items[k])
    ensures forall it :: it in items <==>
              r <= it.origin.row < size && 0 <= it.origin.col < size && it.dir in Directions
    decreases size - r
  {
    if r >= size then [] else ScanCols(size, r, 0) + ScanRows(size, r + 1)
  }

  /** The scan visits every cell of the grid along every axis. */
  lemma ScanVisits(size: int, it: ScanItem)
    requires 0 <= it.origin.row < size && 0 <= it.origin.col < size && it.dir in Directions
    ensures it in ScanRows(size, 0)
  {
  }

  /** Cell `p` lies on an occurrence of `s` read from some cell of the grid
      along one of the three axes. */
  ghost predicate OnOccurrence(g: Grid, s: string, p: Coord) {
    exists origin: Coord, dir: Coord ::
      && 0 <= origin.row < |g| && 0 <= origin.col < |g| && dir in Directions
      && ReadsAt(g, s, origin, dir) && OnRay(origin, dir, |s|, p)
  }

  /** The re-scan of `handleWordCheck` on a copy of the grid. */
  function FlagOccurrences(g: Grid, s: string): (g': Grid)
    requires IsSquare(g)
    ensures SameExceptFlags(g, g') && IsSquare(g')
  {
    FlagAll(g, s, ScanRows(|g|, 0))
  }

  /** A cell is flagged after the re-scan exactly when it was flagged
      before or lies on an occurrence of the string; characters and grid
      dimensions are unchanged. */
  lemma FlagOccurrencesSpec(g: Grid, s: string, r: int, c: int)
    requires IsSquare(g) && 0 <= r < |g| && 0 <= c < |g|
    ensures FlagOccurrences(g, s)[r][c].isPartOfWord == (g[r][c].isPartOfWord || OnOccurrence(g, s, Coord(r, c)))
  {
    FlagAllSpec(g, s, ScanRows(|g|, 0), r, c);
    CoversIfOccurrence(g, s, Coord(r, c));
    OccurrenceIfCovers(g, s, Coord(r, c));
  }

  lemma OccurrenceIfCovers(g: Grid, s: string, p: Coord)
    ensures Covers(g, s, ScanRows(|g|, 0), p) ==> OnOccurrence(g, s, p)
  {
    var items := ScanRows(|g|, 0);
    if Covers(g, s, items, p) {
      var k :| 0 <= k < |items| && CoversAt(g, s, items[k], p);
      assert items[k] in items;
    }
  }

  lemma CoversIfOccurrence(g: Grid, s: string, p: Coord)
    ensures OnOccurrence(g, s, p) ==> Covers(g, s, ScanRows(|g|, 0), p)
  {
    if OnOccurrence(g, s, p) {
      var origin: Coord, dir: Coord :| && 0 <= origin.row < |g| && 0 <= origin.col < |g| && dir in Directions
                                       && ReadsAt(g, s, origin, dir) && OnRay(origin, dir, |s|, p);
      var it := ScanItem(origin, dir);
      ScanVisits(|g|, it);
      CoversMember(g, s, ScanRows(|g|, 0), it, p);
    }
  }

  /** Occurrences depend on characters only, so flagging leaves them as they are. */
  lemma OccurrenceSameChars(g: Grid, g': Grid, s: string, p: Coord)
    requires SameExceptFlags(g, g')
    ensures OnOccurrence(g, s, p) <==> OnOccurrence(g', s, p)
  {
    if OnOccurrence(g, s, p) {
      var origin: Coord, dir: Coord :| && 0 <= origin.row < |g| && 0 <= origin.col < |g| && dir in Directions
                                       && ReadsAt(g, s, origin, dir) && OnRay(origin, dir, |s|, p);
      ReadsAtSameChars(g, g', s, origin, dir);
    }
    if OnOccurrence(g', s, p) {
      var origin: Coord, dir: Coord :| && 0 <= origin.row < |g'| && 0 <= origin.col < |g'| && dir in Directions
                                       && ReadsAt(g', s, origin, dir) && OnRay(origin, dir, |s|, p);
      ReadsAtSameChars(g, g', s, origin, dir);
    }
  }

  /** Grids that differ at most in flags, and agree on every flag, are equal. */
  lemma SameFlagsEqual(a: Grid, b: Grid)
    requires SameExceptFlags(a, b)
    requires forall r, c :: 0 <= r < |a| && 0 <= c < |a[r]| ==> a[r][c].isPartOfWord == b[r][c].isPartOfWord
    ensures a == b
  {
    forall r | 0 <= r < |a|
      ensures a[r] == b[r]
    {
      assert forall c :: 0 <= c < |a[r]| ==> a[r][c] == b[r][c];
    }
  }

  /** One cell of the second check: flagged exactly as after the first. */
  lemma FlagCellTwice(g: Grid, s: string, r: int, c: int)
    requires IsSquare(g) && 0 <= r < |g| && 0 <= c < |g|
    ensures var g1 := FlagOccurrences(g, s);
            FlagOccurrences(g1, s)[r][c].isPartOfWord == g1[r][c].isPartOfWord
  {
    var g1 := FlagOccurrences(g, s);
    FlagOccurrencesSpec(g, s, r, c);
    FlagOccurrencesSpec(g1, s, r, c);
    OccurrenceSameChars(g, g1, s, Coord(r, c));
  }

  /** Checking the same string twice flags nothing new the second time. */
  lemma FlagOccurrencesIdempotent(g: Grid, s: string)
    requires IsSquare(g)
    ensures FlagOccurrences(FlagOccurrences(g, s), s) == FlagOccurrences(g, s)
  {
    var g1: Grid := FlagOccurrences(g, s);
    var g2: Grid := FlagOccurrences(g1, s);
    forall r, c | 0 <= r < |g1| && 0 <= c < |g1[r]|
      ensures g1[r][c].isPartOfWord == g2[r][c].isPartOfWord
    {
      FlagCellTwice(g, s, r, c);
    }
    SameFlagsEqual(g1, g2);
  }

  /** An empty selection lies on no occurrence, so it flags nothing. */
  lemma EmptyStringFlagsNothing(g: Grid)
    requires IsSquare(g)
    ensures FlagOccurrences(g, "") == g
  {
    var g1: Grid := FlagOccurrences(g, "");
    forall r, c | 0 <= r < |g| && 0 <= c < |g[r]|
      ensures g[r][c].isPartOfWord == g1[r][c].isPartOfWord
    {
      FlagOccurrencesSpec(g, "", r, c);
    }
    SameFlagsEqual(g, g1);
  }

  // ---------------------------------------------------------------------
  // handleWordCheck

  /** The state after a check and the matched word (`null` as `None`). */
  datatype CheckResult = CheckResult(state: AppState, matched: Option<Word>)

  /** `handleWordCheck`: with no unfound word reading `s`, nothing changes;
      otherwise its id is recorded, the grid is re-scanned and flagged, and
      the win dialog opens once the found count reaches the word count. */
  function HandleWordCheck(st: AppState, s: string): (res: CheckResult)
    requires IsSquare(st.grid)
    ensures res.matched.None? <==> forall i :: 0 <= i < |st.gameWords| ==> !IsMatch(st.gameWords[i], s, st.foundWordIds)
    ensures res.matched.None? ==> res.state == st
    ensures res.matched.Some? ==>
              && res.matched.value in st.gameWords && IsMatch(res.matched.value, s, st.foundWordIds)
              && res.state.gameWords == st.gameWords
              && res.state.foundWordIds == st.foundWordIds + [res.matched.value.id]
              && res.state.grid == FlagOccurrences(st.grid, s)
              && res.state.showWinModal == (st.showWinModal || |res.state.foundWordIds| == |st.gameWords|)
  {
    var k := MatchIndex(st.gameWords, st.foundWordIds, s);
    if k == -1 then CheckResult(st, None)
    else
      var w := st.gameWords[k];
      var newFoundIds := st.foundWordIds + [w.id];
      var grid := FlagOccurrences(st.grid, s);
      var win := |newFoundIds| == |st.gameWords|;
      CheckResult(AppState(st.gameWords, grid, newFoundIds, if win then true else st.showWinModal), Some(w))
  }

  /** The matched word is the first unfound game word with that reading. */
  lemma HandleWordCheckFirst(st: AppState, s: string)
    requires IsSquare(st.grid)
    ensures var res := HandleWordCheck(st, s);
            res.matched.Some? ==>
              exists k :: 0 <= k < |st.gameWords| && st.gameWords[k] == res.matched.value
                && forall i :: 0 <= i < k ==> !IsMatch(st.gameWords[i], s, st.foundWordIds)
  {
    var k := MatchIndex(st.gameWords, st.foundWordIds, s);
    if k != -1 {
      assert st.gameWords[k] == HandleWordCheck(st, s).matched.value;
    }
  }

  /** A check keeps the found ids duplicate-free and within the game's words. */
  lemma HandleWordCheckKeepsInv(st: AppState, s: string)
    requires AppInv(st)
    ensures AppInv(HandleWordCheck(st, s).state)
  {
    var res := HandleWordCheck(st, s);
    if res.matched.Some? {
      var w := res.matched.value;
      var ids := IdsOf(st.gameWords);
      assert w.id in ids by {
        var k :| 0 <= k < |st.gameWords| && st.gameWords[k] == w;
        assert ids[k] == w.id;
      }
      AppendDistinct(st.foundWordIds, w.id);
      AppendWithin(st.foundWordIds, w.id, ids);
    }
  }

  lemma AppendDistinct<T>(s: seq<T>, x: T)
    requires Distinct(s) && x !in s
    ensures Distinct(s + [x])
  {
    forall i, j | 0 <= i < j < |s + [x]|
      ensures (s + [x])[i] != (s + [x])[j]
    {
      assert (s + [x])[i] == s[i];
      if j == |s| {
        assert s[i] in s;
      }
    }
  }

  lemma AppendWithin<T>(s: seq<T>, x: T, within: seq<T>)
    requires forall k :: 0 <= k < |s| ==> s[k] in within
    requires x in within
    ensures forall k :: 0 <= k < |s + [x]| ==> (s + [x])[k] in within
  {
  }

  /** Under the invariant, and with the game's ids distinct, all game words
      are found once as many ids are found as there are words: the win
      dialog opens exactly when the game is complete. */
  lemma WinMeansAllFound(st: AppState)
    requires AppInv(st) && Distinct(IdsOf(st.gameWords))
    requires |st.foundWordIds| == |st.gameWords|
    ensures forall w :: w in st.gameWords ==> w.id in st.foundWordIds
  {
    var ids := IdsOf(st.gameWords);
    var a := set x | x in st.foundWordIds;
    var b := set x | x in ids;
    assert a <= b;
    DistinctCard(st.foundWordIds);
    DistinctCard(ids);
    SubsetEqualCard(a, b);
    forall w | w in st.gameWords
      ensures w.id in st.foundWordIds
    {
      var k :| 0 <= k < |st.gameWords| && st.gameWords[k] == w;
      assert ids[k] in b;
    }
  }

  /** A duplicate-free sequence has as many distinct elements as entries. */
  lemma {:induction false} DistinctCard<T>(s: seq<T>)
    requires Distinct(s)
    ensures |set x | x in s| == |s|
  {
    if |s| > 0 {
      var rest := s[..|s| - 1];
      var last := s[|s| - 1];
      assert s == rest + [last];
      assert Distinct(rest);
      DistinctCard(rest);
      var a := set x | x in rest;
      var b := set x | x in s;
      assert b == a + {last};
      assert last !in a;
    }
  }

  lemma SubsetEqualCard<T>(a: set<T>, b: set<T>)
    requires a <= b && |a| == |b|
    ensures a == b
  {
    var d := b - a;
    assert b == a + d && a * d == {};
    assert |d| == 0;
    assert b == a + {};
  }
}
