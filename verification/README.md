# Kotoba Hunters — a Dafny model of the game core

Kotoba Hunters is a Japanese word-search game. A square grid of hiragana
hides a set of vocabulary words, laid out horizontally, vertically or
diagonally (down-right). The player drags across the grid. The drag snaps
to one of eight compass directions. On release, the selected string is
checked forwards and then backwards against the words not yet found. A
match records the word as found and flags every cell where the string
reads in the grid. The game is won once every word has been found. The
vocabulary comes from a JLPT CSV file: each reading is normalised, and
rows whose reading is empty or holds katakana are dropped.

This project models that core as pure functions over immutable values:

- `Wrappers` — `Option` and `Result`.
- `Strings` — decimal rendering, reversal, `indexOf`, ECMAScript `trim`,
  character removal, joining.
- `Types` — words, cells, coordinates, grids and the cell-id scheme.
- `Constants` — the word-count table and the 46 filler hiragana.
- `CsvLoader` — `splitCsvLine`, `normalizeKana`, `parseJlptCsv` and
  `parseN5Csv`.
- `GridGenerator` — `createEmptyGrid`, `canPlaceWord`, `placeWord` and
  `generateGameGrid`.
- `Selection` — `getSelectedCells` and `getWordFromCells`.
- `App` — `startNewGame` and `handleWordCheck`.
- `GridBoard` — the board's pointer handlers: `updateSelection`, down,
  move and up.

Every random draw of the program is an explicit input: the shuffled word
list, the 50 placement attempts each word gets, and one filler index per
cell. Any draw the program could make is allowed, so each property holds
for every run. Hit-testing under the pointer becomes the cell under it, or
none.

## Model

| member | source | states |
|---|---|---|
| Strings.NatToString | utils/gridGenerator.ts:15 | Renders a number as a non-empty string of decimal digits, one digit exactly for numbers below ten. |
| Strings.NatToStringInjective | utils/gridGenerator.ts:15 | Distinct numbers render differently, which the `${r}-${c}` cell ids depend on. |
| Strings.Reverse | components/Grid.tsx:78 | The reversal has the same length and holds the k-th character from the end at position k. |
| Strings.ReverseInvolutive | components/Grid.tsx:78 | Reversing twice gives back the original, so a backwards drag reads the word after one reversal. |
| Strings.IndexOf | utils/csvLoader.ts:43-44 | Returns -1 exactly when the element is absent; otherwise an index holding it with no earlier occurrence. |
| Strings.Trim | utils/csvLoader.ts:72 | The result has no leading or trailing whitespace and is the input with exactly its outer whitespace runs removed. |
| Strings.TrimEmptyIffBlank | utils/csvLoader.ts:78 | A line trims to the empty string exactly when it is all whitespace, which is the blank-line filter's test. |
| Strings.TrimIdempotent | utils/csvLoader.ts:72 | Trimming an already trimmed string changes nothing. |
| Strings.RemoveChars | utils/csvLoader.ts:70 | The result contains none of the dropped characters, only characters of the input, and is the input itself when nothing was to be dropped. |
| Strings.RemoveCharsAppend | utils/csvLoader.ts:70 | Removing characters from a concatenation removes them from each part and concatenates the results, so the kept characters stay in order. |
| Strings.RemoveCharsSingle | utils/csvLoader.ts:70 | A single character disappears when it is one to drop and is kept otherwise. |
| Strings.Concat | utils/gridGenerator.ts:131 | Joining one-character cells gives a string whose k-th character is the k-th cell's character. |
| Types.CellIdInjective | utils/gridGenerator.ts:15 | Two cells have the same id `${r}-${c}` only when they are the same cell. |
| Types.ReadsAtSameChars | App.tsx:41-42 | Changing only found-flags never changes whether a word reads at a place. |
| Constants.GetWordCountForGridSize | constants.ts:1-9 | The word count lies between 6 and 24; it is 24 from size 10 up and 6 below size 5. |
| Constants.WordCountTable | constants.ts:3-7 | Sizes 5, 6, 7, 8 and 9 give 8, 10, 12, 16 and 20 words. |
| Constants.WordCountMonotone | constants.ts:1-9 | A larger grid never asks for fewer words. |
| Constants.HiraganaCharsShape | constants.ts:12-23 | The filler alphabet has 46 entries, each a single character, and no two equal. |
| CsvLoader.Scan | utils/csvLoader.ts:9-29 | The scan keeps the fields already collected and adds one more field than there are commas outside quotes. |
| CsvLoader.SplitCsvLine | utils/csvLoader.ts:4-30 | A line splits into one field more than its unquoted commas. |
| CsvLoader.SplitJoinPlain | utils/csvLoader.ts:20-28 | For a quote-free line, joining its fields with commas gives the line back, and no field contains a comma. |
| CsvLoader.JoinSplitPlain | utils/csvLoader.ts:20-28 | Comma-joined quote- and comma-free fields split back into exactly those fields. |
| CsvLoader.ScanEscaped | utils/csvLoader.ts:14-16 | Inside quotes, each doubled quote reads as one quote character and everything else reads literally. |
| CsvLoader.ScanQuoted | utils/csvLoader.ts:12-19 | A field written in quotes, with its quotes doubled, scans as its exact content. |
| CsvLoader.SplitQuotedRoundTrip | utils/csvLoader.ts:4-30 | Any fields, each quoted and comma-joined, split back into exactly those fields, including commas and quotes inside them. |
| CsvLoader.ScanEncoded | utils/csvLoader.ts:9-29 | A quoted field, or a bare field free of commas and quotes, followed by a comma or the end of the line scans as its exact content. |
| CsvLoader.SplitMixedRoundTrip | utils/csvLoader.ts:4-30 | A line whose fields are written one by one, each either quoted with doubled quotes or bare and free of commas and quotes, splits back into exactly those fields. |
| CsvLoader.SplitCsvLineExample | utils/csvLoader.ts:4-30 | The line a,"b,c",d splits into the three fields a, b,c and d. |
| CsvLoader.CutAtFirst | utils/csvLoader.ts:43-55 | Keeps the longest prefix free of both markers; the cut happens only at a marker, and a marker-free string is unchanged. |
| CsvLoader.NormalizeKana | utils/csvLoader.ts:37-73 | The result is normalised: no parenthesis, semicolon or tilde, no outer whitespace; an empty input gives "". |
| CsvLoader.NormalizeKanaIdempotent | utils/csvLoader.ts:37-73 | Normalising twice is the same as normalising once. |
| CsvLoader.NormalizeKanaKeepsNormalized | utils/csvLoader.ts:37-73 | An already normalised reading is left as it is. |
| CsvLoader.FirstMarker | utils/csvLoader.ts:43-67 | The first position holding an ASCII or full-width parenthesis or semicolon, or the length when there is none. |
| CsvLoader.FirstMarkerAppend | utils/csvLoader.ts:43-67 | In a concatenation the first marker is the first part's when it has one, and otherwise the second part's, shifted by the first part's length. |
| CsvLoader.CutsAtFirstMarker | utils/csvLoader.ts:43-67 | Cutting at the first parenthesis and then at the first semicolon keeps exactly the prefix before the first marker of either kind. |
| CsvLoader.NormalizeKanaSpec | utils/csvLoader.ts:37-73 | The normalised reading is the prefix before the first parenthesis or semicolon, with every tilde removed and outer whitespace trimmed. |
| CsvLoader.NormalizeKanaCutsAnnotation | utils/csvLoader.ts:42-55 | An ASCII `(` or full-width `（` drops itself and everything after it, whatever precedes it. |
| CsvLoader.NormalizeKanaCutsAlternative | utils/csvLoader.ts:57-67 | An ASCII `;` or full-width `；` drops itself and everything after it, whatever precedes it. |
| CsvLoader.NormalizeKanaKeepsFirstAlternative | utils/csvLoader.ts:57-67 | Of a reading "XX; YY" with XX already normalised, exactly XX is kept. |
| CsvLoader.RemoveTildeInside | utils/csvLoader.ts:69-70 | Removing the tildes ignores one tilde anywhere in the string. |
| CsvLoader.NormalizeKanaTrimsSpace | utils/csvLoader.ts:72 | A trailing space is trimmed off a normalised reading. |
| CsvLoader.NormalizeKanaDropsTilde | utils/csvLoader.ts:69-70 | An ASCII `~` or full-width `～` anywhere in a reading makes no difference to its normal form. |
| CsvLoader.NormalizeKanaExampleSouji | utils/csvLoader.test.ts:26-30 | "そうじ (する)" normalises to "そうじ". |
| CsvLoader.NormalizeKanaExampleGatsu | utils/csvLoader.test.ts:32-36 | "~がつ" normalises to "がつ". |
| CsvLoader.NormalizeKanaExampleTabun | utils/csvLoader.test.ts:20-24 | "たぶん" is kept as "たぶん". |
| CsvLoader.SplitLines | utils/csvLoader.ts:78 | Splitting a text gives at least one line, and no line contains a line feed. |
| CsvLoader.SplitLinesJoin | utils/csvLoader.ts:78 | For a text without carriage returns, joining the lines with line feeds gives the text back. |
| CsvLoader.SplitLinesCRLF | utils/csvLoader.ts:78 | A line ended by "\r\n" comes out without its carriage return, followed by the lines of the rest. |
| CsvLoader.SplitLinesLF | utils/csvLoader.ts:78 | A line not ending in a carriage return and ended by a bare line feed comes out as it is, followed by the lines of the rest. |
| CsvLoader.SplitLinesLast | utils/csvLoader.ts:78 | A text without line feeds is a single line. |
| CsvLoader.NonBlank | utils/csvLoader.ts:78 | Keeps exactly the lines that are not all whitespace: every kept line is non-blank and from the input, and every non-blank input line is kept. |
| CsvLoader.NonBlankKeepsVisible | utils/csvLoader.ts:78 | The filter is the lines taken in order, each kept exactly when it is not blank. |
| CsvLoader.VisiblePositions | utils/csvLoader.ts:78 | The k-th kept line is the input line at a strictly increasing position, and the positions are exactly those of the non-blank lines, so order and multiplicity are kept. |
| CsvLoader.HeaderColumns | utils/csvLoader.ts:81-88 | Fails exactly when a column name is missing; otherwise each index is the first position of its name in the header. |
| CsvLoader.WordIdInjective | utils/csvLoader.ts:108 | `word-${i}` ids are equal exactly when the line numbers are. |
| CsvLoader.ParseRow | utils/csvLoader.ts:93-114 | A kept row gives a word named `word-${i}` with a non-empty, normalised, katakana-free reading. |
| CsvLoader.ParseRowSpec | utils/csvLoader.ts:94-114 | A row is kept exactly when it is not blank, has every column, and its normalised reading is non-empty and free of katakana; the word then takes the expression, normalised reading and meaning from its fields. |
| CsvLoader.KeptPositions | utils/csvLoader.ts:92-115 | Gives the position of each kept row, in strictly increasing order. |
| CsvLoader.KeptPositionsComplete | utils/csvLoader.ts:92-115 | Every row that yields a value is among the kept positions. |
| CsvLoader.PresentDistinct | utils/csvLoader.ts:109 | Keeping only present values keeps pairwise distinct values distinct. |
| CsvLoader.RowOutcomes | utils/csvLoader.ts:92-115 | One outcome per data line; the outcome of data line i is named `word-${i}` and is playable. |
| CsvLoader.ParseJlptCsv | utils/csvLoader.ts:77-118 | Gives no words for at most one non-blank line. Fails with "Unexpected CSV header format" exactly when the header lacks a column. Otherwise gives at most one word per data line, each playable. |
| CsvLoader.ParseN5Csv | utils/csvLoader.ts:121-123 | The N5 entry point gives exactly what the general parser gives. |
| CsvLoader.RowWordsSound | utils/csvLoader.ts:92-115 | Every word kept by the row loop is the word of some data line. |
| CsvLoader.RowWordsComplete | utils/csvLoader.ts:92-115 | Every data line that yields a word has that word kept. |
| CsvLoader.ParseJlptCsvRows | utils/csvLoader.ts:77-118 | With a valid header, the parse succeeds, each word comes from a data line, and each data line's word is in the result. |
| CsvLoader.PresentIdsDistinct | utils/csvLoader.ts:108 | Words named after their distinct row numbers stay distinctly named after filtering. |
| CsvLoader.ParseJlptCsvIdsDistinct | utils/csvLoader.ts:108-114 | No two parsed words share an id. |
| CsvLoader.RowLinesSpec | utils/csvLoader.ts:92-114 | Each kept word is named after a data line of the file, and those lines strictly increase. |
| CsvLoader.ParseJlptCsvIdsIncreasing | utils/csvLoader.ts:92-114 | Each parsed word is `word-${i}` for its data line i, with 1 <= i < the number of non-blank lines, and the words come in strictly increasing line order. |
| GridGenerator.CreateEmptyGrid | utils/gridGenerator.ts:10-20 | Gives a size-by-size grid (none for a non-positive size). Each cell knows its row and column, carries the id `${r}-${c}`, and is blank and unflagged. |
| GridGenerator.CellIdsDistinct | utils/gridGenerator.ts:15 | In a well-formed grid, two cells share an id exactly when they are the same cell. |
| GridGenerator.CanPlaceFrom | utils/gridGenerator.ts:25-34 | From position i on, every letter falls inside the grid on a blank cell or on the same letter. |
| GridGenerator.CanPlaceWord | utils/gridGenerator.ts:22-36 | True exactly when every letter of the word falls inside the grid on a blank cell or the same letter; then the whole ray is on the grid. |
| GridGenerator.PlaceWord | utils/gridGenerator.ts:38-42 | Writing a word changes only letters, keeps the grid square, and leaves at most one character in each cell, since each letter goes into a cell of its own. |
| GridGenerator.PlaceWordOffLine | utils/gridGenerator.ts:38-42 | A cell off the word's ray is left untouched. |
| GridGenerator.PlaceFromLastWrite | utils/gridGenerator.ts:39-41 | A ray cell that no later letter revisits ends up holding its letter. |
| GridGenerator.PlaceWordSpec | utils/gridGenerator.ts:64-65 | After a successful check, the word reads along its ray, every letter already on the grid stays, and the grid stays square. |
| GridGenerator.ReadsAtKept | utils/gridGenerator.ts:33 | A word that reads on a grid still reads after later placements, since those only fill blank cells. |
| GridGenerator.FirstFit | utils/gridGenerator.ts:57-70 | Picks the first attempt at which the word fits, or none exactly when no attempt fits. |
| GridGenerator.PlaceOne | utils/gridGenerator.ts:54-70 | A word is appended to the placed list exactly when one of its attempts fits; otherwise nothing changes. No cell ends up with more than one character. |
| GridGenerator.PlaceOneReadable | utils/gridGenerator.ts:54-70 | Placing one word keeps every placed word readable and keeps every letter already on the grid. |
| GridGenerator.PlaceWords | utils/gridGenerator.ts:51-71 | The loop keeps the grid's size, never places more than `count` words, and leaves at most one character per cell. |
| GridGenerator.PlaceAll | utils/gridGenerator.ts:45-71 | Starting from the blank grid, placement gives a well-formed size-by-size grid with at most one character per cell, at most `count` placed words in shuffle order, and each placed word readable where it was put. |
| GridGenerator.PlaceWordsReadable | utils/gridGenerator.ts:51-71 | After the loop, every placed word reads at its recorded place along an allowed axis. |
| GridGenerator.PlaceWordsFromPool | utils/gridGenerator.ts:51-71 | The placed words extend the earlier ones with a subsequence of the remaining pool. |
| GridGenerator.FillCell | utils/gridGenerator.ts:76-78 | A blank cell gets a filler hiragana of exactly one character; a filled cell is unchanged; nothing but the letter ever changes. |
| GridGenerator.FillBlanks | utils/gridGenerator.ts:73-80 | Fills each cell by its own draw, keeping every placed letter and the grid's shape. A grid with at most one character per cell comes out with exactly one in every cell. |
| GridGenerator.FillBlanksNoBlank | utils/gridGenerator.ts:73-80 | After filling, no cell is blank. |
| GridGenerator.GenerateGameGrid | utils/gridGenerator.ts:44-83 | The grid is size-by-size and well formed, and every cell holds exactly one character. At most `count` words are placed, in shuffle order, each from the input list and each readable in the grid along an allowed axis. |
| GridGenerator.GeneratedFromPool | utils/gridGenerator.test.ts:39-42 | Every placed word comes from the input list. |
| GridGenerator.GeneratedReadable | utils/gridGenerator.ts:73-82 | Filling blanks keeps every placed word readable. |
| Selection.Octant | utils/gridGenerator.ts:93-94 | The snapped direction index is one of the eight compass points. |
| Selection.MovesSomewhere | utils/gridGenerator.ts:93-109 | Every non-zero drag moves along rows, columns or both, and only along an axis it actually moves on. |
| Selection.SnapStep | utils/gridGenerator.ts:93-109 | The step is a compass step; it follows the drag's sign on each axis the drag mostly moves along and is 0 on the other. |
| Selection.SnapStepStraight | utils/gridGenerator.ts:98-109 | A horizontal, vertical or 45-degree drag snaps to exactly its own direction. |
| Selection.Walk | utils/gridGenerator.ts:115-126 | Walks from the start along the step, keeps only in-bounds cells, and stops at the first cell off the board or after `steps`. |
| Selection.GetSelectedCells | utils/gridGenerator.ts:85-128 | A click gives the start cell alone. Otherwise the cells lie on the snapped ray from the start, all on the board, at most max(\|dx\|,\|dy\|)+1 of them, cut short only at the board edge. |
| Selection.StraightSelection | utils/gridGenerator.ts:85-128 | A straight drag between two board cells selects every cell between them, from start to end inclusive. |
| Selection.StraightSelectionOfThree | utils/gridGenerator.ts:113-126 | A straight drag of two steps selects the start, the cell between and the end. |
| Selection.SelectionExampleCells | utils/gridGenerator.test.ts:56-62 | Dragging from (2,1) to (2,3) on a 5x5 board selects three cells from start to end. |
| Selection.GetWordFromCells | utils/gridGenerator.ts:130-132 | Reading single-character cells gives one character per cell, in order. |
| Selection.ReadAlongWord | utils/gridGenerator.ts:130-132 | Reading the cells of a word's ray spells that word. |
| Selection.ReadReversed | components/Grid.tsx:77-78 | Reading the cells backwards gives the reversal of reading them forwards. |
| Selection.ExampleGrid | utils/gridGenerator.test.ts:48-54 | A 5x5 grid holding A, B and C at (2,1), (2,2) and (2,3). |
| Selection.SelectionExample | utils/gridGenerator.test.ts:46-66 | The drag from (2,1) to (2,3) reads "ABC". |
| App.StartNewGame | App.tsx:15-21 | A new game holds the generated grid and words, nothing found, no win dialog, and satisfies the invariant. |
| App.MatchIndex | App.tsx:29-31 | Finds the first game word that reads `s` and is not found yet, or -1 exactly when there is none. |
| App.MatchesFrom | App.tsx:55-63 | True exactly when every remaining character of `s` lies on the grid along the ray and equals the cell there. |
| App.MarkRay | App.tsx:65-69 | Sets the found flag on exactly the ray's cells and changes nothing else. |
| App.FlagAt | App.tsx:51-71 | One scan step flags exactly the cells of the occurrence at that origin and direction, if `s` reads there. |
| App.FlagAllSpec | App.tsx:49-74 | Scanning a list of places flags a cell exactly when it was flagged or some place in the list covers it. |
| App.ScanRows | App.tsx:49-51 | From a given row down, the scan visits exactly every cell of the board in all three directions. |
| App.ScanCols | App.tsx:50-51 | The inner scan visits exactly the cells of the row from a given column, in all three directions. |
| App.FlagOccurrences | App.tsx:41-75 | The re-scan changes only found flags and keeps the grid square. |
| App.FlagOccurrencesSpec | App.tsx:41-75 | After the re-scan, a cell is flagged exactly when it was flagged before or lies on an occurrence of `s` along an allowed axis. |
| App.OccurrenceSameChars | App.tsx:41-75 | Whether a cell lies on an occurrence does not depend on flags. |
| App.FlagOccurrencesIdempotent | App.tsx:41-75 | Re-scanning for the same string a second time changes nothing. |
| App.EmptyStringFlagsNothing | App.tsx:46-69 | Scanning for the empty string flags no cell. |
| App.HandleWordCheck | App.tsx:27-85 | Nothing changes exactly when no unfound word reads `s`. Otherwise the matched word is an unfound game word with that reading. Its id is appended, the grid becomes the re-scan for `s` (see App.FlagOccurrencesSpec), and the win flag is raised once all words are found. |
| App.HandleWordCheckFirst | App.tsx:29-31 | The matched word is the first unfound game word with that reading. |
| App.HandleWordCheckKeepsInv | App.tsx:27-85 | Found ids stay distinct ids of this game's words. |
| App.WinMeansAllFound | App.tsx:78-80 | With distinct word ids, reaching as many found ids as words means every word has been found. |
| GridBoard.PointerDown | components/Grid.tsx:28-41 | A non-primary mouse button is ignored; otherwise the selection starts and ends at the pressed cell. |
| GridBoard.UpdateSelection | components/Grid.tsx:21-26 | With a start set, the selection becomes the snapped path to the new end; with none, nothing changes. |
| GridBoard.PointerMove | components/Grid.tsx:45-65 | A move is ignored when nothing is being selected, no cell is hit, an index is negative, or the end is unchanged. Otherwise the selection is re-snapped to the hit cell. |
| GridBoard.SelectedString | components/Grid.tsx:77 | When every selected cell holds one character, the string is those characters in path order. |
| GridBoard.PointerUp | components/Grid.tsx:67-89 | Does nothing while idle. Otherwise checks the string, checks its reversal only when that found nothing, and clears the selection. |
| GridBoard.IdleInv | components/Grid.tsx:14-17 | The initial board satisfies the invariant. |
| GridBoard.PointerDownKeepsInv | components/Grid.tsx:28-41 | Pressing a board cell keeps every selected cell on the board. |
| GridBoard.PointerMoveKeepsInv | components/Grid.tsx:45-65 | The snapped selection and the hit cell stored as its end never leave the board. |
| GridBoard.PointerUpKeepsInv | components/Grid.tsx:67-89 | A release keeps both the board invariant and the game invariant. |
| GridBoard.ReleaseFindsWord | components/Grid.tsx:77-84 | A selection laid exactly along a word in the grid, forwards or backwards, finds a game word when an unfound one has that reading. |

## Left out

- `utils/sound.ts`, `utils/wordSource.ts`, `components/WordList.tsx` and
  the JSX rendering are not part of this model: they hold sound, fetching
  and display, not game logic.
- React state, hooks and re-rendering are modelled as plain state values
  passed between functions.
- The 500 ms `setTimeout` before the win dialog opens: the model raises
  the win flag at once.
- `navigator.vibrate`, `preventDefault` and pointer capture: they are
  I/O with no effect on the state.
- DOM hit-testing (`elementFromPoint`, `closest`, `parseInt` of the data
  attributes): the move handler receives the cell under the pointer, or
  none.
- `Math.random`: the shuffle, the attempt draws and the filler draws are
  inputs. The model admits any draw the program can make, and says
  nothing about their distribution.
- Selection.Octant: `Math.atan2` and `Math.round` on floating point are
  replaced by an exact integer rule. A drag moves along columns when
  2·dy² < (|dx|+|dy|)² and along rows when 2·dx² < (|dx|+|dy|)². This is
  the rounding of the angle to the nearest multiple of 45 degrees, except
  exactly on the 22.5-degree boundaries. No grid drag lands on such a
  boundary, since it would need an irrational slope.
- `GRID_SIZE` and `WORD_COUNT_PER_GAME` are the `size` and `count`
  parameters. `JLPT_N5_WORDS` is the `allWords` parameter.
- Strings are sequences of Unicode characters. Every character the game
  uses lies in the Basic Multilingual Plane, where this agrees with the
  UTF-16 code units JavaScript indexes.
- The line split `/\r?\n/` is modelled as a split at line feeds that
  drops one carriage return before each line feed.
- `trim` uses the ECMAScript whitespace and line-terminator set.
- The optional `isPartOfWord` field is a boolean; absent means false.
- GridGenerator.GenerateGameGrid: one test title says words are placed
  "without intersections". The code allows crossings where the letters
  agree, and the model follows the code.
- App.HandleWordCheck: the re-scan flags every occurrence of the string
  in the grid, not only the one the player dragged over, as the code does.
- GridBoard.PointerUp: the second check in the code runs against state
  from before the first check. That check found nothing and changed
  nothing, so the model passes the unchanged state along.
