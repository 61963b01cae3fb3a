# Nonogram creator: clue derivation, board editing and picture layout

A Dafny model of the core of a small nonogram ("paint by clue-runs") authoring
tool. The user picks a board size, toggles cells of a 0/1 board, and the tool
derives the clues: for every row and every column, the lengths of its maximal
runs of filled cells, or the single clue `[0]` for a line with no filled cell.
On export it renders two pictures. One is the full board. The other is the
partial reveal: an empty board of the same shape on which one fifth (rounded
down) of the filled cells, taken in a shuffled order, are filled again. Both
pictures carry the clues of the full board.

Modules, one per component of `app.py`:

- `Grids` (grids.dfy): the board as a value (`Grid`: height, width, rows of
  integers), its rows and columns, the filled-cell set, and `Snapshot`, which
  reads the mutable `array2<int>` the application edits into such a value.
- `Clues` (clues.dfy): `Runs`, an independent recursive definition of the
  maximal runs of a line, and `Clue`, which adds the `[0]` sentinel. The
  method `CalculateRestrictions` is the source's one-pass loop, proved equal
  to `Clue`. `Restrictions` and the method `CreateRestrictions` give the clue
  set of a whole board. `Packed` builds the shortest line with given runs; it
  serves as an inverse of the clue.
- `Boards` (boards.dfy): the in-place toggle on the `array2<int>`, the
  row-major list of filled positions (`np.where`), and the in-place
  construction of the partial board.
- `Decimal` (decimal.dfy): `str()` of an integer, used for the clue text of
  the picture.
- `Texts` (texts.dfy): `str.split` on one separator character and `str.join`,
  with the proofs that each undoes the other.
- `Render` (render.dfy): the integer geometry of `save_image`: canvas size,
  cell squares, and where the clue labels go.
- `App` (app.dfy): `int()` on text, the `"rows,cols"` parse, the board set-up
  step, and the export step that builds both pictures.

A cell counts as filled exactly when it holds 1, as in the source (`cell == 1`,
`board == 1`). Cells are unbounded integers. Toggling a cell computes
`1 - value`, so it flips only 0 and 1. That is all the application ever
stores.

`random.shuffle` is replaced by a permutation `perm` of the indices of the
filled-position list, passed in by the caller (`IsPermutation`). The shuffled
list is `Shuffled(positions, perm)`.

In three places the code does not do what its prompt and its error message suggest; the model follows the code:

- Zero sizes are accepted. `np.zeros((0, m))` is a valid board, and its `m`
  columns each get the clue `[0]`.
- A negative size is rejected only while no board is stored yet. The
  rejection comes from `np.zeros` raising `ValueError`.
- The stored board is never replaced when new dimensions are typed in. This
  is reported under Findings.

## Model

| member | source | states |
|---|---|---|
| `Clues.CalculateRestrictions` | app.py:13-24 | the loop's result equals `Clue(line)`: the maximal runs of filled cells, left to right, or `[0]` when there are none |
| `Clues.RunsPositive` | app.py:16-23 | every run length found is at least 1 and at most the line length |
| `Clues.RunsEmptyIff` | app.py:16-24 | a line has no runs exactly when none of its cells holds 1 |
| `Clues.RunsSum` | app.py:16-23 | the run lengths add up to the number of filled cells of the line |
| `Clues.RunsFit` | app.py:13-24 | the runs plus one separating gap between neighbours fit in the line: sum + count - 1 <= length |
| `Clues.ClueProperties` | app.py:13-24 | the clue is `[0]` iff the line is empty; otherwise all values are >= 1 and add up to the filled count; sum + count - 1 <= length always |
| `Clues.PackedRoundTrip` | app.py:13-24 | any nonempty list of positive run lengths is the clue of its packed line, and that line has length exactly sum + count - 1 |
| `Clues.SingleRun` | app.py:16-23 | a line of k >= 1 filled cells has the single run `[k]` |
| `Clues.Restrictions` | app.py:26-28 | one clue list per row and one per column: `|rows| == height`, `|cols| == width` |
| `Clues.RestrictionsProperties` | app.py:26-28 | row clue i is the clue of row i, column clue j is the clue of column j (`board[:, j]`); each is `[0]` iff its line is empty and fits its line |
| `Clues.ZerosRestrictions` | app.py:26-28 | on an all-empty board every row and every column clue is `[0]` |
| `Clues.CreateRestrictions` | app.py:12-28 | on the application's array, returns exactly `Restrictions` of its contents, computed line by line with `CalculateRestrictions` |
| `Clues.ExampleTwoByThree` | app.py:12-28 | `[[1,1,0],[0,0,1]]` has row clues `[[2],[1]]` and column clues `[[1],[1],[1]]` |
| `Boards.Flipped` | app.py:75 | cell (i, j) becomes `1 - value`; every other cell and the shape stay the same |
| `Boards.Toggle` | app.py:75 | writes `1 - board[i, j]` into the array in place and changes no other cell |
| `Boards.FlipBinary` | app.py:75 | on a 0/1 board a toggle keeps the board 0/1, fills the cell iff it was empty, and changes the filled set by exactly that cell |
| `Boards.FlipTwice` | app.py:75 | toggling the same cell twice restores the board and its clues |
| `Boards.ToggleTwice` | app.py:75 | two clicks on one cell of the array leave its contents and its clues unchanged |
| `Boards.FilledPositions` | app.py:84 | lists exactly the filled cells, in strictly increasing row-major order |
| `Boards.FilledPositionsCount` | app.py:84 | the filled-position list is as long as the number of filled cells |
| `Boards.Shuffled` | app.py:85 | the reordered list has the same length, takes its elements from the original, and has no repeats if the original has none |
| `Boards.ShuffledMultiset` | app.py:85 | the reordered list is a permutation of the original: every element occurs in it exactly as often as in the original |
| `Boards.PermutationOnto` | app.py:85 | an order of the indices below n that lists each at most once lists every one of them |
| `Boards.Reveal` | app.py:87-89 | a 0/1 board of the given shape whose filled cells are exactly the listed positions |
| `Boards.PartialGridProperties` | app.py:84-89 | the partial board has the original's shape, is 0/1, fills only cells the original fills, and fills exactly floor(filled / 5) cells |
| `Boards.FillCells` | app.py:88-89 | sets every listed cell of the array to 1 and leaves every other cell as it was |
| `Boards.BuildPartialBoard` | app.py:84-89 | a fresh array whose contents are `PartialGrid` of the board and the permutation |
| `Decimal.NatToStringValue` | app.py:47 | the decimal text of n reads back as n and starts with 0 only for n = 0 |
| `Decimal.IntToString` | app.py:51 | `str(n)` is nonempty, starts with a minus sign exactly when n < 0, and otherwise consists of decimal digits denoting the absolute value of n, with a leading 0 only for n = 0 |
| `Texts.Join` | app.py:47 | the joined text is exactly as long as the parts together plus one separator between each pair of neighbours; no parts give the empty text |
| `Texts.JoinSplit` | app.py:47 | splitting at the separator gives back the joined parts when no part contains the separator |
| `Render.CellRectInCanvas` | app.py:31-44 | every cell square `[j*30+50, i*30+50, j*30+80, i*30+80]` lies on the `cols*30+100` by `rows*30+100` canvas, 50 units clear of each edge |
| `Render.CellRectsTile` | app.py:39-44 | squares of different cells share at most their borders, and neighbouring squares do share one |
| `Render.RowLabelPlacement` | app.py:46-47 | a row label at `(10, i*30+55)` starts in the left margin, within that row's band |
| `Render.ColumnLabelPlacement` | app.py:49-51 | the k-th column label at `(j*30+55, 10+k*10)` starts within that column's band, and is above the grid exactly when k < 4 |
| `Render.SaveImage` | app.py:30-51 | the canvas is `cols*30+100` by `rows*30+100`; there is one square per cell, black exactly when the cell is filled, each on the canvas; row label i is `RowLabel(i, rows[i])` and column label (j, k) is `ColumnLabel(j, k, cols[j][k])`, one for each row clue and each value of each column clue |
| `Render.SaveImageLayout` | app.py:39-51 | in the whole picture, squares of different cells overlap at most on a border; every row label starts in the left margin inside its row's band; every column label starts inside its column's band, above the grid exactly for the first four values |
| `Texts.SplitJoin` | app.py:63 | joining the pieces of `split(",")` with commas gives the text back, and there is one more piece than there are commas |
| `App.ParseInt` | app.py:63 | a number is read only from text that, once the surrounding white space is removed, is an optional sign and 1 to 4300 digits denoting that number |
| `App.ParseIntIff` | app.py:63 | `int(text)` gives v exactly when the trimmed text is an optional sign and 1 to 4300 digits denoting v |
| `App.ParseIntTooManyDigits` | app.py:63 | 4301 digits make `int()` fail, as CPython's default digit limit does |
| `App.ParseIntAccepts` | app.py:63 | `int(" 3\n") == 3` |
| `App.ParseIntRejects` | app.py:63 | U+001C before a number, and a space inside one, make `int()` fail |
| `App.ParseIntRoundTrip` | app.py:63 | `int(str(n)) == n` for every n of at most 4300 digits, the integers `str()` and `int()` accept |
| `App.ParseDimensions` | app.py:63 | a result is produced only when the text splits into exactly two fields |
| `App.ParseDimensionsRoundTrip` | app.py:63 | the text `"<rows>,<cols>"` reads back as those two integers, for integers of at most 4300 digits |
| `App.ParseDimensionsOneField` | app.py:63 | the text `"3"` is not accepted |
| `App.SubmitAsWritten` | app.py:61-65 | empty text yields no input; the text is invalid iff it does not parse, or a size is negative while no board is stored; a stored board is always returned unchanged; otherwise the board is an empty one of the parsed shape |
| `App.StaleBoardAfterResize` | app.py:61-65 | as written, once a 3 by 3 board is stored, the text "5,5" still yields the 3 by 3 board |
| `App.Submit` | app.py:61-65 | empty text, and only empty text, yields no input; a board it yields has the parsed shape; the input is invalid iff it does not parse or a size is negative; a stored board of the right shape is kept; any other board yielded is empty |
| `App.SubmitFirstTime` | app.py:61-65 | with no board stored, `Submit` and the code as written agree |
| `App.RowLabelReadsBack` | app.py:46-47 | the text of a row label splits at spaces into exactly the clue's values, each read back by `int()`, for values of at most 4300 digits |
| `App.GenerateImages` | app.py:77-91 | the full picture is of the board and the partial one of `PartialGrid`, both with the full board's clues: same canvas size, same row and column labels |

## Left out

- The Streamlit interface is not modelled: title, text field, button grid, writing the clues, download buttons (app.py:58-60, 67-74, 78-79, 81, 92-93). It is framework glue with no logic of its own.
- `st.session_state` is modelled only as the optional stored board passed to `SubmitAsWritten` and `Submit`.
- PIL drawing, fonts, the RGB image and PNG encoding into `io.BytesIO` are not modelled (app.py:36-37, 44, 47, 51, 53-56). A picture is its canvas size, its cell squares and colours, and its labels with their text. Text extent is not modelled, so whether a long row label reaches into the grid is not stated.
- `random.shuffle` (app.py:85) is replaced by a caller-supplied permutation. Randomness itself is not modelled.
- `App.ParseInt`: models `int()` for ASCII text only: surrounding space, tab, line feed, vertical tab, form feed or carriage return, an optional sign, then ASCII digits. Python also accepts `_` between digits, non-ASCII digits and non-ASCII white space such as U+0085. The model rejects those. The limit of 4300 digits is CPython's default; a program can change it with `sys.set_int_max_str_digits`, and this one does not.
- `App.SubmitAsWritten`: does not model what happens after set-up when the typed size differs from the stored board. The button loop then reads past the board (an uncaught `IndexError`) or shows only part of it. The model stops at returning the stored board.
- `Decimal.IntToString`: CPython's `str()` raises `ValueError` for an integer of more than 4300 digits; the model writes every integer. The only numbers the application writes are clue values, which are at most the side of the board.
- `App.SubmitAsWritten`, `App.Submit`: sizes are unbounded integers. `np.zeros` fails for sizes past numpy's limits. Beyond the largest allowed dimension it raises `ValueError`, which app.py:95-96 reports as invalid dimensions; below that, an array too large for memory raises `MemoryError`. The model yields an empty board of any non-negative size instead.
- The error Streamlit raises for zero button columns is not modelled.
- The prose before and after the code block of app.py (lines 1-3 and 99) is not code.

## Findings

| source | as written | input that shows it | evidently intended | confidence | as-written member | corrected member |
|---|---|---|---|---|---|---|
| app.py:64-65 | the board is created only when none is stored, so new dimensions never replace it | enter "3,3", then "5,5": the 3 by 3 board is kept, and the 5 by 5 button loop indexes `board[0, 3]`, which raises `IndexError` | keep the stored board only when it has the requested shape; otherwise start an empty board of that shape | high; not executed | `App.StaleBoardAfterResize` | `App.Submit` |
