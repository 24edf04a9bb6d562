# Heatmap Generator: manual-text parser and window state

This project models the core of a small desktop heatmap tool (`heatMap.py`).
The user types or loads comma-separated numbers, the tool renders them as a
heatmap, the image can be saved, and the window can be cleared. Two things
here have rules that can be stated exactly, and the model covers both.

- **The manual-text parser** of `HeatmapApp.generate_from_text`. It strips
  the text and splits it into lines at `'\n'`. It strips each line and
  splits it into tokens at `','`. It converts each token with
  `float(val.strip())`. The first token that does not convert, in row-major
  order, raises `Invalid number at row {i}, column {j}: '{val}'` with 1-based
  `i` and `j` and the token as split (before its own strip).
  `GridParser.ParseText` keeps the source's two nested loops, which build
  `data` and `row` by appending. It is proved equal to the reference
  function `GridParser.Parse`. That function reads the text as `Cells`,
  the raw tokens line by line, and parses them with `ParseRows`. The
  contracts of `ParseRow` and `ParseRows` pin its outcome down completely:
  on success, one row per line and one cell per token, in order; on
  failure, the first bad cell and its 1-based position.
- **The window state**: the text box contents, the status label, whether an
  image is shown and whether the save button is enabled. The class
  `Heatmap.HeatmapApp` holds these four fields. Its methods are the button
  handlers `load_file`, `generate_from_text`, `show_heatmap`,
  `save_heatmap` and `clear_all`, plus the initial state set up in
  `__init__`. Typing into the text box is the method `EditText`. The
  invariant `Valid()` says save is only enabled while a rendered heatmap is
  shown. Every handler preserves it.

Module `PyStr` models Python's `str.strip()` with no argument, `str.split(sep)`
for a one-character separator, and the f-string rendering of a non-negative
`int`. These are the only forms the source uses. `float()` is a parameter
`toFloat: string -> Option<T>`: `None` stands for `ValueError`, and the
float type `T` is left abstract. Lemmas that rely on `float('')` raising
take `toFloat("") == None` as a precondition. The renderer, the CSV reader,
the file dialogs and the file move are parameters too. Each is either the
path the user picked or an `Outcome` (`Done` or `Raised(message)`), so
every success/failure combination is covered.

A heatmap grid is meant to be rectangular, but the code does not enforce
that: rows of different lengths are accepted as they are. The model follows
the code (`ExampleRaggedRows`).

Files: `wrappers.dfy` (Option, Result, Outcome), `pystr.dfy` (module
`PyStr`), `grid_parser.dfy` (module `GridParser`), `heatmap_app.dfy`
(module `Heatmap`).

## Model

| member | source | states |
|---|---|---|
| `PyStr.TrimLeftSuffix` | heatMap.py:118 | `lstrip` keeps the longest suffix that does not start with whitespace, and everything it drops is whitespace |
| `PyStr.TrimRightPrefix` | heatMap.py:118 | `rstrip` keeps the longest prefix that does not end with whitespace, and everything it drops is whitespace |
| `PyStr.StripIsTheTrimmedSlice` | heatMap.py:118 | `strip()` is the one slice whose margins are whitespace and whose first and last characters are not |
| `PyStr.StripAllSpace` | heatMap.py:118 | all-whitespace text strips to `""` |
| `PyStr.StripEmptyIffAllSpace` | heatMap.py:118 | `strip()` is empty exactly when the text is all whitespace (both directions) |
| `PyStr.StripIdempotent` | heatMap.py:122-124 | stripping an already stripped line or token changes nothing |
| `PyStr.StripUnchanged` | heatMap.py:124 | text with non-whitespace ends is its own strip |
| `PyStr.Split` | heatMap.py:118 | `split(sep)` always gives at least one piece, and no piece contains the separator |
| `PyStr.JoinSplit` | heatMap.py:118 | joining the pieces of `split(sep)` with `sep` gives back the text |
| `PyStr.SplitJoin` | heatMap.py:122 | splitting a join of separator-free pieces gives back the pieces |
| `PyStr.SplitCount` | heatMap.py:118 | `split(sep)` gives one more piece than there are separators |
| `PyStr.SplitTrailingSeparator` | heatMap.py:122 | text ending in the separator has `''` as its last piece |
| `PyStr.SplitDoubledSeparator` | heatMap.py:122 | two adjacent separators produce an empty piece after the first |
| `PyStr.NatToString` | heatMap.py:126 | `{i}` renders a non-empty digit string with no leading zero |
| `PyStr.DecimalRoundTrip` | heatMap.py:126 | reading the rendered digits back gives the number |
| `PyStr.NatToStringInjective` | heatMap.py:126 | different row or column numbers render differently |
| `GridParser.ParseRow` | heatMap.py:121-126 | one line's tokens give their `float(val.strip())` values, one per token in order, or the index of the first token that does not convert, all earlier ones converting |
| `GridParser.TokenRowsAt` | heatMap.py:118-122 | row `i` of the cells is the stripped line `i` split at `','` |
| `GridParser.ParseRows` | heatMap.py:119-127 | success gives one grid row per line, each one value per token; failure gives the 1-based row and column of the first bad token in row-major order, quotes that raw token, and every earlier token converts |
| `GridParser.ParseRowsFailsAt` | heatMap.py:120-126 | the parse fails at exactly the first bad token in row-major order, naming position (i+1, j+1) and the token |
| `GridParser.BadTokenBounds` | heatMap.py:120-126 | any token that does not convert makes the parse fail, at that token or an earlier one in row-major order |
| `GridParser.ParseRowsSucceedsWith` | heatMap.py:119-127 | when every token converts, the parse yields exactly the grid of their values |
| `GridParser.ParseSucceedsIffAllConvert` | heatMap.py:118-127 | parsing succeeds exactly when every token of every line converts (both directions) |
| `GridParser.ParseText` | heatMap.py:117-127 | the nested append loops with early raise compute exactly `Parse(text)` |
| `GridParser.BlankTextFailsAtOrigin` | heatMap.py:118-126 | empty or whitespace-only text fails at row 1, column 1 quoting `''` |
| `GridParser.BlankTokenFails` | heatMap.py:122-126 | an empty or all-whitespace token makes the parse fail at that token or an earlier one |
| `GridParser.TrailingCommaFails` | heatMap.py:122-126 | a line ending in a comma has `''` as its last token; the parse fails at that token or earlier in row-major order, and exactly there, quoting `''`, when every earlier token converts |
| `GridParser.DoubledCommaFails` | heatMap.py:122-126 | a line with two adjacent commas has an empty token after its first; the parse fails at such a token or earlier in row-major order, and any empty token after the first fails exactly there, quoting `''`, when every earlier token converts |
| `GridParser.ExampleSquareGrid` | heatMap.py:118-127 | `"1,2\n3,4"`, and any text of that shape of one-character cells that convert, parses to the 2-by-2 grid of their values |
| `GridParser.ExampleBadCell` | heatMap.py:120-126 | `"1,2\n3,x"`, and any text of that shape whose last cell alone does not convert, fails at row 2, column 2 quoting that cell |
| `GridParser.ExampleBadCellMessage` | heatMap.py:126 | that error's message is `Invalid number at row 2, column 2: 'x'` |
| `GridParser.ExampleRaggedRows` | heatMap.py:121-128 | `"1,2\n3"`, and any text of that shape, is accepted with rows of lengths 2 and 1; rectangularity is not enforced |
| `GridParser.ExampleQuotesRawToken` | heatMap.py:122-126 | in `"1, x"`, and any text of that shape, the error quotes `" x"`, the token before its own strip |
| `GridParser.MessageDeterminesError` | heatMap.py:126 | the error message determines the row, the column and the token |
| `Heatmap.HeatmapApp.EditText` | heatMap.py:117 | the user's editing of the text box, which the source has no code for: the text becomes the typed contents and nothing else changes; this is the text `generate_from_text` reads |
| `Heatmap.HeatmapApp.constructor` | heatMap.py:77-103 | the window opens with empty text, status "Waiting for input...", no image and save disabled |
| `Heatmap.HeatmapApp.ShowHeatmap` | heatMap.py:134-147 | a successful render shows the image, enables save and reports "✅ Heatmap generated successfully."; a failing render changes nothing and passes the error on |
| `Heatmap.HeatmapApp.LoadFile` | heatMap.py:105-113 | a cancelled dialog changes nothing; a read or render error sets "Error: ..." and leaves image and save as they were; success renders |
| `Heatmap.HeatmapApp.GenerateFromText` | heatMap.py:115-132 | a bad token sets "Input error: " plus that token's message and leaves image and save unchanged; a render error sets "Input error: ..." likewise; success renders and enables save |
| `Heatmap.HeatmapApp.SaveHeatmap` | heatMap.py:150-158 | a cancelled dialog changes nothing; a successful move reports the path and disables save; a failed move sets "Save error: ..." and leaves save as it was |
| `Heatmap.HeatmapApp.ClearAll` | heatMap.py:160-164 | whatever the prior state: empty text, no image, status "Cleared.", save disabled, so clearing twice is clearing once |
| `Heatmap.ExampleFirstRender` | heatMap.py:77-103 | a fresh window given parsable text and a working renderer ends with the image shown, save offered and the success status |
| `Heatmap.ExampleRejectText` | heatMap.py:115-132 | bad text entered while a heatmap is shown reports its error and keeps the image and the save button |

## Left out

- Widget construction, layout and stylesheet (heatMap.py:14-103): user-interface code only. Only the four stateful fields and the scratch-file name are kept.
- `pd.read_csv` (heatMap.py:109): a foreign library. Only its success or failure reaches the state, as the `read` outcome of `LoadFile`.
- `pd.DataFrame(data)` (heatMap.py:128): modelled as never raising. The model does not pass the grid on to the renderer.
- The seaborn/matplotlib rendering, `savefig` and `QPixmap` (heatMap.py:135-145): plotting and display calls, modelled as the `render` outcome given to `ShowHeatmap`.
- Heatmap.HeatmapApp.ShowHeatmap: the displayed image is a flag (`imageShown`), not the picture of a particular grid.
- The file dialogs and `os.replace` (heatMap.py:106, 151, 154): the chosen path and the move's outcome are parameters. Whether the scratch file exists on disk is not tracked.
- The internals of Python `float()` and IEEE-754 values: abstracted as the `toFloat` parameter.
- The Qt event loop and the `__main__` startup (heatMap.py:166-170). A disabled Qt button delivers no clicks, so the user cannot reach `save_heatmap` while save is disabled. The model does not impose this: the handler may be called in any state, and `Valid()` records when saving is offered.
