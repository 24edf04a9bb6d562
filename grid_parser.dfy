/** The manual-text grid parser of `HeatmapApp.generate_from_text`: the
    text is stripped and split into lines at `'\n'`, each line is stripped
    and split into tokens at `','`, and each token is stripped and converted
    with `float()`. The first token that does not convert, in row-major
    order, aborts the parse with a `ValueError` naming its 1-based row and
    column and quoting the token as it was split. */
module GridParser {
  import opened Wrappers
  import opened PyStr

  /** Python's `float()` on a stripped token: `Some(x)` when it returns `x`,
      `None` when it raises `ValueError`. Its grammar and the float values
      themselves are left abstract. */
  type Converter<T> = string -> Option<T>

  /** The rows handed to `pd.DataFrame`; rows may differ in length. */
  type Grid<T> = seq<seq<T>>

  /** `ValueError(f"Invalid number at row {row}, column {column}: '{token}'")`. */
  datatype ParseError = InvalidNumber(row: nat, column: nat, token: string)

  /** `str()` of the raised `ValueError`. */
  function Message(e: ParseError): string
  {
    "Invalid number at row " + (NatToString(e.row) + (", column " + (NatToString(e.column) +
    (": '" + (e.token + "'")))))
  }

  /** `text.strip().split("\n")`. */
  function Lines(text: string): seq<string>
  {
    Split(Strip(text), '\n')
  }

  /** `line.strip().split(",")`: the raw tokens `val` of one line. */
  function Tokens(line: string): seq<string>
  {
    Split(Strip(line), ',')
  }

  /** `float(val.strip())` returns rather than raising. */
  predicate Converts<T>(val: string, toFloat: Converter<T>)
  {
    toFloat(Strip(val)).Some?
  }

  /** `row` holds, in order, the `float()` value of every token of `vals`. */
  ghost predicate RowOf<T>(vals: seq<string>, row: seq<T>, toFloat: Converter<T>)
  {
    |row| == |vals| && forall j :: 0 <= j < |vals| ==> toFloat(Strip(vals[j])) == Some(row[j])
  }

  /** Every token of `vals` before index `j` converts. */
  ghost predicate ConvertsBefore<T>(vals: seq<string>, j: nat, toFloat: Converter<T>)
  {
    forall k :: 0 <= k < j && k < |vals| ==> Converts(vals[k], toFloat)
  }

  /** The raw tokens of each line, in order. */
  function TokenRows(lines: seq<string>): (rows: seq<seq<string>>)
    ensures |rows| == |lines|
  {
    if lines == [] then [] else TokenRows(lines[..|lines| - 1]) + [Tokens(lines[|lines| - 1])]
  }

  /** Row `i` of the tokens is the tokens of line `i`. */
  lemma {:induction false} TokenRowsAt(lines: seq<string>, i: nat)
    requires i < |lines|
    ensures TokenRows(lines)[i] == Tokens(lines[i])
    decreases |lines|
  {
    var n := |lines| - 1;
    if i < n {
      TokenRowsAt(lines[..n], i);
      assert lines[..n][i] == lines[i];
    }
  }

  /** The raw tokens of the text box, line by line: what the two loops of
      `generate_from_text` visit. */
  function Cells(text: string): seq<seq<string>>
  {
    TokenRows(Lines(text))
  }

  /** Every token of the first `i` rows converts. */
  ghost predicate RowsConvertBefore<T>(rows: seq<seq<string>>, i: nat, toFloat: Converter<T>)
  {
    forall i' :: 0 <= i' < i && i' < |rows| ==> ConvertsBefore(rows[i'], |rows[i']|, toFloat)
  }

  /** The values of one line's tokens, or the 0-based index of the first
      token that does not convert. */
  function ParseRow<T>(vals: seq<string>, toFloat: Converter<T>): (r: Result<seq<T>, nat>)
    ensures r.Success? ==> RowOf(vals, r.value, toFloat)
    ensures r.Failure? ==>
      r.error < |vals| && !Converts(vals[r.error], toFloat) && ConvertsBefore(vals, r.error, toFloat)
    decreases |vals|
  {
    if vals == [] then Success([])
    else
      var n := |vals| - 1;
      match ParseRow(vals[..n], toFloat)
      case Failure(j) => Failure(j)
      case Success(row) =>
        match toFloat(Strip(vals[n]))
        case None => Failure(n)
        case Some(x) => Success(row + [x])
  }

  /** The grid of `rows`, one grid row per row and one cell per token, or
      the position of the first token in row-major order that does not
      convert, reported 1-based together with the raw token. */
  function ParseRows<T>(rows: seq<seq<string>>, toFloat: Converter<T>): (r: Result<Grid<T>, ParseError>)
    ensures r.Success? ==>
      |r.value| == |rows| &&
      forall i :: 0 <= i < |rows| ==> RowOf(rows[i], r.value[i], toFloat)
    ensures r.Failure? ==>
      var e := r.error;
      1 <= e.row <= |rows| && 1 <= e.column <= |rows[e.row - 1]| &&
      e.token == rows[e.row - 1][e.column - 1] &&
      !Converts(e.token, toFloat) &&
      RowsConvertBefore(rows, e.row - 1, toFloat) &&
      ConvertsBefore(rows[e.row - 1], e.column - 1, toFloat)
    decreases |rows|
  {
    if rows == [] then Success([])
    else
      var n := |rows| - 1;
      match ParseRows(rows[..n], toFloat)
      case Failure(e) =>
        RowsConvertBeforePrefix(rows, n, e.row - 1, toFloat);
        Failure(e)
      case Success(grid) =>
        match ParseRow(rows[n], toFloat)
        case Failure(j) =>
          RowsConvert(rows[..n], grid, toFloat);
          RowsConvertBeforePrefix(rows, n, n, toFloat);
          Failure(InvalidNumber(n + 1, j + 1, rows[n][j]))
        case Success(row) =>
          RowsExtend(rows, grid, row, toFloat);
          Success(grid + [row])
  }

  /** Whether the first `i` rows convert depends only on those rows. */
  lemma RowsConvertBeforePrefix<T>(rows: seq<seq<string>>, n: nat, i: nat, toFloat: Converter<T>)
    requires i <= n <= |rows|
    ensures RowsConvertBefore(rows[..n], i, toFloat) <==> RowsConvertBefore(rows, i, toFloat)
  {
    assert forall i' :: 0 <= i' < i ==> rows[..n][i'] == rows[i'];
  }

  /** A grid matching every row means every token converts. */
  lemma RowsConvert<T>(rows: seq<seq<string>>, grid: Grid<T>, toFloat: Converter<T>)
    requires |grid| == |rows|
    requires forall i :: 0 <= i < |rows| ==> RowOf(rows[i], grid[i], toFloat)
    ensures RowsConvertBefore(rows, |rows|, toFloat)
  {
    forall i | 0 <= i < |rows|
      ensures ConvertsBefore(rows[i], |rows[i]|, toFloat)
    {
      assert RowOf(rows[i], grid[i], toFloat);
    }
  }

  /** Appending the values of the last row to the grid of the others gives
      the grid of all rows. */
  lemma RowsExtend<T>(rows: seq<seq<string>>, grid: Grid<T>, row: seq<T>, toFloat: Converter<T>)
    requires |rows| > 0 && |grid| == |rows| - 1
    requires forall i :: 0 <= i < |grid| ==> RowOf(rows[..|grid|][i], grid[i], toFloat)
    requires RowOf(rows[|grid|], row, toFloat)
    ensures forall i :: 0 <= i < |rows| ==> RowOf(rows[i], (grid + [row])[i], toFloat)
  {
    forall i | 0 <= i < |rows|
      ensures RowOf(rows[i], (grid + [row])[i], toFloat)
    {
      if i < |grid| {
        assert rows[..|grid|][i] == rows[i];
      }
    }
  }

  /** The outcome of parsing the text box contents. */
  function Parse<T>(text: string, toFloat: Converter<T>): Result<Grid<T>, ParseError>
  {
    ParseRows(Cells(text), toFloat)
  }

  /** The parse fails at exactly the first token, in row-major order, that
      does not convert. */
  lemma ParseRowsFailsAt<T>(rows: seq<seq<string>>, toFloat: Converter<T>, i: nat, j: nat)
    requires i < |rows| && j < |rows[i]|
    requires RowsConvertBefore(rows, i, toFloat)
    requires ConvertsBefore(rows[i], j, toFloat)
    requires !Converts(rows[i][j], toFloat)
    ensures ParseRows(rows, toFloat) == Failure(InvalidNumber(i + 1, j + 1, rows[i][j]))
  {
  }

  /** The parsing loops of `generate_from_text`: `data` and `row` grow by
      `append`, and the first token that does not convert raises. */
  method ParseText<T>(text: string, toFloat: Converter<T>) returns (r: Result<Grid<T>, ParseError>)
    ensures r == Parse(text, toFloat)
  {
    var lines := Split(Strip(text), '\n');
    ghost var rows := TokenRows(lines);
    var data: Grid<T> := [];
    var i := 0;
    while i < |lines|
      invariant 0 <= i <= |lines|
      invariant ParseRows(rows[..i], toFloat) == Success(data)
    {
      var vals := Split(Strip(lines[i]), ',');
      TokenRowsAt(lines, i);
      var row: seq<T> := [];
      var j := 0;
      while j < |vals|
        invariant 0 <= j <= |vals|
        invariant ParseRow(vals[..j], toFloat) == Success(row)
      {
        var val := vals[j];
        match toFloat(Strip(val)) {
          case None =>
            FirstBadToken(rows, toFloat, i, j, data, row);
            return Failure(InvalidNumber(i + 1, j + 1, val));
          case Some(x) =>
            RowStep(vals, toFloat, j, row, x);
            row := row + [x];
        }
        j := j + 1;
      }
      RowsStep(rows, toFloat, i, data, row);
      data := data + [row];
      i := i + 1;
    }
    assert rows[..i] == rows;
    return Success(data);
  }

  /** Loop step of `ParseText`: appending a converted token to the row. */
  lemma RowStep<T>(vals: seq<string>, toFloat: Converter<T>, j: nat, row: seq<T>, x: T)
    requires j < |vals| && ParseRow(vals[..j], toFloat) == Success(row)
    requires toFloat(Strip(vals[j])) == Some(x)
    ensures ParseRow(vals[..j + 1], toFloat) == Success(row + [x])
  {
    assert vals[..j + 1][..j] == vals[..j];
  }

  /** Loop step of `ParseText`: appending a finished row to the grid. */
  lemma RowsStep<T>(rows: seq<seq<string>>, toFloat: Converter<T>, i: nat, data: Grid<T>, row: seq<T>)
    requires i < |rows| && ParseRows(rows[..i], toFloat) == Success(data)
    requires ParseRow(rows[i][..|rows[i]|], toFloat) == Success(row)
    ensures ParseRows(rows[..i + 1], toFloat) == Success(data + [row])
  {
    assert rows[i][..|rows[i]|] == rows[i];
    assert rows[..i + 1][..i] == rows[..i];
    assert rows[..i + 1][i] == rows[i];
  }

  /** Exit of `ParseText`: a token that does not convert after complete
      earlier rows and converted earlier tokens is the parse's failure. */
  lemma FirstBadToken<T>(rows: seq<seq<string>>, toFloat: Converter<T>, i: nat, j: nat, data: Grid<T>, row: seq<T>)
    requires i < |rows| && j < |rows[i]|
    requires ParseRows(rows[..i], toFloat) == Success(data)
    requires ParseRow(rows[i][..j], toFloat) == Success(row)
    requires toFloat(Strip(rows[i][j])) == None
    ensures ParseRows(rows, toFloat) == Failure(InvalidNumber(i + 1, j + 1, rows[i][j]))
  {
    forall i' | 0 <= i' < i
      ensures ConvertsBefore(rows[i'], |rows[i']|, toFloat)
    {
      assert rows[..i][i'] == rows[i'];
      assert RowOf(rows[..i][i'], data[i'], toFloat);
    }
    forall k | 0 <= k < j ensures Converts(rows[i][k], toFloat) {
      assert rows[i][..j][k] == rows[i][k];
    }
    ParseRowsFailsAt(rows, toFloat, i, j);
  }

  /** Empty or whitespace-only input fails at row 1, column 1 quoting `''`:
      it strips to `""`, which splits into the single line `""`, which
      splits into the single token `""`, which `float()` rejects. */
  lemma {:induction false} BlankTextFailsAtOrigin<T>(text: string, toFloat: Converter<T>)
    requires forall k :: 0 <= k < |text| ==> IsSpace(text[k])
    requires toFloat("") == None
    ensures Parse(text, toFloat) == Failure(InvalidNumber(1, 1, ""))
  {
    StripAllSpace(text);
    assert Lines(text) == [""];
    assert Tokens("") == [""];
    assert Cells(text) == [[""]];
    ParseRowsFailsAt(Cells(text), toFloat, 0, 0);
  }

  /** A token that does not convert makes the parse fail, at that token or
      at an earlier one in row-major order. */
  lemma BadTokenBounds<T>(rows: seq<seq<string>>, toFloat: Converter<T>, i: nat, j: nat)
    requires i < |rows| && j < |rows[i]| && !Converts(rows[i][j], toFloat)
    ensures ParseRows(rows, toFloat).Failure?
    ensures var e := ParseRows(rows, toFloat).error;
      e.row < i + 1 || (e.row == i + 1 && e.column <= j + 1)
  {
  }

  /** A token that is empty or all whitespace makes the parse fail, at that
      token or at an earlier one in row-major order. */
  lemma {:induction false} BlankTokenFails<T>(text: string, toFloat: Converter<T>, i: nat, j: nat)
    requires toFloat("") == None
    requires i < |Cells(text)| && j < |Cells(text)[i]|
    requires forall k :: 0 <= k < |Cells(text)[i][j]| ==> IsSpace(Cells(text)[i][j][k])
    ensures Parse(text, toFloat).Failure?
    ensures var e := Parse(text, toFloat).error;
      e.row < i + 1 || (e.row == i + 1 && e.column <= j + 1)
  {
    StripAllSpace(Cells(text)[i][j]);
    BadTokenBounds(Cells(text), toFloat, i, j);
  }

  /** A line whose stripped text ends with a comma has `''` as its last
      token, so the parse fails at that token or earlier in row-major
      order, and exactly there when everything before it converts. */
  lemma {:induction false} TrailingCommaFails<T>(text: string, toFloat: Converter<T>, i: nat)
    requires toFloat("") == None
    requires i < |Lines(text)|
    requires |Strip(Lines(text)[i])| > 0 && Strip(Lines(text)[i])[|Strip(Lines(text)[i])| - 1] == ','
    ensures Tokens(Lines(text)[i])[|Tokens(Lines(text)[i])| - 1] == ""
    ensures Parse(text, toFloat).Failure?
    ensures var e := Parse(text, toFloat).error;
      e.row < i + 1 || (e.row == i + 1 && e.column <= |Tokens(Lines(text)[i])|)
    ensures (RowsConvertBefore(Cells(text), i, toFloat) &&
             ConvertsBefore(Tokens(Lines(text)[i]), |Tokens(Lines(text)[i])| - 1, toFloat)) ==>
            Parse(text, toFloat) == Failure(InvalidNumber(i + 1, |Tokens(Lines(text)[i])|, ""))
  {
    var toks := Cells(text)[i];
    TokenRowsAt(Lines(text), i);
    SplitTrailingSeparator(Strip(Lines(text)[i]), ',');
    BlankTokenFails(text, toFloat, i, |toks| - 1);
    if RowsConvertBefore(Cells(text), i, toFloat) && ConvertsBefore(toks, |toks| - 1, toFloat) {
      StripAllSpace(toks[|toks| - 1]);
      ParseRowsFailsAt(Cells(text), toFloat, i, |toks| - 1);
    }
  }

  /** A line whose stripped text holds two adjacent commas has a `''` token
      after its first, so the parse fails at that token or earlier in
      row-major order; an empty token after the first fails exactly there
      when everything before it converts. */
  lemma {:induction false} DoubledCommaFails<T>(text: string, toFloat: Converter<T>, i: nat, k: nat)
    requires toFloat("") == None
    requires i < |Lines(text)|
    requires k + 1 < |Strip(Lines(text)[i])|
    requires Strip(Lines(text)[i])[k] == ',' && Strip(Lines(text)[i])[k + 1] == ','
    ensures Parse(text, toFloat).Failure?
    ensures var e := Parse(text, toFloat).error;
      exists j :: 0 < j < |Tokens(Lines(text)[i])| && Tokens(Lines(text)[i])[j] == "" &&
        (e.row < i + 1 || (e.row == i + 1 && e.column <= j + 1))
    ensures forall j ::
      (0 < j < |Tokens(Lines(text)[i])| && Tokens(Lines(text)[i])[j] == "" &&
       RowsConvertBefore(Cells(text), i, toFloat) && ConvertsBefore(Tokens(Lines(text)[i]), j, toFloat)) ==>
      Parse(text, toFloat) == Failure(InvalidNumber(i + 1, j + 1, ""))
  {
    var toks := Cells(text)[i];
    TokenRowsAt(Lines(text), i);
    SplitDoubledSeparator(Strip(Lines(text)[i]), ',', k);
    var j :| 0 <= j < |toks[1..]| && toks[1..][j] == "";
    assert toks[j + 1] == "";
    BlankTokenFails(text, toFloat, i, j + 1);
    forall j' | 0 < j' < |toks| && toks[j'] == "" && RowsConvertBefore(Cells(text), i, toFloat) &&
                ConvertsBefore(toks, j', toFloat)
      ensures Parse(text, toFloat) == Failure(InvalidNumber(i + 1, j' + 1, ""))
    {
      StripAllSpace(toks[j']);
      ParseRowsFailsAt(Cells(text), toFloat, i, j');
    }
  }

  /** Parsing succeeds exactly when every token of every line converts. */
  lemma {:induction false} ParseSucceedsIffAllConvert<T>(text: string, toFloat: Converter<T>)
    ensures Parse(text, toFloat).Success? <==>
            RowsConvertBefore(Cells(text), |Cells(text)|, toFloat)
  {
    var r := Parse(text, toFloat);
    if r.Success? {
      RowsConvert(Cells(text), r.value, toFloat);
    }
  }

  /** The values of a line's tokens are determined by the tokens. */
  lemma RowOfUnique<T>(vals: seq<string>, row1: seq<T>, row2: seq<T>, toFloat: Converter<T>)
    requires RowOf(vals, row1, toFloat) && RowOf(vals, row2, toFloat)
    ensures row1 == row2
  {
    forall j | 0 <= j < |vals| ensures row1[j] == row2[j] {
      assert Some(row1[j]) == Some(row2[j]);
    }
  }

  /** When every token converts, the parse succeeds with the one grid
      whose cells are their values. */
  lemma ParseRowsSucceedsWith<T>(rows: seq<seq<string>>, toFloat: Converter<T>, grid: Grid<T>)
    requires |grid| == |rows|
    requires forall i :: 0 <= i < |rows| ==> RowOf(rows[i], grid[i], toFloat)
    ensures ParseRows(rows, toFloat) == Success(grid)
  {
    var r := ParseRows(rows, toFloat);
    if r.Success? {
      forall i | 0 <= i < |rows| ensures r.value[i] == grid[i] {
        RowOfUnique(rows[i], r.value[i], grid[i], toFloat);
      }
      assert r.value == grid;
    }
  }

  /** Helper for the examples: text with printable ends that is the join
      of separator-free pieces strips and splits back into them. */
  lemma SplitStrippedJoin(s: string, parts: seq<string>, sep: char)
    requires |parts| > 0 && s == Join(parts, sep)
    requires forall k :: 0 <= k < |parts| ==> sep !in parts[k]
    requires |s| > 0 && '!' <= s[0] <= '~' && '!' <= s[|s| - 1] <= '~'
    ensures Split(Strip(s), sep) == parts
  {
    PrintableNotSpace(s[0]);
    PrintableNotSpace(s[|s| - 1]);
    StripUnchanged(s);
    SplitJoin(parts, sep);
  }

  /** A printable character other than the comma: a one-character cell
      such as `1` or `x`. */
  predicate CellChar(c: char)
  {
    '!' <= c <= '~' && c != ','
  }

  /** A one-character cell strips to itself. */
  lemma StripCell(c: char)
    requires CellChar(c)
    ensures Strip([c]) == [c]
  {
    PrintableNotSpace(c);
    StripUnchanged([c]);
  }

  /** A line of two one-character cells, such as `"1,2"`, splits into
      them. */
  lemma PairTokens(a: char, b: char)
    requires CellChar(a) && CellChar(b)
    ensures Tokens([a, ',', b]) == [[a], [b]]
  {
    assert [a, ',', b] == Join([[a], [b]], ',');
    SplitStrippedJoin([a, ',', b], [[a], [b]], ',');
  }

  /** Two lines with printable outer ends and no line break of their own
      split into those two lines. */
  lemma TwoLineCells(l0: string, l1: string)
    requires |l0| > 0 && |l1| > 0 && '\n' !in l0 && '\n' !in l1
    requires '!' <= l0[0] <= '~' && '!' <= l1[|l1| - 1] <= '~'
    ensures Cells(l0 + ['\n'] + l1) == [Tokens(l0), Tokens(l1)]
  {
    assert Join([l0, l1], '\n') == l0 + ['\n'] + l1;
    SplitStrippedJoin(l0 + ['\n'] + l1, [l0, l1], '\n');
    TokenRowsAt([l0, l1], 0);
    TokenRowsAt([l0, l1], 1);
  }

  /** Two lines of two one-character cells, such as `"1,2\n3,4"`, split
      into those four cells. */
  lemma SquareCells(a: char, b: char, c: char, d: char)
    requires CellChar(a) && CellChar(b) && CellChar(c) && CellChar(d)
    ensures Cells([a, ',', b, '\n', c, ',', d]) == [[[a], [b]], [[c], [d]]]
  {
    assert [a, ',', b, '\n', c, ',', d] == [a, ',', b] + ['\n'] + [c, ',', d];
    TwoLineCells([a, ',', b], [c, ',', d]);
    PairTokens(a, b);
    PairTokens(c, d);
  }

  /** Two rows whose tokens all convert parse to the two rows of values. */
  lemma TwoRowsParse<T>(r0: seq<string>, r1: seq<string>, toFloat: Converter<T>, g0: seq<T>, g1: seq<T>)
    requires RowOf(r0, g0, toFloat) && RowOf(r1, g1, toFloat)
    ensures ParseRows([r0, r1], toFloat) == Success([g0, g1])
  {
    ParseRowsSucceedsWith([r0, r1], toFloat, [g0, g1]);
  }

  /** A first row that converts and a second row whose token `j` is the
      first that does not fail at row 2, column `j + 1`. */
  lemma SecondRowFails<T>(r0: seq<string>, r1: seq<string>, toFloat: Converter<T>, g0: seq<T>, j: nat)
    requires RowOf(r0, g0, toFloat)
    requires j < |r1| && ConvertsBefore(r1, j, toFloat) && !Converts(r1[j], toFloat)
    ensures ParseRows([r0, r1], toFloat) == Failure(InvalidNumber(2, j + 1, r1[j]))
  {
    ParseRowsFailsAt([r0, r1], toFloat, 1, j);
  }

  /** Text whose cells are `rows` parses as `rows` do. */
  lemma ParseOfCells<T>(text: string, toFloat: Converter<T>, rows: seq<seq<string>>)
    requires Cells(text) == rows
    ensures Parse(text, toFloat) == ParseRows(rows, toFloat)
  {
  }

  /** The values of a row of two one-character cells. */
  lemma PairRow<T>(toFloat: Converter<T>, a: char, b: char, va: T, vb: T)
    requires CellChar(a) && CellChar(b)
    requires toFloat([a]) == Some(va) && toFloat([b]) == Some(vb)
    ensures RowOf([[a], [b]], [va, vb], toFloat)
  {
    StripCell(a);
    StripCell(b);
  }

  /** `"1,2\n3,4"` and every text of its shape parse to the 2-by-2 grid of
      the four values. */
  lemma ExampleSquareGrid<T>(toFloat: Converter<T>, a: char, b: char, c: char, d: char,
                             va: T, vb: T, vc: T, vd: T)
    requires CellChar(a) && CellChar(b) && CellChar(c) && CellChar(d)
    requires toFloat([a]) == Some(va) && toFloat([b]) == Some(vb)
    requires toFloat([c]) == Some(vc) && toFloat([d]) == Some(vd)
    ensures Parse([a, ',', b, '\n', c, ',', d], toFloat) == Success([[va, vb], [vc, vd]])
  {
    SquareCells(a, b, c, d);
    ParseOfCells([a, ',', b, '\n', c, ',', d], toFloat, [[[a], [b]], [[c], [d]]]);
    SquareRows(toFloat, a, b, c, d, va, vb, vc, vd);
  }

  /** The rows of that square grid parse to its values. */
  lemma SquareRows<T>(toFloat: Converter<T>, a: char, b: char, c: char, d: char,
                      va: T, vb: T, vc: T, vd: T)
    requires CellChar(a) && CellChar(b) && CellChar(c) && CellChar(d)
    requires toFloat([a]) == Some(va) && toFloat([b]) == Some(vb)
    requires toFloat([c]) == Some(vc) && toFloat([d]) == Some(vd)
    ensures ParseRows([[[a], [b]], [[c], [d]]], toFloat) == Success([[va, vb], [vc, vd]])
  {
    PairRow(toFloat, a, b, va, vb);
    PairRow(toFloat, c, d, vc, vd);
    TwoRowsParse([[a], [b]], [[c], [d]], toFloat, [va, vb], [vc, vd]);
  }

  /** `"1,2\n3,x"` and every text of its shape whose last cell does not
      convert fail citing row 2, column 2 and that cell. */
  lemma ExampleBadCell<T>(toFloat: Converter<T>, a: char, b: char, c: char, x: char, va: T, vb: T, vc: T)
    requires CellChar(a) && CellChar(b) && CellChar(c) && CellChar(x)
    requires toFloat([a]) == Some(va) && toFloat([b]) == Some(vb) && toFloat([c]) == Some(vc)
    requires toFloat([x]) == None
    ensures Parse([a, ',', b, '\n', c, ',', x], toFloat) == Failure(InvalidNumber(2, 2, [x]))
  {
    SquareCells(a, b, c, x);
    ParseOfCells([a, ',', b, '\n', c, ',', x], toFloat, [[[a], [b]], [[c], [x]]]);
    BadCellRows(toFloat, a, b, c, x, va, vb, vc);
  }

  /** The rows of that grid fail at their last cell. */
  lemma BadCellRows<T>(toFloat: Converter<T>, a: char, b: char, c: char, x: char, va: T, vb: T, vc: T)
    requires CellChar(a) && CellChar(b) && CellChar(c) && CellChar(x)
    requires toFloat([a]) == Some(va) && toFloat([b]) == Some(vb) && toFloat([c]) == Some(vc)
    requires toFloat([x]) == None
    ensures ParseRows([[[a], [b]], [[c], [x]]], toFloat) == Failure(InvalidNumber(2, 2, [x]))
  {
    PairRow(toFloat, a, b, va, vb);
    StripCell(c);
    StripCell(x);
    SecondRowFails([[a], [b]], [[c], [x]], toFloat, [va, vb], 1);
  }

  /** The message of that failure for `x`, as the status line shows it
      after `"Input error: "`. */
  lemma ExampleBadCellMessage()
    ensures Message(InvalidNumber(2, 2, "x")) == "Invalid number at row 2, column 2: 'x'"
  {
    assert NatToString(2) == "2";
  }

  /** A line of two one-character cells above a line of one, such as
      `"1,2\n3"`, splits into those three cells. */
  lemma RaggedCells(a: char, b: char, c: char)
    requires CellChar(a) && CellChar(b) && CellChar(c)
    ensures Cells([a, ',', b, '\n', c]) == [[[a], [b]], [[c]]]
  {
    assert [a, ',', b, '\n', c] == [a, ',', b] + ['\n'] + [c];
    TwoLineCells([a, ',', b], [c]);
    PairTokens(a, b);
    assert [c] == Join([[c]], ',');
    SplitStrippedJoin([c], [[c]], ',');
  }

  /** Rows of different lengths are accepted as they are: `"1,2\n3"` and
      every text of its shape give a first row of two cells and a second
      row of one. */
  lemma ExampleRaggedRows<T>(toFloat: Converter<T>, a: char, b: char, c: char, va: T, vb: T, vc: T)
    requires CellChar(a) && CellChar(b) && CellChar(c)
    requires toFloat([a]) == Some(va) && toFloat([b]) == Some(vb) && toFloat([c]) == Some(vc)
    ensures Parse([a, ',', b, '\n', c], toFloat) == Success([[va, vb], [vc]])
  {
    RaggedCells(a, b, c);
    ParseOfCells([a, ',', b, '\n', c], toFloat, [[[a], [b]], [[c]]]);
    RaggedRows(toFloat, a, b, c, va, vb, vc);
  }

  /** The rows of that ragged grid parse to its values. */
  lemma RaggedRows<T>(toFloat: Converter<T>, a: char, b: char, c: char, va: T, vb: T, vc: T)
    requires CellChar(a) && CellChar(b) && CellChar(c)
    requires toFloat([a]) == Some(va) && toFloat([b]) == Some(vb) && toFloat([c]) == Some(vc)
    ensures ParseRows([[[a], [b]], [[c]]], toFloat) == Success([[va, vb], [vc]])
  {
    PairRow(toFloat, a, b, va, vb);
    StripCell(c);
    TwoRowsParse([[a], [b]], [[c]], toFloat, [va, vb], [vc]);
  }

  /** A one-line text of a cell and a space-led cell, such as `"1, x"`,
      splits into the cell and the second cell with its space. */
  lemma SpacedPairCells(a: char, x: char)
    requires CellChar(a) && CellChar(x)
    ensures Cells([a, ',', ' ', x]) == [[[a], [' ', x]]]
  {
    var l0 := [a, ',', ' ', x];
    assert l0 == Join([l0], '\n');
    SplitStrippedJoin(l0, [l0], '\n');
    assert l0 == Join([[a], [' ', x]], ',');
    SplitStrippedJoin(l0, [[a], [' ', x]], ',');
    TokenRowsAt([l0], 0);
  }

  /** A space-led one-character cell strips to the character. */
  lemma StripSpacedCell(x: char)
    requires CellChar(x)
    ensures Strip([' ', x]) == [x]
  {
    PrintableNotSpace(x);
    StripIsTheTrimmedSlice([' ', x], 1, 2);
    assert [' ', x][1..2] == [x];
  }

  /** A single row whose token `j` is the first that does not convert
      fails at row 1, column `j + 1`. */
  lemma OneRowFails<T>(r0: seq<string>, toFloat: Converter<T>, j: nat)
    requires j < |r0| && ConvertsBefore(r0, j, toFloat) && !Converts(r0[j], toFloat)
    ensures ParseRows([r0], toFloat) == Failure(InvalidNumber(1, j + 1, r0[j]))
  {
    ParseRowsFailsAt([r0], toFloat, 0, j);
  }

  /** The message quotes the token as split, before its own strip: in
      `"1, x"` the second token is `" x"`; `float()` is given `"x"`, but the
      error names `" x"`. */
  lemma ExampleQuotesRawToken<T>(toFloat: Converter<T>, a: char, x: char)
    requires CellChar(a) && CellChar(x)
    requires toFloat([a]).Some? && toFloat([x]) == None
    ensures Parse([a, ',', ' ', x], toFloat) == Failure(InvalidNumber(1, 2, [' ', x]))
  {
    SpacedPairCells(a, x);
    ParseOfCells([a, ',', ' ', x], toFloat, [[[a], [' ', x]]]);
    SpacedPairRows(toFloat, a, x);
  }

  /** The single row of that text fails at its second, space-led cell. */
  lemma SpacedPairRows<T>(toFloat: Converter<T>, a: char, x: char)
    requires CellChar(a) && CellChar(x)
    requires toFloat([a]).Some? && toFloat([x]) == None
    ensures ParseRows([[[a], [' ', x]]], toFloat) == Failure(InvalidNumber(1, 2, [' ', x]))
  {
    StripCell(a);
    StripSpacedCell(x);
    OneRowFails([[a], [' ', x]], toFloat, 1);
  }

  /** A digit run followed by a non-digit is determined by the whole. */
  lemma DigitsThenText(a: string, x: string, b: string, y: string)
    requires IsDigits(a) && IsDigits(b)
    requires |x| > 0 && !('0' <= x[0] <= '9') && |y| > 0 && !('0' <= y[0] <= '9')
    requires a + x == b + y
    ensures a == b && x == y
  {
    DigitRunThen(a, x);
    DigitRunThen(b, y);
    assert a == (a + x)[..|a|] && b == (b + y)[..|b|];
    assert x == (a + x)[|a|..] && y == (b + y)[|b|..];
  }

  /** Dropping a common prefix preserves equality. */
  lemma DropPrefix(p: string, x: string, y: string)
    requires p + x == p + y
    ensures x == y
  {
    assert x == (p + x)[|p|..] && y == (p + y)[|p|..];
  }

  /** The status text identifies the failure: different errors give
      different messages, so row, column and token can be read back. */
  lemma MessageDeterminesError(e1: ParseError, e2: ParseError)
    requires Message(e1) == Message(e2)
    ensures e1 == e2
  {
    var q1, q2 := ": '" + (e1.token + "'"), ": '" + (e2.token + "'");
    var k1, k2 := NatToString(e1.column) + q1, NatToString(e2.column) + q2;
    var c1, c2 := ", column " + k1, ", column " + k2;
    DropPrefix("Invalid number at row ", NatToString(e1.row) + c1, NatToString(e2.row) + c2);
    DigitsThenText(NatToString(e1.row), c1, NatToString(e2.row), c2);
    NatToStringInjective(e1.row, e2.row);
    DropPrefix(", column ", k1, k2);
    DigitsThenText(NatToString(e1.column), q1, NatToString(e2.column), q2);
    NatToStringInjective(e1.column, e2.column);
    DropPrefix(": '", e1.token + "'", e2.token + "'");
    assert e1.token == (e1.token + "'")[..|e1.token|];
    assert e2.token == (e2.token + "'")[..|e2.token|];
  }
}
