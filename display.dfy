/** `display_results`: the text table the console prints for a query result.
    Cells arrive already rendered as strings (Python's `str()` of each value),
    and the printed lines are returned instead of written to the terminal.
    A "line" here is one argument of `print()`: a cell holding a newline makes
    it span several terminal lines, and what is said of line lengths is said
    of these arguments. */
module Display {
  import opened Text

  datatype Option<T> = None | Some(value: T)

  /** One result row: its cells, as `str()` renders them. */
  type Row = seq<string>

  /** What `execute_query` hands over: the column names and rows of a read,
      or the status message of a write or of a database error. */
  datatype QueryResult = Table(columns: seq<string>, rows: seq<Row>) | Status(message: string)

  /** Rows from the database have one cell per column. */
  predicate WellFormed(result: QueryResult) {
    result.Table? ==> forall k :: 0 <= k < |result.rows| ==> |result.rows[k]| == |result.columns|
  }

  /** The columns shown: their header texts and, for each, the position of
      its cell in a result row. */
  datatype Layout = Layout(headers: seq<string>, indices: seq<nat>)

  /** Every row has a cell at every position the layout reads. */
  predicate Fits(rows: seq<Row>, indices: seq<nat>) {
    forall k, j :: 0 <= k < |rows| && 0 <= j < |indices| ==> indices[j] < |rows[k]|
  }

  function Max(a: nat, b: nat): nat {
    if a >= b then a else b
  }

  /** The position of the last column whose lower-cased name is `name`, if
      there is one: the enumeration loop overwrites the index at each match. */
  function LastMatch(columns: seq<string>, name: string): (found: Option<nat>)
    ensures found.Some? ==> found.value < |columns| && Lower(columns[found.value]) == name
    ensures found.Some? ==> forall j :: found.value < j < |columns| ==> Lower(columns[j]) != name
    ensures found.None? ==> forall j :: 0 <= j < |columns| ==> Lower(columns[j]) != name
    decreases |columns|
  {
    if columns == [] then None
    else if Lower(columns[|columns| - 1]) == name then Some(|columns| - 1)
    else LastMatch(columns[..|columns| - 1], name)
  }

  /** The contract of `LastMatch` determines it: any position that is the
      last match is the one it finds. */
  lemma LastMatchIsUnique(columns: seq<string>, name: string, i: nat)
    requires i < |columns| && Lower(columns[i]) == name
    requires forall j :: i < j < |columns| ==> Lower(columns[j]) != name
    ensures LastMatch(columns, name) == Some(i)
  {
  }

  function AllPositions(n: nat): (positions: seq<nat>)
    ensures |positions| == n && forall j :: 0 <= j < n ==> positions[j] == j
  {
    seq(n, j requires 0 <= j => j as nat)
  }

  /** Which columns are shown: when no name lower-cases to "title" or "url",
      all of them in order; otherwise only the ones found, "title" before
      "url", under those literal headers. */
  function ChooseColumns(columns: seq<string>): (layout: Layout)
    ensures |layout.headers| == |layout.indices|
    ensures forall j :: 0 <= j < |layout.indices| ==> layout.indices[j] < |columns|
  {
    var title := LastMatch(columns, "title");
    var url := LastMatch(columns, "url");
    if title.None? && url.None? then Layout(columns, AllPositions(|columns|))
    else
      Layout((if title.Some? then ["title"] else []) + (if url.Some? then ["url"] else []),
             (if title.Some? then [title.value] else []) + (if url.Some? then [url.value] else []))
  }

  /** The width of a column: the longest of its header and its cells. */
  function ColumnWidth(header: string, rows: seq<Row>, index: nat): (width: nat)
    requires forall k :: 0 <= k < |rows| ==> index < |rows[k]|
    ensures width >= |header|
    ensures forall k :: 0 <= k < |rows| ==> width >= |rows[k][index]|
    decreases |rows|
  {
    if rows == [] then |header|
    else Max(ColumnWidth(header, rows[..|rows| - 1], index), |rows[|rows| - 1][index]|)
  }

  /** The width is not more than needed: it is the header's length or the
      length of one of the cells. */
  lemma {:induction false} ColumnWidthAttained(header: string, rows: seq<Row>, index: nat)
    requires forall k :: 0 <= k < |rows| ==> index < |rows[k]|
    ensures ColumnWidth(header, rows, index) == |header|
      || exists k :: 0 <= k < |rows| && ColumnWidth(header, rows, index) == |rows[k][index]|
    decreases |rows|
  {
    if rows != [] {
      var init := rows[..|rows| - 1];
      ColumnWidthAttained(header, init, index);
      if ColumnWidth(header, rows, index) != |rows[|rows| - 1][index]|
        && ColumnWidth(header, init, index) != |header|
      {
        var k :| 0 <= k < |init| && ColumnWidth(header, init, index) == |init[k][index]|;
        assert init[k] == rows[k];
      }
    }
  }

  function Widths(layout: Layout, rows: seq<Row>): (widths: seq<nat>)
    requires |layout.headers| == |layout.indices| && Fits(rows, layout.indices)
    ensures |widths| == |layout.headers|
  {
    seq(|layout.headers|, j requires 0 <= j < |layout.headers| =>
      ColumnWidth(layout.headers[j], rows, layout.indices[j]))
  }

  /** Every width covers its header and every shown cell of its column. */
  lemma WidthsCover(layout: Layout, rows: seq<Row>)
    requires |layout.headers| == |layout.indices| && Fits(rows, layout.indices)
    ensures forall j :: 0 <= j < |layout.headers| ==> |layout.headers[j]| <= Widths(layout, rows)[j]
    ensures forall k, j :: 0 <= k < |rows| && 0 <= j < |layout.indices| ==>
      |rows[k][layout.indices[j]]| <= Widths(layout, rows)[j]
  {
  }

  /** Header cells left-justified to their widths, joined by " | ". */
  function HeaderLine(headers: seq<string>, widths: seq<nat>): string
    requires |headers| == |widths|
  {
    Join(seq(|headers|, j requires 0 <= j < |headers| => LJust(headers[j], widths[j])), " | ")
  }

  /** Runs of dashes as wide as the columns, joined by "-+-". */
  function SeparatorLine(widths: seq<nat>): string {
    Join(seq(|widths|, j requires 0 <= j < |widths| => Repeat('-', widths[j])), "-+-")
  }

  /** A row's shown cells left-justified to their widths, joined by " | ". */
  function RowLine(row: Row, indices: seq<nat>, widths: seq<nat>): string
    requires |indices| == |widths| && forall j :: 0 <= j < |indices| ==> indices[j] < |row|
  {
    Join(seq(|indices|, j requires 0 <= j < |indices| => LJust(row[indices[j]], widths[j])), " | ")
  }

  /** Header, separator, then one line per row: all of them the same length,
      the column widths plus three characters between neighbouring columns. */
  function TableLines(layout: Layout, rows: seq<Row>): (lines: seq<string>)
    requires |layout.headers| == |layout.indices| && Fits(rows, layout.indices)
    ensures |lines| == 2 + |rows|
    ensures forall i :: 0 <= i < |lines| ==> |lines[i]| == LineWidth(Widths(layout, rows))
  {
    var widths := Widths(layout, rows);
    WidthsCover(layout, rows);
    HeaderWidth(layout.headers, widths);
    RowLinesWidth(rows, layout.indices, widths);
    var body := seq(|rows|, k requires 0 <= k < |rows| => RowLine(rows[k], layout.indices, widths));
    assert forall k :: 0 <= k < |body| ==> |body[k]| == LineWidth(widths);
    [HeaderLine(layout.headers, widths), SeparatorLine(widths)] + body
  }

  /** The lines `display_results` prints for a result: a status message alone
      and unchanged, or a table of two heading lines and one line per row, all
      of the same length. */
  function Render(result: QueryResult): (lines: seq<string>)
    requires WellFormed(result)
    ensures result.Status? ==> lines == [result.message]
    ensures result.Table? ==> |lines| == 2 + |result.rows|
    ensures result.Table? ==> forall i :: 0 <= i < |lines| ==> |lines[i]| == |lines[0]|
  {
    match result
    case Status(message) => [message]
    case Table(columns, rows) => TableLines(ChooseColumns(columns), rows)
  }

  /** The first loop of `display_results`: the last "title" and the last
      "url" column, compared case-insensitively. */
  method FindTitleUrl(columns: seq<string>) returns (title: Option<nat>, url: Option<nat>)
    ensures title == LastMatch(columns, "title") && url == LastMatch(columns, "url")
  {
    title, url := None, None;
    var i := 0;
    while i < |columns|
      invariant 0 <= i <= |columns|
      invariant title == LastMatch(columns[..i], "title")
      invariant url == LastMatch(columns[..i], "url")
    {
      assert columns[..i + 1][..i] == columns[..i];
      var name := Lower(columns[i]);
      if name == "title" {
        title := Some(i);
      } else if name == "url" {
        url := Some(i);
      }
      i := i + 1;
    }
    assert columns[..i] == columns;
  }

  /** The width loops: for each shown column, a running maximum over the
      header and the column's cells. */
  method ColumnWidths(headers: seq<string>, indices: seq<nat>, rows: seq<Row>)
    returns (widths: seq<nat>)
    requires |headers| == |indices| && Fits(rows, indices)
    ensures widths == Widths(Layout(headers, indices), rows)
  {
    widths := [];
    var j := 0;
    while j < |headers|
      invariant 0 <= j <= |headers| && |widths| == j
      invariant forall m :: 0 <= m < j ==> widths[m] == ColumnWidth(headers[m], rows, indices[m])
    {
      var width := |headers[j]|;
      var k := 0;
      while k < |rows|
        invariant 0 <= k <= |rows|
        invariant width == ColumnWidth(headers[j], rows[..k], indices[j])
      {
        assert rows[..k + 1][..k] == rows[..k];
        width := Max(width, |rows[k][indices[j]]|);
        k := k + 1;
      }
      assert rows[..k] == rows;
      widths := widths + [width];
      j := j + 1;
    }
  }

  /** One printed row: its shown cells left-justified and joined. */
  method RenderRow(row: Row, indices: seq<nat>, widths: seq<nat>) returns (line: string)
    requires |indices| == |widths| && forall j :: 0 <= j < |indices| ==> indices[j] < |row|
    ensures line == RowLine(row, indices, widths)
  {
    var rowParts: seq<string> := [];
    var i := 0;
    while i < |indices|
      invariant 0 <= i <= |indices| && |rowParts| == i
      invariant forall m :: 0 <= m < i ==> rowParts[m] == LJust(row[indices[m]], widths[m])
    {
      rowParts := rowParts + [LJust(row[indices[i]], widths[i])];
      i := i + 1;
    }
    assert rowParts == seq(|indices|, m requires 0 <= m < |indices| => LJust(row[indices[m]], widths[m]));
    line := Join(rowParts, " | ");
  }

  /** The header line and the separator line. */
  method RenderHeader(headers: seq<string>, widths: seq<nat>) returns (header: string, separator: string)
    requires |headers| == |widths|
    ensures header == HeaderLine(headers, widths) && separator == SeparatorLine(widths)
  {
    var headerParts: seq<string> := [];
    var separatorParts: seq<string> := [];
    var j := 0;
    while j < |headers|
      invariant 0 <= j <= |headers| && |headerParts| == j && |separatorParts| == j
      invariant forall m :: 0 <= m < j ==> headerParts[m] == LJust(headers[m], widths[m])
      invariant forall m :: 0 <= m < j ==> separatorParts[m] == Repeat('-', widths[m])
    {
      headerParts := headerParts + [LJust(headers[j], widths[j])];
      separatorParts := separatorParts + [Repeat('-', widths[j])];
      j := j + 1;
    }
    assert headerParts == seq(|headers|, m requires 0 <= m < |headers| => LJust(headers[m], widths[m]));
    assert separatorParts == seq(|widths|, m requires 0 <= m < |widths| => Repeat('-', widths[m]));
    header := Join(headerParts, " | ");
    separator := Join(separatorParts, "-+-");
  }

  /** The printing loops: header and separator, then one line per row. */
  method RenderTable(headers: seq<string>, indices: seq<nat>, rows: seq<Row>)
    returns (lines: seq<string>)
    requires |headers| == |indices| && Fits(rows, indices)
    ensures lines == TableLines(Layout(headers, indices), rows)
  {
    var widths := ColumnWidths(headers, indices, rows);
    var header, separator := RenderHeader(headers, widths);
    lines := [header, separator];
    var k := 0;
    while k < |rows|
      invariant 0 <= k <= |rows| && |lines| == 2 + k
      invariant lines[0] == HeaderLine(headers, widths) && lines[1] == SeparatorLine(widths)
      invariant forall m :: 0 <= m < k ==> lines[2 + m] == RowLine(rows[m], indices, widths)
    {
      var line := RenderRow(rows[k], indices, widths);
      lines := lines + [line];
      k := k + 1;
    }
    TableLinesAre(Layout(headers, indices), rows, lines);
  }

  /** Lines that agree with the table line by line are the table. */
  lemma TableLinesAre(layout: Layout, rows: seq<Row>, lines: seq<string>)
    requires |layout.headers| == |layout.indices| && Fits(rows, layout.indices)
    requires |lines| == 2 + |rows|
    requires lines[0] == HeaderLine(layout.headers, Widths(layout, rows))
    requires lines[1] == SeparatorLine(Widths(layout, rows))
    requires forall m :: 0 <= m < |rows| ==>
      lines[2 + m] == RowLine(rows[m], layout.indices, Widths(layout, rows))
    ensures lines == TableLines(layout, rows)
  {
    var widths := Widths(layout, rows);
    var body := seq(|rows|, k requires 0 <= k < |rows| => RowLine(rows[k], layout.indices, widths));
    forall k | 0 <= k < |rows|
      ensures lines[2..][k] == body[k]
    {
      assert lines[2..][k] == lines[2 + k];
    }
    assert lines[2..] == body;
    assert lines == [lines[0], lines[1]] + lines[2..];
  }

  /** `display_results`: a status message is printed as it is; a table is
      printed over the columns `ChooseColumns` picks. Both branches of the
      source share `RenderTable`; showing all columns reads cell `i` for
      column `i`. */
  method DisplayResults(result: QueryResult) returns (lines: seq<string>)
    requires WellFormed(result)
    ensures lines == Render(result)
  {
    if result.Status? {
      return [result.message];
    }
    var columns, rows := result.columns, result.rows;
    var title, url := FindTitleUrl(columns);
    if title.None? && url.None? {
      assert ChooseColumns(columns) == Layout(columns, AllPositions(|columns|));
      lines := RenderTable(columns, AllPositions(|columns|), rows);
      return;
    }
    var filteredColumns: seq<string> := [];
    var filteredIndices: seq<nat> := [];
    if title.Some? {
      filteredColumns := filteredColumns + ["title"];
      filteredIndices := filteredIndices + [title.value];
    }
    if url.Some? {
      filteredColumns := filteredColumns + ["url"];
      filteredIndices := filteredIndices + [url.value];
    }
    assert ChooseColumns(columns) == Layout(filteredColumns, filteredIndices);
    lines := RenderTable(filteredColumns, filteredIndices, rows);
  }

  /** If no column is called "title" or "url" in any letter case, every
      column is shown, in order, under its own name. */
  lemma ShowsAllColumns(columns: seq<string>)
    requires forall j :: 0 <= j < |columns| ==> Lower(columns[j]) != "title" && Lower(columns[j]) != "url"
    ensures ChooseColumns(columns).headers == columns
    ensures ChooseColumns(columns).indices == AllPositions(|columns|)
  {
  }

  /** With both present, "title" then "url" are shown, each read from its
      last occurrence. */
  lemma ShowsTitleAndUrl(columns: seq<string>, t: nat, u: nat)
    requires t < |columns| && Lower(columns[t]) == "title"
    requires forall j :: t < j < |columns| ==> Lower(columns[j]) != "title"
    requires u < |columns| && Lower(columns[u]) == "url"
    requires forall j :: u < j < |columns| ==> Lower(columns[j]) != "url"
    ensures ChooseColumns(columns) == Layout(["title", "url"], [t, u])
  {
    LastMatchIsUnique(columns, "title", t);
    LastMatchIsUnique(columns, "url", u);
  }

  /** With a "title" column and no "url" column, only "title" is shown. */
  lemma ShowsTitleOnly(columns: seq<string>, t: nat)
    requires t < |columns| && Lower(columns[t]) == "title"
    requires forall j :: t < j < |columns| ==> Lower(columns[j]) != "title"
    requires forall j :: 0 <= j < |columns| ==> Lower(columns[j]) != "url"
    ensures ChooseColumns(columns) == Layout(["title"], [t])
  {
    LastMatchIsUnique(columns, "title", t);
  }

  /** With a "url" column and no "title" column, only "url" is shown. */
  lemma ShowsUrlOnly(columns: seq<string>, u: nat)
    requires forall j :: 0 <= j < |columns| ==> Lower(columns[j]) != "title"
    requires u < |columns| && Lower(columns[u]) == "url"
    requires forall j :: u < j < |columns| ==> Lower(columns[j]) != "url"
    ensures ChooseColumns(columns) == Layout(["url"], [u])
  {
    LastMatchIsUnique(columns, "url", u);
  }

  /** The column sets of the display tests: id, title, description, url,
      category shows title (position 1) then url (position 3). */
  lemma TitleAndUrlExample(columns: seq<string>)
    requires columns == ["id", "title", "description", "url", "category"]
    ensures ChooseColumns(columns) == Layout(["title", "url"], [1, 3])
  {
    assert Lower(columns[1]) == "title";
    assert Lower(columns[3]) == "url";
    assert Lower(columns[4]) != "title" && Lower(columns[4]) != "url";
    assert Lower(columns[2]) != "title";
    ShowsTitleAndUrl(columns, 1, 3);
  }

  /** id, title, description, category shows only title (position 1). */
  lemma TitleOnlyExample(columns: seq<string>)
    requires columns == ["id", "title", "description", "category"]
    ensures ChooseColumns(columns) == Layout(["title"], [1])
  {
    assert Lower(columns[1]) == "title";
    assert Lower(columns[2])[0] == 'd' && Lower(columns[3])[0] == 'c';
    assert Lower(columns[0]) == "id";
    ShowsTitleOnly(columns, 1);
  }

  /** id, description, url, category shows only url (position 2). */
  lemma UrlOnlyExample(columns: seq<string>)
    requires columns == ["id", "description", "url", "category"]
    ensures ChooseColumns(columns) == Layout(["url"], [2])
  {
    assert Lower(columns[2]) == "url";
    assert Lower(columns[1])[0] == 'd' && Lower(columns[3])[0] == 'c';
    assert Lower(columns[0]) == "id";
    ShowsUrlOnly(columns, 2);
  }

  /** id, description, category has neither, so all three are shown. */
  lemma AllColumnsExample(columns: seq<string>)
    requires columns == ["id", "description", "category"]
    ensures ChooseColumns(columns) == Layout(columns, [0, 1, 2])
  {
    assert Lower(columns[0]) == "id";
    assert Lower(columns[1])[0] == 'd';
    assert Lower(columns[2])[0] == 'c';
    ShowsAllColumns(columns);
  }

  function Sum(widths: seq<nat>): nat
    decreases |widths|
  {
    if widths == [] then 0 else widths[0] + Sum(widths[1..])
  }

  /** The length of every printed table line: the column widths plus three
      characters (" | " or "-+-") between neighbouring columns. */
  function LineWidth(widths: seq<nat>): nat {
    if widths == [] then 0 else Sum(widths) + 3 * (|widths| - 1)
  }

  lemma {:induction false} TotalOfWidths(parts: seq<string>, widths: seq<nat>)
    requires |parts| == |widths| && forall j :: 0 <= j < |parts| ==> |parts[j]| == widths[j]
    ensures TotalLength(parts) == Sum(widths)
    decreases |parts|
  {
    if parts != [] {
      TotalOfWidths(parts[1..], widths[1..]);
    }
  }

  /** Parts exactly as wide as their columns join to a line of `LineWidth`. */
  lemma JoinedWidth(parts: seq<string>, widths: seq<nat>, sep: string)
    requires |parts| == |widths| && forall j :: 0 <= j < |parts| ==> |parts[j]| == widths[j]
    requires |sep| == 3
    ensures |Join(parts, sep)| == LineWidth(widths)
  {
    if parts != [] {
      JoinLength(parts, sep);
      TotalOfWidths(parts, widths);
    }
  }

  /** A row line is `LineWidth` long when every shown cell fits its width. */
  lemma RowLineWidth(row: Row, indices: seq<nat>, widths: seq<nat>)
    requires |indices| == |widths| && forall j :: 0 <= j < |indices| ==> indices[j] < |row|
    requires forall j :: 0 <= j < |indices| ==> |row[indices[j]]| <= widths[j]
    ensures |RowLine(row, indices, widths)| == LineWidth(widths)
  {
    var parts := seq(|indices|, j requires 0 <= j < |indices| => LJust(row[indices[j]], widths[j]));
    assert forall j :: 0 <= j < |parts| ==> |parts[j]| == widths[j];
    JoinedWidth(parts, widths, " | ");
  }

  /** The header and the separator are `LineWidth` long. */
  lemma HeaderWidth(headers: seq<string>, widths: seq<nat>)
    requires |headers| == |widths| && forall j :: 0 <= j < |headers| ==> |headers[j]| <= widths[j]
    ensures |HeaderLine(headers, widths)| == LineWidth(widths)
    ensures |SeparatorLine(widths)| == LineWidth(widths)
  {
    var parts := seq(|headers|, j requires 0 <= j < |headers| => LJust(headers[j], widths[j]));
    assert forall j :: 0 <= j < |parts| ==> |parts[j]| == widths[j];
    JoinedWidth(parts, widths, " | ");
    JoinedWidth(seq(|widths|, j requires 0 <= j < |widths| => Repeat('-', widths[j])), widths, "-+-");
  }

  /** Every row line is `LineWidth` long when every shown cell fits its width. */
  lemma RowLinesWidth(rows: seq<Row>, indices: seq<nat>, widths: seq<nat>)
    requires |indices| == |widths| && Fits(rows, indices)
    requires forall k, j :: 0 <= k < |rows| && 0 <= j < |indices| ==> |rows[k][indices[j]]| <= widths[j]
    ensures forall k :: 0 <= k < |rows| ==> |RowLine(rows[k], indices, widths)| == LineWidth(widths)
  {
    forall k | 0 <= k < |rows|
      ensures |RowLine(rows[k], indices, widths)| == LineWidth(widths)
    {
      RowLineWidth(rows[k], indices, widths);
    }
  }
}
