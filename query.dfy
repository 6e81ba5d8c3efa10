/** The plain-text table renderer of the query tool.

    Given the column names and the result rows, the renderer writes a header
    line, a separator line and one line per row. Every column is as wide as its
    longest entry, header included; cells are left-justified and joined by
    " | ", and the separator is a run of dashes per column joined by "-+-".
    Writing to standard output is modelled as returning the lines. */
module Query {
  import opened Frames
  import opened Strings

  /** A result cell as text: null is the empty string, anything else `str()`. */
  function CellText(c: Cell): (s: string)
    ensures c.None? ==> s == ""
    ensures c.Some? ==> s == Show(c)
  {
    if c.None? then "" else Show(c)
  }

  function RenderRow(row: seq<Cell>): (r: seq<string>)
    ensures |r| == |row|
    ensures forall i :: 0 <= i < |row| ==> r[i] == CellText(row[i])
  {
    seq(|row|, i requires 0 <= i < |row| => CellText(row[i]))
  }

  function RenderRows(rows: seq<seq<Cell>>): (r: seq<seq<string>>)
    ensures |r| == |rows|
    ensures forall k :: 0 <= k < |rows| ==> r[k] == RenderRow(rows[k])
  {
    seq(|rows|, k requires 0 <= k < |rows| => RenderRow(rows[k]))
  }

  function Max(a: nat, b: nat): nat
  {
    if a >= b then a else b
  }

  /** Every row has n cells. */
  predicate Rectangular<T>(rows: seq<seq<T>>, n: nat)
  {
    forall k :: 0 <= k < |rows| ==> |rows[k]| == n
  }

  /** The width of each column: the length of the longest of its header and
      its cells. */
  function Widths(columns: seq<string>, rows: seq<seq<string>>): (w: seq<nat>)
    requires Rectangular(rows, |columns|)
    ensures |w| == |columns|
    ensures forall i :: 0 <= i < |columns| ==> |columns[i]| <= w[i]
    ensures forall k, i :: 0 <= k < |rows| && 0 <= i < |columns| ==> |rows[k][i]| <= w[i]
    ensures forall i :: 0 <= i < |columns| ==>
      w[i] == |columns[i]| || exists k :: 0 <= k < |rows| && w[i] == |rows[k][i]|
  {
    if rows == [] then seq(|columns|, i requires 0 <= i < |columns| => |columns[i]|)
    else
      var init, last := rows[..|rows| - 1], rows[|rows| - 1];
      assert forall k :: 0 <= k < |init| ==> init[k] == rows[k];
      var w := Widths(columns, init);
      seq(|columns|, i requires 0 <= i < |columns| => Max(w[i], |last[i]|))
  }

  /** Each cell left-justified to its column's width. */
  function PadCells(cells: seq<string>, w: seq<nat>): (r: seq<string>)
    requires |cells| == |w|
    ensures |r| == |w|
    ensures forall i :: 0 <= i < |w| ==> r[i] == LJust(cells[i], w[i])
  {
    seq(|w|, i requires 0 <= i < |w| => LJust(cells[i], w[i]))
  }

  /** A header or row line: the cells padded to their widths, joined by " | ". */
  function RowLine(cells: seq<string>, w: seq<nat>): string
    requires |cells| == |w|
  {
    Join(" | ", PadCells(cells, w))
  }

  /** A run of dashes as wide as each column. */
  function Dashes(w: seq<nat>): (r: seq<string>)
    ensures |r| == |w|
    ensures forall i :: 0 <= i < |w| ==> r[i] == Repeat('-', w[i])
  {
    seq(|w|, i requires 0 <= i < |w| => Repeat('-', w[i]))
  }

  /** The running maximum that sizes the columns: start from the header
      lengths and widen each column to fit every cell. */
  method ColumnWidths(columns: seq<string>, cells: seq<seq<string>>) returns (widths: seq<nat>)
    requires Rectangular(cells, |columns|)
    ensures widths == Widths(columns, cells)
  {
    widths := seq(|columns|, i requires 0 <= i < |columns| => |columns[i]|);
    for k := 0 to |cells|
      invariant widths == Widths(columns, cells[..k])
    {
      var row := cells[k];
      ghost var before := widths;
      for i := 0 to |row|
        invariant |widths| == |columns|
        invariant forall j :: 0 <= j < i ==> widths[j] == Max(before[j], |row[j]|)
        invariant forall j :: i <= j < |columns| ==> widths[j] == before[j]
      {
        widths := widths[i := Max(widths[i], |row[i]|)];
      }
      assert cells[..k + 1][..k] == cells[..k];
    }
    assert cells[..|cells|] == cells;
  }

  /** `print_table`: the lines it prints, in order. Each row must have one
      cell per column. */
  method PrintTable(columns: seq<string>, rows: seq<seq<Cell>>) returns (lines: seq<string>)
    requires Rectangular(rows, |columns|)
    ensures rows == [] ==> lines == ["No rows found."]
    ensures rows != [] ==>
      var w := Widths(columns, RenderRows(rows));
      && |lines| == |rows| + 2
      && lines[0] == RowLine(columns, w)
      && lines[1] == Join("-+-", Dashes(w))
      && forall k :: 0 <= k < |rows| ==> lines[k + 2] == RowLine(RenderRow(rows[k]), w)
  {
    if rows == [] {
      return ["No rows found."];
    }
    var cells := RenderRows(rows);
    var widths := ColumnWidths(columns, cells);
    var header := RowLine(columns, widths);
    var separator := Join("-+-", Dashes(widths));
    assert forall j :: 0 <= j < |cells| ==> |cells[j]| == |widths|;
    lines := [header, separator];
    for k := 0 to |cells|
      invariant |lines| == k + 2 && lines[0] == header && lines[1] == separator
      invariant forall j :: 0 <= j < k ==> lines[j + 2] == RowLine(cells[j], widths)
    {
      lines := lines + [RowLine(cells[k], widths)];
    }
  }

  function Sum(w: seq<nat>): nat
  {
    if w == [] then 0 else w[0] + Sum(w[1..])
  }

  /** The length of every line of a table whose columns have widths w. */
  function LineLength(w: seq<nat>): nat
  {
    if w == [] then 0 else Sum(w) + 3 * (|w| - 1)
  }

  /** Cells that fit their columns pad to exactly the column widths. */
  lemma {:induction false} PaddedLengths(cells: seq<string>, w: seq<nat>)
    requires |cells| == |w| && forall i :: 0 <= i < |w| ==> |cells[i]| <= w[i]
    ensures SumLengths(PadCells(cells, w)) == Sum(w)
  {
    if w != [] {
      PaddedLengths(cells[1..], w[1..]);
      assert PadCells(cells, w)[1..] == PadCells(cells[1..], w[1..]);
    }
  }

  lemma {:induction false} DashLengths(w: seq<nat>)
    ensures SumLengths(Dashes(w)) == Sum(w)
  {
    if w != [] {
      DashLengths(w[1..]);
      assert Dashes(w)[1..] == Dashes(w[1..]);
    }
  }

  /** A line of cells that fit their columns is `LineLength(w)` long. */
  lemma PaddedLineLength(cells: seq<string>, w: seq<nat>)
    requires |cells| == |w| && forall i :: 0 <= i < |w| ==> |cells[i]| <= w[i]
    ensures |RowLine(cells, w)| == LineLength(w)
  {
    if w != [] {
      JoinLength(" | ", PadCells(cells, w));
      PaddedLengths(cells, w);
    }
  }

  /** The separator line is `LineLength(w)` long. */
  lemma SeparatorLength(w: seq<nat>)
    ensures |Join("-+-", Dashes(w))| == LineLength(w)
  {
    if w != [] {
      JoinLength("-+-", Dashes(w));
      DashLengths(w);
    }
  }

  /** Header, separator and every row line of a table all have the same
      length: the column widths plus three characters between each two
      columns. */
  lemma LinesAligned(columns: seq<string>, rows: seq<seq<Cell>>, k: nat)
    requires Rectangular(rows, |columns|) && k < |rows|
    ensures var cells := RenderRows(rows);
      Rectangular(cells, |columns|) &&
      var w := Widths(columns, cells);
      && |RowLine(columns, w)| == LineLength(w)
      && |Join("-+-", Dashes(w))| == LineLength(w)
      && |RowLine(cells[k], w)| == LineLength(w)
  {
    var cells := RenderRows(rows);
    var w := Widths(columns, cells);
    PaddedLineLength(columns, w);
    SeparatorLength(w);
    PaddedLineLength(cells[k], w);
  }
}
