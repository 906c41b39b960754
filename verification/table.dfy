/**
 The text-table renderer `outputData` (server.js): every "view" action hands it the rows
 the store returned and it prints them as left-aligned columns under a dashed underline.
 Printing is modelled as the sequence of lines the function logs, in order.
 */
module TableRender {
  import opened Options
  import opened Text

  /** One property of a result record: its name and its value already passed through `String(...)`. */
  datatype Field = Field(name: string, value: string)

  /** A result record, its properties in the order the store returned them. */
  type Record = seq<Field>

  /** The only line logged for an absent or empty result. */
  const NoDataNotice: string := "No data available."

  /** `String(undefined)`: what a record lacking a property renders as in that column. */
  const Undefined: string := "undefined"

  /** `Object.keys(record)`: the property names in order. */
  function Keys(rec: Record): seq<string>
  {
    seq(|rec|, i requires 0 <= i < |rec| => rec[i].name)
  }

  /** `String(record[header])`: the value of the property with that name, `"undefined"` when there is none. */
  function Cell(rec: Record, header: string): string
  {
    if |rec| == 0 then Undefined
    else if rec[0].name == header then rec[0].value
    else Cell(rec[1..], header)
  }

  /**
   The lookup `record[header]` finds the value of the first property with that name; a record
   without such a property reads as `"undefined"`.
   */
  lemma {:induction false} CellIsFirstMatch(rec: Record, header: string)
    ensures header !in Keys(rec) ==> Cell(rec, header) == Undefined
    ensures header in Keys(rec) ==>
              exists i :: 0 <= i < |rec| && rec[i].name == header && Cell(rec, header) == rec[i].value
                && forall j :: 0 <= j < i ==> rec[j].name != header
  {
    if |rec| > 0 && rec[0].name != header {
      CellIsFirstMatch(rec[1..], header);
      assert Keys(rec) == [rec[0].name] + Keys(rec[1..]);
      if header in Keys(rec) {
        var i :| 0 <= i < |rec[1..]| && rec[1..][i].name == header && Cell(rec[1..], header) == rec[1..][i].value
                 && forall j :: 0 <= j < i ==> rec[1..][j].name != header;
        assert rec[i + 1] == rec[1..][i];
        forall j | 0 <= j < i + 1 ensures rec[j].name != header {
          if j > 0 {
            assert rec[j] == rec[1..][j - 1];
          }
        }
      }
    } else if |rec| > 0 {
      assert Keys(rec)[0] == header;
    }
  }

  /** `Math.max(header.length, ...rows.map(row => String(row[header]).length))`. */
  function ColumnWidth(header: string, rows: seq<Record>): (w: nat)
    ensures |header| <= w
  {
    if |rows| == 0 then |header|
    else
      var rest := ColumnWidth(header, rows[1..]);
      var first := |Cell(rows[0], header)|;
      if first > rest then first else rest
  }

  /** No value of the column is wider than the column. */
  lemma {:induction false} ColumnWidthBounds(header: string, rows: seq<Record>)
    ensures forall k :: 0 <= k < |rows| ==> |Cell(rows[k], header)| <= ColumnWidth(header, rows)
  {
    if |rows| > 0 {
      ColumnWidthBounds(header, rows[1..]);
      forall k | 1 <= k < |rows| ensures |Cell(rows[k], header)| <= ColumnWidth(header, rows) {
        assert rows[k] == rows[1..][k - 1];
      }
    }
  }

  /** The width is attained: it is the header's length or the length of some cell of the column. */
  lemma {:induction false} ColumnWidthAttained(header: string, rows: seq<Record>)
    ensures ColumnWidth(header, rows) == |header|
            || exists k :: 0 <= k < |rows| && ColumnWidth(header, rows) == |Cell(rows[k], header)|
  {
    if |rows| > 0 {
      ColumnWidthAttained(header, rows[1..]);
      var rest := ColumnWidth(header, rows[1..]);
      if ColumnWidth(header, rows) != |header| && ColumnWidth(header, rows) == rest {
        var k :| 0 <= k < |rows[1..]| && rest == |Cell(rows[1..][k], header)|;
        assert rows[1..][k] == rows[k + 1];
      }
    }
  }

  /** One width per header, in header order. */
  function ColumnWidths(headers: seq<string>, rows: seq<Record>): seq<nat>
  {
    seq(|headers|, i requires 0 <= i < |headers| => ColumnWidth(headers[i], rows))
  }

  /** Every text padded to its column's width (`padEnd`). */
  function Padded(texts: seq<string>, ws: seq<nat>): seq<string>
    requires |texts| == |ws|
  {
    seq(|ws|, i requires 0 <= i < |ws| => PadEnd(texts[i], ws[i]))
  }

  /** Pads every text to its column's width and joins them with single spaces. */
  function LayoutLine(texts: seq<string>, ws: seq<nat>): string
    requires |texts| == |ws|
  {
    Join(Padded(texts, ws), ' ')
  }

  /** The run of dashes under each column, joined with single spaces. */
  function DashRuns(ws: seq<nat>): seq<string>
  {
    seq(|ws|, i requires 0 <= i < |ws| => Repeat('-', ws[i]))
  }

  function Underline(ws: seq<nat>): string
  {
    Join(DashRuns(ws), ' ')
  }

  /** The stringified values of one record, in header order. */
  function RowCells(rec: Record, headers: seq<string>): seq<string>
  {
    seq(|headers|, i requires 0 <= i < |headers| => Cell(rec, headers[i]))
  }

  /** The headers come from the first record only. */
  function Headers(rows: seq<Record>): seq<string>
    requires |rows| > 0
  {
    Keys(rows[0])
  }

  function Widths(rows: seq<Record>): seq<nat>
    requires |rows| > 0
  {
    ColumnWidths(Headers(rows), rows)
  }

  /** The header line: every property name padded to its column. */
  function HeaderLine(rows: seq<Record>): string
    requires |rows| > 0
  {
    LayoutLine(Headers(rows), Widths(rows))
  }

  /** The data line of record `k`: its values padded to their columns. */
  function RowLine(rows: seq<Record>, k: nat): string
    requires k < |rows|
  {
    LayoutLine(RowCells(rows[k], Headers(rows)), Widths(rows))
  }

  /**
   Line `l` of a table: a blank line, the header line, the underline, then the record lines in
   input order, then a blank line.
   */
  function TableLine(rows: seq<Record>, l: nat): string
    requires 0 < |rows| && l < |rows| + 4
  {
    if l == 1 then HeaderLine(rows)
    else if l == 2 then Underline(Widths(rows))
    else if 3 <= l < |rows| + 3 then RowLine(rows, l - 3)
    else []
  }

  /** All the lines of a non-empty table, in the order they are logged. */
  function TableLines(rows: seq<Record>): (lines: seq<string>)
    requires |rows| > 0
    ensures |lines| == |rows| + 4
    ensures lines[0] == [] && lines[|lines| - 1] == []
  {
    seq(|rows| + 4, l requires 0 <= l < |rows| + 4 => TableLine(rows, l))
  }

  /** `outputData(rows)`: the lines it logs. */
  function OutputData(rows: Option<seq<Record>>): (lines: seq<string>)
    ensures rows.None? || rows.value == [] ==> lines == [NoDataNotice]
    ensures rows.Some? && rows.value != [] ==>
              |lines| == |rows.value| + 4 && lines[0] == [] && lines[|lines| - 1] == []
  {
    if rows.None? || |rows.value| == 0 then [NoDataNotice] else TableLines(rows.value)
  }

  /** Every text fits its column. */
  ghost predicate Fits(texts: seq<string>, ws: seq<nat>)
  {
    |texts| == |ws| && forall i :: 0 <= i < |ws| ==> |texts[i]| <= ws[i]
  }

  /** A text no wider than the column pads to itself followed by spaces: nothing is cut. */
  lemma {:induction false} PadIsTextThenSpaces(t: string, w: nat)
    requires |t| <= w
    ensures PadEnd(t, w) == t + Repeat(' ', w - |t|)
  {
  }

  /** When every text fits, a laid-out line is `LineWidth(ws)` long. */
  lemma {:induction false} LayoutLength(texts: seq<string>, ws: seq<nat>)
    requires Fits(texts, ws)
    ensures |LayoutLine(texts, ws)| == LineWidth(ws)
  {
    assert HasWidths(Padded(texts, ws), ws);
    JoinLength(Padded(texts, ws), ws, ' ');
  }

  /**
   Column `j` of a laid-out line starts at `ColumnStart(ws, j)` and holds `texts[j]` followed
   only by spaces; a single space follows unless it is the last column.
   */
  lemma {:induction false} LayoutColumn(texts: seq<string>, ws: seq<nat>, j: nat)
    requires Fits(texts, ws)
    requires j < |ws|
    ensures ColumnIs(LayoutLine(texts, ws), ws, j, texts[j] + Repeat(' ', ws[j] - |texts[j]|))
  {
    var padded := Padded(texts, ws);
    assert HasWidths(padded, ws);
    JoinColumn(padded, ws, ' ', j);
    PadIsTextThenSpaces(texts[j], ws[j]);
  }

  /** The header line lays out the first record's property names, which fit their columns. */
  lemma {:induction false} HeaderLineIsLayout(rows: seq<Record>)
    requires |rows| > 0
    ensures Fits(Headers(rows), Widths(rows))
    ensures OutputData(Some(rows))[1] == LayoutLine(Headers(rows), Widths(rows))
  {
  }

  /** Data line `3 + k` lays out record `k`'s values, which fit their columns. */
  lemma {:induction false} DataLineIsLayout(rows: seq<Record>, k: nat)
    requires k < |rows|
    ensures Fits(RowCells(rows[k], Headers(rows)), Widths(rows))
    ensures OutputData(Some(rows))[3 + k] == LayoutLine(RowCells(rows[k], Headers(rows)), Widths(rows))
  {
    var hs, ws := Headers(rows), Widths(rows);
    forall j | 0 <= j < |ws| ensures |RowCells(rows[k], hs)[j]| <= ws[j] {
      ColumnWidthBounds(hs[j], rows);
    }
  }

  /** Line 2 is the underline of the table's widths. */
  lemma {:induction false} UnderlineLineIsDashes(rows: seq<Record>)
    requires |rows| > 0
    ensures OutputData(Some(rows))[2] == Underline(Widths(rows))
  {
  }

  /**
   The header line is as long as the column widths plus one space between neighbouring columns;
   the underline and every data line have that same length.
   */
  lemma {:induction false} HeaderLineWidth(rows: seq<Record>)
    requires |rows| > 0
    ensures |OutputData(Some(rows))[1]| == LineWidth(Widths(rows))
  {
    HeaderLineIsLayout(rows);
    LayoutLength(Headers(rows), Widths(rows));
  }

  /** The underline is as long as the header line. */
  lemma {:induction false} UnderlineWidth(rows: seq<Record>)
    requires |rows| > 0
    ensures |OutputData(Some(rows))[2]| == LineWidth(Widths(rows))
  {
    var ws := Widths(rows);
    UnderlineLineIsDashes(rows);
    assert HasWidths(DashRuns(ws), ws);
    JoinLength(DashRuns(ws), ws, ' ');
  }

  /** Every data line is as long as the header line. */
  lemma {:induction false} DataLineWidth(rows: seq<Record>, k: nat)
    requires k < |rows|
    ensures |OutputData(Some(rows))[3 + k]| == LineWidth(Widths(rows))
  {
    DataLineIsLayout(rows, k);
    LayoutLength(RowCells(rows[k], Headers(rows)), Widths(rows));
  }


  /** Header column `j` holds the `j`-th property name of the first record, then only spaces. */
  lemma {:induction false} HeaderLineColumn(rows: seq<Record>, j: nat)
    requires |rows| > 0
    requires j < |Headers(rows)|
    ensures var hs, ws := Headers(rows), Widths(rows);
      ColumnIs(OutputData(Some(rows))[1], ws, j, hs[j] + Repeat(' ', ws[j] - |hs[j]|))
  {
    HeaderLineIsLayout(rows);
    LayoutColumn(Headers(rows), Widths(rows), j);
  }

  /**
   Data line `3 + k` renders record `k`, so records keep their input order: its column `j` holds
   the record's value for header `j` followed only by spaces, so no value is ever cut short.
   */
  lemma {:induction false} RowLineColumn(rows: seq<Record>, k: nat, j: nat)
    requires k < |rows|
    requires j < |Headers(rows)|
    ensures var cells, ws := RowCells(rows[k], Headers(rows)), Widths(rows);
      && |cells[j]| <= ws[j]
      && ColumnIs(OutputData(Some(rows))[3 + k], ws, j, cells[j] + Repeat(' ', ws[j] - |cells[j]|))
  {
    DataLineIsLayout(rows, k);
    LayoutColumn(RowCells(rows[k], Headers(rows)), Widths(rows), j);
  }

  /** No dash run contains a space. */
  lemma {:induction false} DashRunsHaveNoSpace(ws: seq<nat>)
    ensures forall i :: 0 <= i < |ws| ==> ' ' !in DashRuns(ws)[i]
  {
  }

  /** Column `j` of an underline is a run of exactly `ws[j]` dashes, then a space unless it is the last column. */
  lemma {:induction false} DashRunColumn(ws: seq<nat>, j: nat)
    requires j < |ws|
    ensures ColumnIs(Underline(ws), ws, j, Repeat('-', ws[j]))
  {
    assert HasWidths(DashRuns(ws), ws);
    JoinColumn(DashRuns(ws), ws, ' ', j);
  }

  /**
   The underline has one run of dashes per column, exactly as long as the column, with a single
   space after every run but the last.
   */
  lemma {:induction false} UnderlineRun(rows: seq<Record>, j: nat)
    requires |rows| > 0
    requires j < |Widths(rows)|
    ensures ColumnIs(OutputData(Some(rows))[2], Widths(rows), j, Repeat('-', Widths(rows)[j]))
  {
    UnderlineLineIsDashes(rows);
    DashRunColumn(Widths(rows), j);
  }

  /** Cutting the underline at its spaces gives back exactly one dash run per column. */
  lemma {:induction false} UnderlineSplitsIntoRuns(rows: seq<Record>)
    requires |rows| > 0
    requires |Widths(rows)| > 0
    ensures Split(OutputData(Some(rows))[2], ' ') == DashRuns(Widths(rows))
  {
    UnderlineLineIsDashes(rows);
    DashRunsHaveNoSpace(Widths(rows));
    SplitJoin(DashRuns(Widths(rows)), ' ');
  }

  /** Every column is exactly as wide as its widest text: the header or one of its cells. */
  lemma {:induction false} WidthsAreColumnMaxima(rows: seq<Record>, j: nat)
    requires |rows| > 0
    requires j < |Headers(rows)|
    ensures var hs, ws := Headers(rows), Widths(rows);
      && |ws| == |hs|
      && |hs[j]| <= ws[j]
      && (forall k :: 0 <= k < |rows| ==> |Cell(rows[k], hs[j])| <= ws[j])
      && (ws[j] == |hs[j]| || exists k :: 0 <= k < |rows| && ws[j] == |Cell(rows[k], hs[j])|)
  {
    var hs, ws := Headers(rows), Widths(rows);
    assert ws[j] == ColumnWidth(hs[j], rows);
    ColumnWidthBounds(hs[j], rows);
    ColumnWidthAttained(hs[j], rows);
  }
}
