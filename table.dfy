/** `print_table` of sdf-csv-join.py: each column is as wide as its widest
    cell (the header included), every cell is right-aligned to that width,
    cells are separated by two blanks, and a blank line and a `TOTAL: n`
    line close the table. The output is modelled as its list of lines. */
module Table {
  import opened Outcomes
  import opened Text

  // ---------------------------------------------------------------------
  // Column widths
  // ---------------------------------------------------------------------

  /** `max(len(x) for x in col)`. */
  function MaxLen(col: seq<string>): (w: nat)
    requires col != []
    ensures forall i :: 0 <= i < |col| ==> |col[i]| <= w
    ensures exists i :: 0 <= i < |col| && |col[i]| == w
  {
    if |col| == 1 then |col[0]|
    else
      var rest := MaxLen(col[1..]);
      MaxLenStep(col, rest);
      if |col[0]| >= rest then |col[0]| else rest
  }

  lemma MaxLenStep(col: seq<string>, rest: nat)
    requires |col| > 1
    requires forall i :: 0 <= i < |col[1..]| ==> |col[1..][i]| <= rest
    requires exists i :: 0 <= i < |col[1..]| && |col[1..][i]| == rest
    ensures forall i :: 1 <= i < |col| ==> |col[i]| <= rest
    ensures exists i :: 1 <= i < |col| && |col[i]| == rest
  {
    var k :| 0 <= k < |col[1..]| && |col[1..][k]| == rest;
    assert |col[k + 1]| == rest;
    forall i | 1 <= i < |col| ensures |col[i]| <= rest {
      assert col[i] == col[1..][i - 1];
    }
  }

  /** Every row has one cell per column, as a row of the row type does. */
  predicate Shaped(header: seq<string>, rows: seq<seq<string>>) {
    forall i :: 0 <= i < |rows| ==> |rows[i]| == |header|
  }

  /** Column `c` of `zip(header, *rows)`. */
  function Column(header: seq<string>, rows: seq<seq<string>>, c: nat): seq<string>
    requires Shaped(header, rows) && c < |header|
  {
    [header[c]] + seq(|rows|, i requires 0 <= i < |rows| => rows[i][c])
  }

  /** Width `w` is the length of some cell of column `c`. */
  ghost predicate Attained(header: seq<string>, rows: seq<seq<string>>, c: nat, w: nat)
    requires Shaped(header, rows) && c < |header|
  {
    |header[c]| == w || exists i :: 0 <= i < |rows| && |rows[i][c]| == w
  }

  /** `col_width`: each column's width holds every cell of the column and
      is the length of one of them, so no narrower width would do. */
  function ColumnWidths(header: seq<string>, rows: seq<seq<string>>): (widths: seq<nat>)
    requires Shaped(header, rows)
    ensures |widths| == |header|
    ensures forall c :: 0 <= c < |header| ==> |header[c]| <= widths[c]
    ensures forall i, c :: 0 <= i < |rows| && 0 <= c < |header| ==> |rows[i][c]| <= widths[c]
    ensures forall c :: 0 <= c < |header| ==> Attained(header, rows, c, widths[c])
  {
    var widths := seq(|header|, c requires 0 <= c < |header| => MaxLen(Column(header, rows, c)));
    forall c | 0 <= c < |header|
      ensures |header[c]| <= widths[c] && Attained(header, rows, c, widths[c])
      ensures forall i :: 0 <= i < |rows| ==> |rows[i][c]| <= widths[c]
    {
      ColumnFacts(header, rows, c, widths[c]);
    }
    widths
  }

  lemma ColumnFacts(header: seq<string>, rows: seq<seq<string>>, c: nat, w: nat)
    requires Shaped(header, rows) && c < |header|
    requires w == MaxLen(Column(header, rows, c))
    ensures |header[c]| <= w && Attained(header, rows, c, w)
    ensures forall i :: 0 <= i < |rows| ==> |rows[i][c]| <= w
  {
    var col := Column(header, rows, c);
    assert col[0] == header[c];
    assert forall i :: 0 <= i < |rows| ==> col[i + 1] == rows[i][c];
    var k :| 0 <= k < |col| && |col[k]| == w;
    if k > 0 {
      assert |rows[k - 1][c]| == w;
    }
  }

  // ---------------------------------------------------------------------
  // Lines
  // ---------------------------------------------------------------------

  function Spaces(n: nat): (s: string)
    ensures |s| == n && forall i :: 0 <= i < n ==> s[i] == ' '
  {
    seq(n, _ => ' ')
  }

  /** `'{:>{}}'.format(cell, w)`: the cell right-aligned in a field of width
      `w`; a longer cell is left whole. */
  function PadLeft(cell: string, w: nat): (p: string)
    ensures |p| == (if |cell| < w then w else |cell|)
    ensures |cell| <= |p| && p[|p| - |cell|..] == cell
    ensures forall i :: 0 <= i < |p| - |cell| ==> p[i] == ' '
  {
    if |cell| < w then Spaces(w - |cell|) + cell else cell
  }

  /** `'  '.join(...)` of the padded cells of one row. */
  function FormatRow(cells: seq<string>, widths: seq<nat>): string
    requires |cells| == |widths|
  {
    if cells == [] then ""
    else if |cells| == 1 then PadLeft(cells[0], widths[0])
    else PadLeft(cells[0], widths[0]) + "  " + FormatRow(cells[1..], widths[1..])
  }

  predicate Fits(cells: seq<string>, widths: seq<nat>)
    requires |cells| == |widths|
  {
    forall c :: 0 <= c < |cells| ==> |cells[c]| <= widths[c]
  }

  function Sum(ws: seq<nat>): nat {
    if ws == [] then 0 else ws[0] + Sum(ws[1..])
  }

  /** Where column `c` ends: its width and those before it, plus the
      separators. */
  function CellEnd(widths: seq<nat>, c: nat): nat
    requires c < |widths|
  {
    Sum(widths[..c + 1]) + 2 * c
  }

  /** The length of a line whose cells all fit. */
  function LineWidth(widths: seq<nat>): nat {
    if widths == [] then 0 else Sum(widths) + 2 * (|widths| - 1)
  }

  /** A row whose cells fit is exactly as long as the widths say. */
  lemma {:induction false} RowLength(cells: seq<string>, widths: seq<nat>)
    requires |cells| == |widths| && Fits(cells, widths)
    ensures |FormatRow(cells, widths)| == LineWidth(widths)
  {
    if |cells| == 1 {
      assert Sum(widths) == widths[0] + Sum(widths[1..]);
    } else if |cells| > 1 {
      assert Fits(cells[1..], widths[1..]) by {
        assert forall c :: 0 <= c < |cells[1..]| ==> cells[1..][c] == cells[c + 1] && widths[1..][c] == widths[c + 1];
      }
      RowLength(cells[1..], widths[1..]);
    }
  }

  lemma {:induction false} SumPrefix(widths: seq<nat>, c: nat)
    requires 0 < c < |widths|
    ensures Sum(widths[..c + 1]) == widths[0] + Sum(widths[1..][..c])
  {
    assert widths[..c + 1][1..] == widths[1..][..c];
  }

  /** In `line`, a field of width `w` ends at `end` and holds `cell`
      right-aligned: the cell ends there and only blanks come before it in
      the field. */
  predicate Placed(line: string, cell: string, w: nat, end: nat) {
    |cell| <= end <= |line| && w <= end && line[end - |cell|..end] == cell &&
    forall k :: end - w <= k < end - |cell| ==> line[k] == ' '
  }

  /** In a row whose cells fit, cell `c` sits in its field, which ends at
      `CellEnd(widths, c)`. */
  lemma {:induction false} CellPlacement(cells: seq<string>, widths: seq<nat>, c: nat)
    requires |cells| == |widths| && Fits(cells, widths) && c < |cells|
    ensures Placed(FormatRow(cells, widths), cells[c], widths[c], CellEnd(widths, c))
    decreases |cells|, 1
  {
    if c == 0 {
      var rest := if |cells| == 1 then "" else "  " + FormatRow(cells[1..], widths[1..]);
      RowSplit(cells, widths);
      assert widths[..1] == [widths[0]];
      assert Sum(widths[..1]) == widths[0];
      FirstCell(cells[0], widths[0], rest);
    } else {
      LaterCellPlacement(cells, widths, c);
    }
  }

  lemma {:induction false} LaterCellPlacement(cells: seq<string>, widths: seq<nat>, c: nat)
    requires |cells| == |widths| && Fits(cells, widths) && 0 < c < |cells|
    ensures Placed(FormatRow(cells, widths), cells[c], widths[c], CellEnd(widths, c))
    decreases |cells|, 0
  {
    var cs, ws := cells[1..], widths[1..];
    FitsTail(cells, widths);
    CellPlacement(cs, ws, c - 1);
    assert cs[c - 1] == cells[c] && ws[c - 1] == widths[c];
    var head, tail, end := PadLeft(cells[0], widths[0]), FormatRow(cs, ws), CellEnd(ws, c - 1);
    ShiftPlacement(head, tail, cells[c], widths[c], end);
    RowSplit(cells, widths);
    CellEndShift(widths, c);
    assert FormatRow(cells, widths) == head + "  " + tail;
    assert CellEnd(widths, c) == |head| + 2 + end;
  }

  lemma FitsTail(cells: seq<string>, widths: seq<nat>)
    requires |cells| == |widths| >= 1 && Fits(cells, widths)
    ensures |cells[0]| <= widths[0] && Fits(cells[1..], widths[1..])
  {
    assert forall j :: 0 <= j < |cells[1..]| ==> cells[1..][j] == cells[j + 1] && widths[1..][j] == widths[j + 1];
  }

  /** Column `c` of a row ends one field and one separator later than
      column `c - 1` of the row without its first cell. */
  lemma CellEndShift(widths: seq<nat>, c: nat)
    requires 0 < c < |widths|
    ensures CellEnd(widths, c) == widths[0] + 2 + CellEnd(widths[1..], c - 1)
  {
    SumPrefix(widths, c);
  }

  /** A row is its first padded cell, then the rest behind a separator. */
  lemma RowSplit(cells: seq<string>, widths: seq<nat>)
    requires |cells| == |widths| >= 1
    ensures FormatRow(cells, widths) == PadLeft(cells[0], widths[0]) +
      (if |cells| == 1 then "" else "  " + FormatRow(cells[1..], widths[1..]))
  {
  }

  /** The first cell of a line ends where its field does, with blanks before it. */
  lemma FirstCell(cell: string, w: nat, rest: string)
    requires |cell| <= w
    ensures Placed(PadLeft(cell, w) + rest, cell, w, w)
  {
    var head := PadLeft(cell, w);
    var line := head + rest;
    assert line[..|head|] == head;
  }

  /** A field found at `end` in `tail` is found `|head| + 2` further on once
      `head` and a separator are put before it. */
  lemma ShiftPlacement(head: string, tail: string, cell: string, w: nat, end: nat)
    requires Placed(tail, cell, w, end)
    ensures Placed(head + "  " + tail, cell, w, |head| + 2 + end)
  {
    var line := head + "  " + tail;
    var off := |head| + 2;
    ShiftSlice(head + "  ", tail, end - |cell|, end);
    forall k | off + end - w <= k < off + end - |cell| ensures line[k] == ' ' {
      assert line[k] == tail[k - off];
    }
  }

  lemma ShiftSlice(pre: string, tail: string, i: nat, j: nat)
    requires i <= j <= |tail|
    ensures (pre + tail)[|pre| + i..|pre| + j] == tail[i..j]
  {
  }

  /** Two blanks follow position `end`: the separator `'  '.join` puts
      between fields. */
  predicate Gap(line: string, end: nat) {
    end + 2 <= |line| && line[end] == ' ' && line[end + 1] == ' '
  }

  /** In a row whose cells fit, every field but the last is followed by
      the two-blank separator. */
  lemma {:induction false} GapAfter(cells: seq<string>, widths: seq<nat>, c: nat)
    requires |cells| == |widths| && Fits(cells, widths) && c + 1 < |cells|
    ensures Gap(FormatRow(cells, widths), CellEnd(widths, c))
  {
    var head, tail := PadLeft(cells[0], widths[0]), FormatRow(cells[1..], widths[1..]);
    RowSplit(cells, widths);
    FitsTail(cells, widths);
    assert FormatRow(cells, widths) == head + "  " + tail;
    if c == 0 {
      assert widths[..1] == [widths[0]];
      assert Sum(widths[..1]) == widths[0];
    } else {
      GapAfter(cells[1..], widths[1..], c - 1);
      CellEndShift(widths, c);
      GapShift(head, tail, CellEnd(widths[1..], c - 1));
    }
  }

  lemma GapShift(head: string, tail: string, end: nat)
    requires Gap(tail, end)
    ensures Gap(head + "  " + tail, |head| + 2 + end)
  {
    var line := head + "  " + tail;
    assert line[|head| + 2 + end] == tail[end] && line[|head| + 3 + end] == tail[end + 1];
  }

  // ---------------------------------------------------------------------
  // The table
  // ---------------------------------------------------------------------

  /** The line `print_table` ends with. */
  function TotalLine(count: nat): string {
    "TOTAL: " + NatToDecimal(count)
  }

  /** The lines `print_table(table, row_type)` prints: the header, one line
      per row in table order, a blank line and the row count. */
  function PrintTable(header: seq<string>, rows: seq<seq<string>>): (lines: seq<string>)
    requires Shaped(header, rows)
    ensures |lines| == |rows| + 3
    ensures lines[|rows| + 1] == "" && lines[|rows| + 2] == TotalLine(|rows|)
  {
    Lines(header, rows, ColumnWidths(header, rows))
  }

  /** The lines of the table for the given column widths. */
  function Lines(header: seq<string>, rows: seq<seq<string>>, widths: seq<nat>): (lines: seq<string>)
    requires Shaped(header, rows) && |widths| == |header|
    ensures |lines| == |rows| + 3
    ensures lines[|rows| + 1] == "" && lines[|rows| + 2] == TotalLine(|rows|)
  {
    [FormatRow(header, widths)] + RowLines(header, rows, widths) + ["", TotalLine(|rows|)]
  }

  /** One formatted line per row, in table order. */
  function RowLines(header: seq<string>, rows: seq<seq<string>>, widths: seq<nat>): (lines: seq<string>)
    requires Shaped(header, rows) && |widths| == |header|
    ensures |lines| == |rows|
    ensures forall i :: 0 <= i < |rows| ==> lines[i] == FormatRow(rows[i], widths)
  {
    seq(|rows|, i requires 0 <= i < |rows| => FormatRow(rows[i], widths))
  }

  lemma IndexAfterFirst<T>(first: T, body: seq<T>, last: seq<T>, i: nat)
    requires i <= |body|
    ensures ([first] + body + last)[i] == if i == 0 then first else body[i - 1]
  {
  }

  /** The header and the rows of the table, as its lines show them. */
  function Shown(header: seq<string>, rows: seq<seq<string>>, i: nat): seq<string>
    requires i <= |rows|
  {
    if i == 0 then header else rows[i - 1]
  }

  /** The table is aligned: every line above the total is equally long, in
      each of them the cell of column `c` ends at the same place, and two
      blanks separate it from the next field. */
  lemma TableAligned(header: seq<string>, rows: seq<seq<string>>, i: nat, c: nat)
    requires Shaped(header, rows) && i <= |rows| && c < |header|
    ensures var widths := ColumnWidths(header, rows);
      var line := PrintTable(header, rows)[i];
      var cell := Shown(header, rows, i)[c];
      && |line| == LineWidth(widths) && Placed(line, cell, widths[c], CellEnd(widths, c))
      && (c + 1 < |header| ==> Gap(line, CellEnd(widths, c)))
  {
    var widths := ColumnWidths(header, rows);
    ShownFits(header, rows, widths, i);
    assert PrintTable(header, rows) == Lines(header, rows, widths);
    AlignedWith(header, rows, widths, i, c);
  }

  /** The same, for any widths the shown cells fit in. */
  lemma AlignedWith(header: seq<string>, rows: seq<seq<string>>, widths: seq<nat>, i: nat, c: nat)
    requires Shaped(header, rows) && |widths| == |header| && i <= |rows| && c < |header|
    requires |Shown(header, rows, i)| == |widths| && Fits(Shown(header, rows, i), widths)
    ensures var line := Lines(header, rows, widths)[i];
      var cell := Shown(header, rows, i)[c];
      && |line| == LineWidth(widths) && Placed(line, cell, widths[c], CellEnd(widths, c))
      && (c + 1 < |header| ==> Gap(line, CellEnd(widths, c)))
  {
    LineShows(header, rows, widths, i);
    LaidOut(Shown(header, rows, i), widths, c);
  }

  /** Line `i` of the table shows the header (`i == 0`) or row `i - 1`. */
  lemma LineShows(header: seq<string>, rows: seq<seq<string>>, widths: seq<nat>, i: nat)
    requires Shaped(header, rows) && |widths| == |header| && i <= |rows|
    ensures Lines(header, rows, widths)[i] == FormatRow(Shown(header, rows, i), widths)
  {
    IndexAfterFirst(FormatRow(header, widths), RowLines(header, rows, widths), ["", TotalLine(|rows|)], i);
  }

  /** A line whose cells fit: its length, the field of cell `c`, and the
      separator after it. */
  lemma LaidOut(cells: seq<string>, widths: seq<nat>, c: nat)
    requires |cells| == |widths| && Fits(cells, widths) && c < |cells|
    ensures var line := FormatRow(cells, widths);
      && |line| == LineWidth(widths) && Placed(line, cells[c], widths[c], CellEnd(widths, c))
      && (c + 1 < |cells| ==> Gap(line, CellEnd(widths, c)))
  {
    RowLength(cells, widths);
    CellPlacement(cells, widths, c);
    if c + 1 < |cells| {
      GapAfter(cells, widths, c);
    }
  }

  lemma ShownFits(header: seq<string>, rows: seq<seq<string>>, widths: seq<nat>, i: nat)
    requires Shaped(header, rows) && i <= |rows|
    requires widths == ColumnWidths(header, rows)
    ensures |Shown(header, rows, i)| == |widths| && Fits(Shown(header, rows, i), widths)
  {
    if i > 0 {
      assert Shown(header, rows, i) == rows[i - 1];
    }
  }

  /** The total line reads back as the number of rows. */
  lemma TotalReadsBack(count: nat)
    ensures |TotalLine(count)| > 7 && TotalLine(count)[..7] == "TOTAL: "
    ensures ParseInt(TotalLine(count)[7..]) == Some(count)
  {
    var line := TotalLine(count);
    assert line[7..] == "" + IntToDecimal(count) + "";
    ParseIntDecimal(count, "", "");
  }
}
