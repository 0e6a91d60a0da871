/** The spreadsheet and the timestamp file. An openpyxl worksheet is a
    list of rows that `append` extends; `output.xlsx` and `last_time.txt`
    are the state a script leaves in its working directory. */
module Workbook {

  import opened Wrappers
  import opened Table

  /** A worksheet: its rows, in the order they were appended. */
  class Worksheet {
    var rows: seq<Row>

    /** The active sheet of a new `Workbook()`: empty. */
    constructor Empty()
      ensures rows == []
    {
      rows := [];
    }

    /** The active sheet of `load_workbook(filename)`. */
    constructor Load(saved: seq<Row>)
      ensures rows == saved
    {
      rows := saved;
    }

    /** `ws.append(row)`: the row goes below the existing ones. */
    method Append(row: Row)
      modifies this
      ensures rows == old(rows) + [row]
    {
      rows := rows + [row];
    }
  }

  /** The files in the scripts' working directory. */
  class Disk {
    /** `output.xlsx`, the rows of its active sheet; `None` while it does not exist. */
    var workbook: Option<seq<Row>>
    /** `last_time.txt` as `read_last_timestamp` reads it back: `None` when
        the file is missing or does not parse. */
    var lastTime: Option<int>

    constructor (workbook: Option<seq<Row>>, lastTime: Option<int>)
      ensures this.workbook == workbook && this.lastTime == lastTime
    {
      this.workbook := workbook;
      this.lastTime := lastTime;
    }

    /** `wb.save(filename)`: the file now holds exactly the sheet's rows. */
    method SaveWorkbook(ws: Worksheet)
      modifies this
      ensures workbook == Some(ws.rows) && lastTime == old(lastTime)
    {
      workbook := Some(ws.rows);
    }

    /** `save_last_timestamp(dt)`: the file is overwritten with `dt`, which
        `read_last_timestamp` parses back unchanged. */
    method SaveLastTimestamp(t: int)
      modifies this
      ensures lastTime == Some(t) && workbook == old(workbook)
    {
      lastTime := Some(t);
    }
  }

  /** The contents of `output.xlsx` after new rows are appended to it: when
      there are none, the file is left as it was; otherwise the new rows go
      after the existing sheet, or after `header` on a new sheet. */
  function AppendRows(existing: Option<seq<Row>>, header: Row, rows: seq<Row>): Option<seq<Row>>
  {
    if rows == [] then existing
    else Some((if existing.Some? then existing.value else [header]) + rows)
  }

  /** Appending never loses data: whatever the file held is a prefix of what
      it holds afterwards, and the rest is exactly the new rows. */
  lemma AppendRowsKeepsPrior(existing: seq<Row>, header: Row, rows: seq<Row>)
    ensures AppendRows(Some(existing), header, rows).Some?
    ensures var after := AppendRows(Some(existing), header, rows).value;
            |after| == |existing| + |rows| && after[..|existing|] == existing && after[|existing|..] == rows
  {
  }

  /** The tail shared by the two appending scripts (`if not rows: return`,
      load or create, `ws.append` each row, `wb.save`). */
  method AppendSheet(disk: Disk, header: Row, rows: seq<Row>)
    modifies disk
    ensures disk.workbook == AppendRows(old(disk.workbook), header, rows)
    ensures disk.lastTime == old(disk.lastTime)
  {
    if rows == [] {
      return;
    }
    var ws: Worksheet;
    if disk.workbook.Some? {
      ws := new Worksheet.Load(disk.workbook.value);
    } else {
      ws := new Worksheet.Empty();
      ws.Append(header);
    }
    ghost var before := ws.rows;
    assert before == (if disk.workbook.Some? then disk.workbook.value else [header]);
    var i := 0;
    while i < |rows|
      invariant 0 <= i <= |rows|
      invariant ws.rows == before + rows[..i]
      modifies ws
    {
      ws.Append(rows[i]);
      assert rows[..i + 1] == rows[..i] + [rows[i]];
      i := i + 1;
    }
    assert rows[..|rows|] == rows;
    disk.SaveWorkbook(ws);
    assert disk.workbook == Some(before + rows);
  }
}
