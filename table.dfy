/** Turning the language model's pipe-separated text into spreadsheet rows:
    the cell split every script uses (`[c.strip() for c in line.split("|")]`)
    and the keep-or-drop filter over the output's lines. */
module Table {

  import opened PyStr

  type Row = seq<string>

  /** The cells of one line: its `"|"`-separated pieces, each stripped. A
      line has one cell more than it has `"|"` characters, and no cell holds
      a `"|"` or starts or ends with whitespace. */
  function Cells(line: string): (r: Row)
    ensures |r| == Count(line, '|') + 1
    ensures forall k :: 0 <= k < |r| ==> '|' !in r[k]
    ensures forall k :: 0 <= k < |r| && r[k] != [] ==> !IsSpace(r[k][0]) && !IsSpace(r[k][|r[k]| - 1])
  {
    var pieces := Split(line, '|');
    var r := seq(|pieces|, k requires 0 <= k < |pieces| => Strip(pieces[k]));
    forall k | 0 <= k < |r|
      ensures '|' !in r[k]
      ensures r[k] != [] ==> !IsSpace(r[k][0]) && !IsSpace(r[k][|r[k]| - 1])
    {
      StripIsTrimmedSlice(pieces[k]);
      CharOfSlice(pieces[k], r[k], '|');
    }
    r
  }

  lemma CharOfSlice(s: string, r: string, c: char)
    requires c !in s
    requires exists i :: StrippedAt(s, r, i)
    ensures c !in r
  {
    var i :| StrippedAt(s, r, i);
  }

  /** A line that holds a `"|"` yields at least two cells. */
  lemma {:induction false} PipeLineHasTwoCells(line: string)
    requires Contains(line, "|")
    ensures |Cells(line)| >= 2
  {
    ContainsChar(line, '|');
    CountPositive(line, '|');
  }

  lemma {:induction false} CountPositive(s: string, c: char)
    requires c in s
    ensures Count(s, c) >= 1
  {
    if s[0] != c {
      CountPositive(s[1..], c);
    }
  }

  /** The lines for which `keep` holds, in their original order (the
      comprehension `[l for l in lines if keep(l)]`). */
  function Filter(keep: string -> bool, lines: seq<string>): (r: seq<string>)
    ensures |r| <= |lines|
  {
    if lines == [] then []
    else
      var last := lines[|lines| - 1];
      Filter(keep, lines[..|lines| - 1]) + (if keep(last) then [last] else [])
  }

  /** Filtering distributes over concatenation: kept lines stay in the order
      of the text they came from. */
  lemma {:induction false} FilterConcat(keep: string -> bool, a: seq<string>, b: seq<string>)
    ensures Filter(keep, a + b) == Filter(keep, a) + Filter(keep, b)
    decreases |b|
  {
    if b == [] {
      assert a + b == a;
    } else {
      var b' := b[..|b| - 1];
      assert (a + b)[..|a + b| - 1] == a + b';
      FilterConcat(keep, a, b');
    }
  }

  /** A line survives the filter exactly when it is one of the lines and
      `keep` holds of it. */
  lemma {:induction false} FilterMembers(keep: string -> bool, lines: seq<string>, line: string)
    ensures line in Filter(keep, lines) <==> line in lines && keep(line)
  {
    if lines != [] {
      var init := lines[..|lines| - 1];
      FilterMembers(keep, init, line);
      assert lines == init + [lines[|lines| - 1]];
    }
  }

  /** One row per line, the line's cells. */
  function CellRows(lines: seq<string>): seq<Row>
  {
    seq(|lines|, k requires 0 <= k < |lines| => Cells(lines[k]))
  }

  /** One more line adds its row exactly when it is kept. */
  lemma KeptRowsSnoc(keep: string -> bool, lines: seq<string>, line: string)
    ensures CellRows(Filter(keep, lines + [line])) ==
            CellRows(Filter(keep, lines)) + (if keep(line) then [Cells(line)] else [])
  {
    assert (lines + [line])[..|lines|] == lines;
    var kept := Filter(keep, lines);
    if keep(line) {
      assert CellRows(kept + [line]) == CellRows(kept) + [Cells(line)];
    }
  }
}
