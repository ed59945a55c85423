/** The text that `CSVReader::printTable` writes: every cell left-aligned in
    a field of fixed width (`std::left` with `std::setw(15)`), the header
    line, a rule of dashes, one line per data row, and a notice instead of
    all of this when there is no data. */
module Layout {
  import opened Delimited

  /** The field width given to `std::setw`. */
  const Width: nat := 15

  /** What is written when no data rows are loaded. */
  const NoDataNotice: string := "[INFO] No data loaded.\n"

  /** The title line written above the table. */
  const TitleLine: string := "--- Loaded Data Table ---"

  /** `n` copies of `ch`, as `std::string(n, ch)` builds them. */
  function Repeat(n: nat, ch: char): (r: string)
    ensures |r| == n
    ensures forall k :: 0 <= k < n ==> r[k] == ch
  {
    seq(n, _ => ch)
  }

  /** A cell written with `std::left << std::setw(Width)`: the cell itself,
      never truncated, followed by as many spaces as bring it to `Width`. */
  function Pad(cell: string): (r: string)
    ensures |r| == if |cell| < Width then Width else |cell|
    ensures r[..|cell|] == cell
    ensures forall k :: |cell| <= k < |r| ==> r[k] == ' '
  {
    if |cell| < Width then cell + Repeat(Width - |cell|, ' ') else cell
  }

  /** The padded cells of one line, without its line break. */
  function RenderCells(cells: seq<string>): (r: string)
    ensures |r| >= Width * |cells|
  {
    if cells == [] then []
    else RenderCells(cells[..|cells| - 1]) + Pad(cells[|cells| - 1])
  }

  /** One line, ended by a line break, per row. */
  function RenderRows(rows: seq<seq<string>>): (r: string)
    ensures r == [] <==> rows == []
    ensures |r| >= |rows|
  {
    if rows == [] then []
    else RenderRows(rows[..|rows| - 1]) + RenderCells(rows[|rows| - 1]) + "\n"
  }

  /** Everything `printTable` writes for the given header and data rows. */
  function Render(headers: seq<string>, data: seq<seq<string>>): (r: string)
    ensures r == NoDataNotice <==> data == []
  {
    if data == [] then NoDataNotice
    else
      "\n" + (TitleLine + "\n" + (RenderCells(headers) + "\n" +
        (Repeat(|headers| * Width, '-') + "\n" + (RenderRows(data) + "\n"))))
  }

  /** The rendered lines of a table's rows, one per row. */
  function RowLines(rows: seq<seq<string>>): (r: seq<string>)
    ensures |r| == |rows|
    ensures forall i :: 0 <= i < |rows| ==> r[i] == RenderCells(rows[i])
  {
    if rows == [] then []
    else RowLines(rows[..|rows| - 1]) + [RenderCells(rows[|rows| - 1])]
  }

  /** No cell holds a line break. */
  predicate OneLine(cells: seq<string>)
  {
    forall k :: 0 <= k < |cells| ==> '\n' !in cells[k]
  }

  /** No cell is wider than the field width. */
  predicate Narrow(cells: seq<string>)
  {
    forall k :: 0 <= k < |cells| ==> |cells[k]| <= Width
  }

  /** Cells are never truncated, so a line is at least `Width` characters
      per cell, and exactly that when no cell is wider. */
  lemma {:induction false} RenderCellsLength(cells: seq<string>)
    ensures |RenderCells(cells)| >= Width * |cells|
    ensures Narrow(cells) ==> |RenderCells(cells)| == Width * |cells|
    decreases |cells|
  {
    if cells != [] {
      var n := |cells| - 1;
      RenderCellsLength(cells[..n]);
      if Narrow(cells) {
        assert |cells[n]| <= Width;
        assert Narrow(cells[..n]) by {
          assert forall k :: 0 <= k < n ==> cells[..n][k] == cells[k];
        }
      }
    }
  }

  /** Writing one more row appends its line and line break. */
  lemma RenderRowsNext(rows: seq<seq<string>>, i: nat)
    requires i < |rows|
    ensures RenderRows(rows[..i + 1]) == RenderRows(rows[..i]) + RenderCells(rows[i]) + "\n"
  {
    var upto := rows[..i + 1];
    assert upto[..i] == rows[..i] && upto[i] == rows[i];
  }

  /** Proof helper: a slice within the front part of a concatenation. */
  lemma SliceFront<T>(a: seq<T>, b: seq<T>, i: nat, j: nat)
    requires i <= j <= |a|
    ensures (a + b)[i..j] == a[i..j]
  {
  }

  /** The cells of two pieces of a line written one after the other. */
  lemma {:induction false} RenderCellsAppend(a: seq<string>, b: seq<string>)
    ensures RenderCells(a + b) == RenderCells(a) + RenderCells(b)
    decreases |b|
  {
    if b == [] {
      assert a + b == a;
    } else {
      var m := |b| - 1;
      assert (a + b)[..|a + b| - 1] == a + b[..m];
      assert RenderCells(a + b[..m]) == RenderCells(a) + RenderCells(b[..m]) by {
        RenderCellsAppend(a, b[..m]);
      }
      Regroup(RenderCells(a), RenderCells(b[..m]), Pad(b[m]));
    }
  }

  /** No cell is wider than the field width in the first cells either. */
  lemma NarrowPrefix(cells: seq<string>, j: nat)
    requires Narrow(cells) && j <= |cells|
    ensures Narrow(cells[..j])
  {
    assert forall i :: 0 <= i < j ==> cells[..j][i] == cells[i];
  }

  /** Writing one more cell appends it, padded. */
  lemma RenderCellsNext(cells: seq<string>, k: nat)
    requires k < |cells|
    ensures RenderCells(cells[..k + 1]) == RenderCells(cells[..k]) + Pad(cells[k])
  {
    var upto := cells[..k + 1];
    assert upto[..k] == cells[..k] && upto[k] == cells[k];
  }

  /** A line is its first cells followed by the rest. */
  lemma RenderCellsSplitAt(cells: seq<string>, j: nat)
    requires j <= |cells|
    ensures RenderCells(cells) == RenderCells(cells[..j]) + RenderCells(cells[j..])
  {
    assert cells == cells[..j] + cells[j..];
    RenderCellsAppend(cells[..j], cells[j..]);
  }

  /** When no cell is wider than the field width, the first `k` cells take
      `Width * k` characters. */
  lemma NarrowPrefixLength(cells: seq<string>, k: nat)
    requires Narrow(cells) && k <= |cells|
    ensures |RenderCells(cells[..k])| == Width * k
  {
    NarrowPrefix(cells, k);
    RenderCellsLength(cells[..k]);
  }

  /** When no cell is wider than `Width` the columns line up: cell `k`
      occupies exactly the characters `Width * k` up to `Width * (k + 1)` of
      its line, where it stands padded. */
  lemma RenderCellsColumn(cells: seq<string>, k: nat)
    requires Narrow(cells) && k < |cells|
    ensures |RenderCells(cells)| == Width * |cells|
    ensures RenderCells(cells)[Width * k .. Width * (k + 1)] == Pad(cells[k])
  {
    var front, line := RenderCells(cells[..k]), RenderCells(cells[..k + 1]);
    RenderCellsNext(cells, k);
    NarrowPrefixLength(cells, k);
    RenderCellsSplitAt(cells, k + 1);
    RenderCellsLength(cells);
    SliceFront(line, RenderCells(cells[k + 1..]), Width * k, Width * (k + 1));
  }

  /** A rendered line holds no line break when no cell does. */
  lemma {:induction false} RenderCellsOneLine(cells: seq<string>)
    requires OneLine(cells)
    ensures '\n' !in RenderCells(cells)
    decreases |cells|
  {
    if cells != [] {
      var n := |cells| - 1;
      RenderCellsOneLine(cells[..n]);
      var p := Pad(cells[n]);
      assert '\n' !in p by {
        if |cells[n]| < Width {
          assert p == cells[n] + Repeat(Width - |cells[n]|, ' ');
        }
      }
    }
  }

  /** The rendered rows in front of more text: the rows but the last, then
      the last row's line and its line break, then that text. */
  lemma RenderRowsLast(rows: seq<seq<string>>, rest: string)
    requires rows != []
    ensures RenderRows(rows) + rest
         == RenderRows(rows[..|rows| - 1]) + (RenderCells(rows[|rows| - 1]) + "\n" + rest)
  {
    var front, line := RenderRows(rows[..|rows| - 1]), RenderCells(rows[|rows| - 1]);
    Regroup(front + line, "\n", rest);
    Regroup(front, line, "\n" + rest);
    Regroup(line, "\n", rest);
  }

  /** Proof helper: regrouping a concatenation of three sequences. */
  lemma Regroup<T>(a: seq<T>, b: seq<T>, c: seq<T>)
    ensures a + (b + c) == (a + b) + c
  {
  }

  /** Read back line by line, the rendered rows followed by more text give
      one line per row, in order, followed by the lines of that text. */
  lemma {:induction false} RowLinesOfRows(rows: seq<seq<string>>, rest: string)
    requires forall i :: 0 <= i < |rows| ==> OneLine(rows[i])
    ensures Split(RenderRows(rows) + rest, '\n') == RowLines(rows) + Split(rest, '\n')
    decreases |rows|
  {
    if rows == [] {
      assert RenderRows(rows) + rest == rest;
    } else {
      var n := |rows| - 1;
      var line := RenderCells(rows[n]);
      var more := line + "\n" + rest;
      RenderRowsLast(rows, rest);
      RowLinesOfRows(rows[..n], more);
      RenderCellsOneLine(rows[n]);
      SplitAfterField(line, '\n', rest);
      Regroup(RowLines(rows[..n]), [line], Split(rest, '\n'));
    }
  }

  /** Four lines, each ended by a line break, in front of more text. */
  lemma SplitFourLines(a: string, b: string, c: string, e: string, rest: string)
    requires '\n' !in a && '\n' !in b && '\n' !in c && '\n' !in e
    ensures Split(a + "\n" + (b + "\n" + (c + "\n" + (e + "\n" + rest))), '\n')
         == [a, b, c, e] + Split(rest, '\n')
  {
    var t3 := e + "\n" + rest;
    var t2 := c + "\n" + t3;
    var t1 := b + "\n" + t2;
    SplitAfterField(e, '\n', rest);
    SplitAfterField(c, '\n', t3);
    SplitAfterField(b, '\n', t2);
    SplitAfterField(a, '\n', t1);
    assert [a] + ([b] + ([c] + ([e] + Split(rest, '\n')))) == [a, b, c, e] + Split(rest, '\n');
  }

  /** A single line break reads back as one empty line. */
  lemma SplitBreak()
    ensures Split("\n", '\n') == [""]
  {
    assert [] + ['\n'] + [] == "\n";
    SplitAfterField([], '\n', []);
  }

  /** The rendered rows followed by one more line break read back as one
      line per row and a final empty line. */
  lemma RowLinesThenBreak(rows: seq<seq<string>>)
    requires forall i :: 0 <= i < |rows| ==> OneLine(rows[i])
    ensures Split(RenderRows(rows) + "\n", '\n') == RowLines(rows) + [""]
  {
    SplitBreak();
    RowLinesOfRows(rows, "\n");
  }

  /** Proof helper: the table as five lines in front of the rendered rows,
      the first of them empty. */
  lemma RenderShape(headers: seq<string>, data: seq<seq<string>>)
    requires data != []
    ensures Render(headers, data) ==
      [] + "\n" + (TitleLine + "\n" + (RenderCells(headers) + "\n" +
        (Repeat(|headers| * Width, '-') + "\n" + (RenderRows(data) + "\n"))))
  {
    assert [] + "\n" == "\n";
  }

  /** Proof helper: the title is a single line. */
  lemma TitleOneLine()
    ensures '\n' !in TitleLine
  {
  }

  /** The output of `printTable`, read back line by line: with no data only
      the notice; otherwise an empty line, the title, the header line, a rule
      of exactly `Width` dashes per header, one line per data row in order,
      and a final empty line. */
  lemma RenderLines(headers: seq<string>, data: seq<seq<string>>)
    requires OneLine(headers)
    requires forall i :: 0 <= i < |data| ==> OneLine(data[i])
    ensures data == [] ==> Render(headers, data) == NoDataNotice
    ensures data != [] ==>
      Split(Render(headers, data), '\n') ==
        ["", TitleLine, RenderCells(headers), Repeat(|headers| * Width, '-')]
        + RowLines(data) + [""]
  {
    if data != [] {
      var head := RenderCells(headers);
      var rule := Repeat(|headers| * Width, '-');
      RenderShape(headers, data);
      TitleOneLine();
      RenderCellsOneLine(headers);
      SplitFourLines([], TitleLine, head, rule, RenderRows(data) + "\n");
      RowLinesThenBreak(data);
      Regroup(["", TitleLine, head, rule], RowLines(data), [""]);
    }
  }
}
