/** The `CSVReader` class: it loads a comma-separated file into a header row
    and data rows, lays them out as a table, and finds the columns that the
    revenue analysis needs. */
module Csv {
  import opened Delimited
  import opened Layout

  /** The cell delimiter of a row. */
  const Comma: char := ','

  /** The line delimiter of a file. */
  const Newline: char := '\n'

  /** Column names the revenue analysis looks for. */
  const PriceColumn: string := "Price"
  const UnitsColumn: string := "UnitsSold"

  /** Index of the first name equal to `name`, or `|names|` when there is
      none, as `std::distance(begin, std::find(begin, end, name))` gives it. */
  function Find(names: seq<string>, name: string): (i: nat)
    ensures i <= |names|
    ensures i < |names| ==> names[i] == name
    ensures forall j :: 0 <= j < i ==> names[j] != name
    ensures i == |names| <==> name !in names
  {
    if names == [] then 0
    else if names[0] == name then 0
    else 1 + Find(names[1..], name)
  }

  /** The rows that loading collects from the given lines, in order: each
      non-empty line split at commas; empty lines give nothing. */
  function Rows(lines: seq<string>): (r: seq<seq<string>>)
    ensures |r| <= |lines|
    ensures forall i :: 0 <= i < |r| ==> r[i] != []
  {
    if lines == [] then []
    else
      var n := |lines| - 1;
      Rows(lines[..n]) + (if lines[n] == [] then [] else [Split(lines[n], Comma)])
  }

  /** The non-empty lines, in order. */
  function NonBlank(lines: seq<string>): (r: seq<string>)
    ensures forall i :: 0 <= i < |r| ==> r[i] != []
    ensures |r| <= |lines|
  {
    if lines == [] then []
    else
      var n := |lines| - 1;
      NonBlank(lines[..n]) + (if lines[n] == [] then [] else [lines[n]])
  }

  /** One row per non-empty line, in the order of the lines: row `i` is the
      `i`-th non-empty line split at commas. */
  lemma {:induction false} RowsNonBlank(lines: seq<string>)
    ensures |Rows(lines)| == |NonBlank(lines)|
    ensures forall i :: 0 <= i < |Rows(lines)| ==> Rows(lines)[i] == Split(NonBlank(lines)[i], Comma)
    decreases |lines|
  {
    if lines != [] {
      RowsNonBlank(lines[..|lines| - 1]);
    }
  }

  /** Loading lines in two parts collects the rows of both, in order. */
  lemma {:induction false} RowsAppend(a: seq<string>, b: seq<string>)
    ensures Rows(a + b) == Rows(a) + Rows(b)
    decreases |b|
  {
    if b == [] {
      assert a + b == a;
    } else {
      var m := |b| - 1;
      assert (a + b)[..|a + b| - 1] == a + b[..m];
      RowsAppend(a, b[..m]);
    }
  }

  /** An empty line anywhere changes nothing. */
  lemma RowsSkipBlank(a: seq<string>, b: seq<string>)
    ensures Rows(a + [[]] + b) == Rows(a + b)
  {
    var blank: seq<string> := [[]];
    RowsAppend(a + blank, b);
    RowsAppend(a, blank);
    RowsAppend(a, b);
    assert blank[..0] == [];
  }

  /** Without empty lines there is exactly one row per line. */
  lemma {:induction false} RowsNoBlank(lines: seq<string>)
    requires forall i :: 0 <= i < |lines| ==> lines[i] != []
    ensures |Rows(lines)| == |lines|
    ensures forall i :: 0 <= i < |lines| ==> Rows(lines)[i] == Split(lines[i], Comma)
    decreases |lines|
  {
    if lines != [] {
      RowsNoBlank(lines[..|lines| - 1]);
    }
  }

  /** No rows at all exactly when every line is empty. */
  lemma {:induction false} RowsNone(lines: seq<string>)
    ensures Rows(lines) == [] <==> forall i :: 0 <= i < |lines| ==> lines[i] == []
    decreases |lines|
  {
    if lines != [] {
      RowsNone(lines[..|lines| - 1]);
    }
  }

  /** No cell holds a comma or a line break. */
  predicate CleanCells(cells: seq<string>)
  {
    forall k :: 0 <= k < |cells| ==> Comma !in cells[k] && Newline !in cells[k]
  }

  /** Cells read from a file never hold a comma, and never a line break. */
  lemma RowsClean(text: string)
    ensures forall i :: 0 <= i < |Rows(Split(text, Newline))| ==> CleanCells(Rows(Split(text, Newline))[i])
  {
    SplitNoDelimiter(text, Newline);
    RowsCleanLines(Split(text, Newline));
  }

  /** The cells of a line without line breaks hold neither a comma nor a
      line break. */
  lemma SplitClean(line: string)
    requires Newline !in line
    ensures CleanCells(Split(line, Comma))
  {
    SplitFieldsFree(line, Comma);
  }

  /** Cells of lines without line breaks hold neither a comma nor a line
      break. */
  lemma {:induction false} RowsCleanLines(lines: seq<string>)
    requires forall j :: 0 <= j < |lines| ==> Newline !in lines[j]
    ensures forall i :: 0 <= i < |Rows(lines)| ==> CleanCells(Rows(lines)[i])
    decreases |lines|
  {
    if lines != [] {
      var n := |lines| - 1;
      RowsCleanLines(lines[..n]);
      if lines[n] != [] {
        SplitClean(lines[n]);
      }
      var front := Rows(lines[..n]);
      assert Rows(lines) == front + (if lines[n] == [] then [] else [Split(lines[n], Comma)]);
      forall i | 0 <= i < |Rows(lines)|
        ensures CleanCells(Rows(lines)[i])
      {
        if i < |front| {
          assert Rows(lines)[i] == front[i];
        }
      }
    }
  }

  /** What the column lookup of the revenue analysis finds. */
  datatype Columns =
    | NoData
    | MissingColumn
    | Found(price: nat, units: nat)

  /** A reader holding the header row and the data rows of loaded files. */
  class CsvReader {
    var headers: seq<string>
    var data: seq<seq<string>>

    /** A reader with nothing loaded. */
    constructor()
      ensures headers == [] && data == []
    {
      headers := [];
      data := [];
    }

    /** `parseRow`: the cells of one line, collected by repeated
        `std::getline` calls with delimiter ','. */
    method ParseRow(line: string) returns (fields: seq<string>)
      ensures fields == Split(line, Comma)
    {
      fields := [];
      var pos := 0;
      while true
        invariant pos <= |line|
        invariant fields + Split(line[pos..], Comma) == Split(line, Comma)
        decreases |line| - pos
      {
        var ok, cell, next := Getline(line, pos, Comma);
        if !ok {
          break;
        }
        fields := fields + [cell];
        pos := next;
      }
      assert line[pos..] == [];
    }

    /** `load`: reads the lines of `text` one by one. `isOpen` says whether
        the file could be opened; when it could not, nothing changes and the
        result is false. Otherwise empty lines are skipped, the first
        non-empty line becomes the header row and every later one is appended
        to the data rows, which are not cleared first. */
    method Load(text: string, isOpen: bool) returns (ok: bool)
      modifies this
      ensures ok == isOpen
      ensures !isOpen ==> headers == old(headers) && data == old(data)
      ensures isOpen && Rows(Split(text, Newline)) == [] ==>
        headers == old(headers) && data == old(data)
      ensures isOpen && Rows(Split(text, Newline)) != [] ==>
        headers == Rows(Split(text, Newline))[0] &&
        data == old(data) + Rows(Split(text, Newline))[1..]
    {
      if !isOpen {
        return false;
      }
      var pos := 0;
      var isHeader := true;
      ghost var seen: seq<string> := [];
      while true
        invariant pos <= |text|
        invariant seen + Split(text[pos..], Newline) == Split(text, Newline)
        invariant isHeader <==> Rows(seen) == []
        invariant isHeader ==> headers == old(headers) && data == old(data)
        invariant !isHeader ==> headers == Rows(seen)[0] && data == old(data) + Rows(seen)[1..]
        decreases |text| - pos
      {
        var more, line, next := Getline(text, pos, Newline);
        if !more {
          break;
        }
        Regroup(seen, [line], Split(text[next..], Newline));
        pos := next;
        RowsLast(seen, line);
        seen := seen + [line];
        if line == [] {
          continue;
        }
        var fields := ParseRow(line);
        if isHeader {
          headers := fields;
          isHeader := false;
        } else {
          Regroup(old(data), Rows(seen)[1..|Rows(seen)| - 1], [fields]);
          data := data + [fields];
        }
      }
      assert text[pos..] == [];
      assert seen + [] == seen;
      return true;
    }

    /** `printTable`: the text it writes, built in the order it is written. */
    method PrintTable() returns (out: string)
      ensures out == Render(headers, data)
    {
      if data == [] {
        return NoDataNotice;
      }
      var head := "";
      for k := 0 to |headers|
        invariant head == RenderCells(headers[..k])
      {
        RenderCellsNext(headers, k);
        head := head + Pad(headers[k]);
      }
      assert headers[..|headers|] == headers;
      var body := "";
      for i := 0 to |data|
        invariant body == RenderRows(data[..i])
      {
        var row := data[i];
        var line := "";
        for j := 0 to |row|
          invariant line == RenderCells(row[..j])
        {
          RenderCellsNext(row, j);
          line := line + Pad(row[j]);
        }
        assert row[..|row|] == row;
        RenderRowsNext(data, i);
        body := body + line + "\n";
      }
      assert data[..|data|] == data;
      var rule := Repeat(|headers| * Width, '-');
      out := "\n" + (TitleLine + "\n" + (head + "\n" + (rule + "\n" + (body + "\n"))));
    }

    /** The guard and column lookup of `calculateTotalRevenue`: nothing is
        computed without data or when either column is missing; otherwise
        the first "Price" and the first "UnitsSold" header are used. */
    method RevenueColumns() returns (r: Columns)
      ensures r == NoData <==> data == []
      ensures r == MissingColumn <==>
        data != [] && (PriceColumn !in headers || UnitsColumn !in headers)
      ensures r.Found? ==>
        r.price < |headers| && headers[r.price] == PriceColumn &&
        (forall j :: 0 <= j < r.price ==> headers[j] != PriceColumn) &&
        r.units < |headers| && headers[r.units] == UnitsColumn &&
        (forall j :: 0 <= j < r.units ==> headers[j] != UnitsColumn)
    {
      if data == [] {
        return NoData;
      }
      var price := Find(headers, PriceColumn);
      var units := Find(headers, UnitsColumn);
      if price == |headers| || units == |headers| {
        return MissingColumn;
      }
      return Found(price, units);
    }
  }

  /** Reading one more line adds its row, if it is not empty. */
  lemma RowsLast(lines: seq<string>, line: string)
    ensures Rows(lines + [line]) == Rows(lines) + (if line == [] then [] else [Split(line, Comma)])
    ensures Rows(lines) == [] && line != [] ==> Rows(lines + [line]) == [Split(line, Comma)]
    ensures Rows(lines) != [] && line != [] ==>
      Rows(lines + [line])[1..] == Rows(lines)[1..] + [Split(line, Comma)] &&
      Rows(lines + [line])[1..|Rows(lines + [line])| - 1] == Rows(lines)[1..]
  {
    assert (lines + [line])[..|lines|] == lines;
  }

  /** Lines written out each ended by a line break, none of them empty, are
      loaded as one row per line, in order. */
  lemma ReadWrittenLines(lines: seq<string>)
    requires forall i :: 0 <= i < |lines| ==> lines[i] != [] && Newline !in lines[i]
    ensures |Rows(Split(Terminated(lines, Newline), Newline))| == |lines|
    ensures forall i :: 0 <= i < |lines| ==>
      Rows(Split(Terminated(lines, Newline), Newline))[i] == Split(lines[i], Comma)
  {
    SplitTerminated(lines, Newline);
    RowsNoBlank(lines);
  }
}
