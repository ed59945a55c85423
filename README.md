# CSVReader, modelled and verified in Dafny

This project models the `CSVReader` class of `main.cpp`, a small C++ program that:

- loads a comma-separated file into a header row and data rows;
- prints the rows as a fixed-width table;
- finds the "Price" and "UnitsSold" columns before estimating revenue.

It has three modules:

- `Delimited` (`delimited.dfy`): text split at a delimiter character with the semantics of repeated `std::getline(stream, field, delim)` calls.
  - `Split` gives the fields the whole loop collects.
  - `Getline` is one call, scanning from a read position.
  - The same split turns a file into lines (delimiter `'\n'`, main.cpp:93) and a line into cells (delimiter `','`, main.cpp:33).
  - Lemmas cover the `std::getline` edge cases:
    - an empty text has no field;
    - inner empty fields are kept;
    - a final delimiter starts no further field.
  - They also cover the round trip through joining or line-by-line writing, and the number of fields.
- `Layout` (`layout.dfy`): the text `printTable` writes.
  - Cells are left-aligned in `std::setw(15)` fields and never truncated.
  - A rule of `15 * headers.size()` dashes follows the header line.
  - When there is no data, a notice is written instead.
  - Lemmas read the text back line by line and show that the columns line up.
- `Csv` (`csv_reader.dfy`): the class itself, `Csv.CsvReader`, with the fields `headers` and `data`.
  - `ParseRow` and `Load` are loops over `Getline`, as in the source.
  - `PrintTable` is the nested `for` loops, building the text that `Layout.Render` specifies.
  - `RevenueColumns` is the guard and the `std::find` lookups at the start of `calculateTotalRevenue`.
  - `Rows` specifies what loading collects from a file's lines. Its lemmas cover:
    - one row per non-empty line, in order;
    - empty lines ignored;
    - cells free of commas and line breaks.

The model follows what the code does:

- `load` does not clear `data` before reading. `data.push_back` (main.cpp:105) appends, so a second load adds its rows after those of the first, and `Load` ensures `data == old(data) + rows[1..]`.
- `headers` is replaced only when the file has a non-empty line; a file of empty lines keeps the old header (main.cpp:99-102).
- A row too short for the Price or UnitsSold index is read with unchecked `operator[]` (main.cpp:171, 173), which is undefined behaviour; the model claims nothing about such rows.

## Model

| member | source | states |
|---|---|---|
| Delimited.Split | main.cpp:33-35 | A text yields no field exactly when it is empty |
| Delimited.SplitWhole | main.cpp:33-35 | A non-empty text without the delimiter is a single field |
| Delimited.SplitAfterField | main.cpp:33-35 | A delimiter-free field followed by the delimiter and more text splits into that field, then the fields of the rest |
| Delimited.SplitFieldsFree | main.cpp:27-36 | Every character of every field comes from the text and is not the delimiter, so no cell holds a comma |
| Delimited.SplitNoDelimiter | main.cpp:27-36 | No field holds the delimiter |
| Delimited.Getline | main.cpp:33 | One `std::getline` call: it fails exactly at the end of the stream; otherwise it returns a delimiter-free field, advances past it and its delimiter, and the fields still to come are those of the rest of the stream |
| Delimited.TerminatedSplitCons | main.cpp:93 | Writing out the lines of a text with one more leading character writes that character first |
| Delimited.TerminatedSplit | main.cpp:93 | Writing the fields of any text back, each followed by the delimiter, gives the text, plus a final delimiter when it lacked one |
| Delimited.SplitTerminated | main.cpp:53-62 | Fields without the delimiter, each written out followed by it (as the sample file is written line by line), split back into exactly those fields |
| Delimited.JoinTerminated | main.cpp:27-36 | Joining fields with the delimiter and adding one more writes each field followed by the delimiter |
| Delimited.SplitRoundTrip | main.cpp:27-36 | For a non-empty line not ending in a comma, joining its cells with commas gives the line back |
| Delimited.SplitIgnoresFinalDelimiter | main.cpp:33-35 | A delimiter at the very end of a non-empty text changes no field |
| Delimited.SplitCount | main.cpp:27-36 | A non-empty line has one cell more than it has commas, or exactly as many when it ends in a comma |
| Delimited.SplitEmptyThenField | main.cpp:33-35 | A leading delimiter gives an empty first field |
| Delimited.SplitKeepsInnerEmpty | main.cpp:33-35 | `a,b,,c` gives the four cells `a`, `b`, empty and `c` |
| Delimited.SplitDropsTrailingEmpty | main.cpp:33-35 | `a,b,` gives the two cells `a` and `b`; a lone comma gives one empty cell |
| Layout.RenderCells | main.cpp:127-137 | The padded cells of one line, in order; at least 15 characters per cell |
| Layout.RenderRows | main.cpp:134-139 | One line of padded cells and a line break per row, in order; empty exactly when there are no rows |
| Layout.Render | main.cpp:117-141 | Everything `printTable` writes: the notice exactly when there is no data, otherwise the title, header line, rule, row lines and a final line break |
| Layout.Repeat | main.cpp:131 | The rule has exactly the given number of characters, all of them dashes |
| Layout.Pad | main.cpp:128 | A padded cell is as long as the cell or 15, whichever is more; it starts with the cell unchanged and the rest is spaces |
| Layout.RenderCellsLength | main.cpp:127-129 | A line is at least 15 characters per cell, exactly that when no cell is wider |
| Layout.RenderCellsAppend | main.cpp:135-137 | The cells of two pieces of a row are written one after the other |
| Layout.RenderCellsColumn | main.cpp:134-139 | With no cell wider than 15, cell `k` occupies characters `15k` up to `15(k+1)`, padded |
| Layout.RenderCellsOneLine | main.cpp:135-138 | A rendered row holds no line break when none of its cells does |
| Layout.RenderRowsNext | main.cpp:134-139 | Printing one more row appends its cells and a line break |
| Layout.RowLinesOfRows | main.cpp:134-139 | Read back line by line, the printed rows give one line per row, in order |
| Layout.RowLinesThenBreak | main.cpp:134-140 | The printed rows and the final line break read back as the row lines and one empty line |
| Layout.RenderLines | main.cpp:117-141 | With no data only the notice is written; otherwise the lines are an empty line, the title, the header line, the rule, one line per row in order and a final empty line |
| Csv.Find | main.cpp:156-165 | `std::find`: the index of the first header equal to the name, or the number of headers exactly when the name is absent |
| Csv.Rows | main.cpp:93-106 | The rows `load` collects from a file's lines: each non-empty line split at commas, in order; never more rows than lines, and no row empty |
| Csv.RowsNonBlank | main.cpp:93-106 | Loading collects one row per non-empty line, in order: row `i` is the `i`-th non-empty line split at commas |
| Csv.RowsAppend | main.cpp:93-106 | Loading lines in two parts collects the rows of both, in order |
| Csv.RowsSkipBlank | main.cpp:94 | An empty line anywhere changes nothing |
| Csv.RowsNoBlank | main.cpp:97-106 | Without empty lines there is exactly one row per line |
| Csv.RowsNone | main.cpp:93-106 | No row is collected exactly when every line is empty |
| Csv.RowsClean | main.cpp:27-37 | No loaded cell holds a comma or a line break |
| Csv.RowsCleanLines | main.cpp:93-97 | Cells of lines without line breaks hold neither a comma nor a line break |
| Csv.SplitClean | main.cpp:97 | The cells of one line hold neither a comma nor a line break |
| Csv.RowsLast | main.cpp:93-106 | Reading one more line adds its row unless it is empty |
| Csv.ReadWrittenLines | main.cpp:53-62 | Non-empty lines written out each ended by a line break load as one row per line, in order |
| Csv.CsvReader.constructor | main.cpp:16-20 | A new reader has no header and no data |
| Csv.CsvReader.ParseRow | main.cpp:27-37 | The cells collected by the `getline` loop are exactly `Split(line, ',')` |
| Csv.CsvReader.Load | main.cpp:79-112 | Returns whether the file opened; if it did not, nothing changes; otherwise the first non-empty line's cells become the header (kept when there is none) and the later rows are appended to the old data |
| Csv.CsvReader.PrintTable | main.cpp:117-141 | The text written is exactly `Render(headers, data)` |
| Csv.CsvReader.RevenueColumns | main.cpp:147-165 | No data, or a missing "Price" or "UnitsSold" header, gives those outcomes exactly; otherwise the first index of each name |

## Left out

- `createMockFile` and `file_exists_modern` (main.cpp:42-71) check for and write a file, which is I/O. They decide both whether the file opens and what it holds (the five lines at main.cpp:56-62 when it is created); these become `Load`'s parameters `isOpen` and `text`. `SplitTerminated` and `ReadWrittenLines` state what reading back line-by-line written text gives.
- Opening and reading the `std::ifstream` (main.cpp:83, 93, 109): the file is the parameter `text`, read with `Getline` at `'\n'`. A read error in the middle of the file is not modelled.
- `std::stod`, `std::stoi`, the `double` running total and its two-decimal formatting (main.cpp:167-182) are floating-point arithmetic and library parsing. The revenue estimate itself is therefore not computed; `RevenueColumns` stops at the column lookup.
- Row accesses `row[price_idx]` and `row[units_idx]` (main.cpp:171, 173) are unchecked, so a short row is undefined behaviour in the source. Nothing is claimed about it.
- The text of the `std::cout` and `std::cerr` diagnostics (main.cpp:64-69, 85, 110, 149, 160, 177) is console output. The outcomes they report are the results of `Load` and `RevenueColumns`.
- `printTable` writes to `std::cout`; `PrintTable` returns the same text. The title is written as `"\n--- Loaded Data Table ---\n"`, modelled as an empty line followed by `TitleLine`.
- `main` and `MOCK_FILENAME` (main.cpp:11, 187-200) only sequence the calls.
- Character encoding: strings are sequences of characters with no encoding, and `'\r'` is an ordinary character.
