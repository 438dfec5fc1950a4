# sdf-csv-join, modelled in Dafny

`sdf-csv-join.py` looks up molecules. It reads a "haystack" file and one or
more "needle" files. Each file is an SDF property listing or a CSV table.
It keeps the haystack molecules whose IDs occur in some needle file,
projects each one onto a list of property columns, and prints the rows as
an aligned table sorted by their property values.

This project models the logic of that tool and proves what it does:

- `text.dfy` (module `Text`): the Python 2 string operations the tool relies on.
  These are `rstrip()`, `split()`, `replace(',', ' ')` and `int(s, 10)`,
  plus a decimal writer used to state round trips.
- `sdf_header.dfy` (`SdfHeader`): the header pattern `SDF_HEADER_RE`.
  It is written as a grammar (`HeaderForm`) together with the lazy search
  the regular-expression engine performs (`ParseHeader`).
- `sdf.dfy` (`Sdf`): `parse_sdf` over a list of lines.
  - The loop is the method `ParseSdf`, proved against the specification
    function `Accumulate`.
  - `Accumulate` is proved equal to two stages: `Tokenize` picks out
    (header, value) records, and `Fold` files them into per-molecule
    buckets.
  - Each stage gets its own characterisation lemmas.
- `row_type.dfy` (`RowType`): `create_row_type`, the ordered column list.
- `order.dfy` (`Order`): the CPython 2 comparison of sort keys. Integers
  come before strings, strings compare by character code, and lists compare
  lexicographically. It is proved to be a strict total order.
- `sorting.dfy` (`Sorting`): `sorted` as an insertion sort over a total
  preorder. It is proved to return a sorted permutation.
- `join.dfy` (`Join`): `join_results` and its `sort_key`.
- `csv_rows.dfy` (`CsvRows`): the keying loop of `read_csv`.
- `table.dfy` (`Table`): `print_table`, meaning its column widths, its
  right-aligned cells and the `TOTAL` line.
- `pipeline.dfy` (`Pipeline`): `read_input_file`, and `main` from reading
  the files through the needle union to the join.
- `outcomes.dfy` (`Outcomes`): `Option` and `Result`.

Errors the source raises become `Failure` values:
- `StopIteration` from a header on the last line;
- "Conflicting property name";
- "ID mismatch";
- `KeyError` for a CSV row without the ID column.

## Model

| member | source | states |
|---|---|---|
| Text.RStrip | sdf-csv-join.py:39 | `rstrip()` removes exactly a trailing run of whitespace: the result is a prefix, what was cut is all whitespace, and the result does not end in whitespace |
| Text.RStripIdempotent | sdf-csv-join.py:39 | stripping twice is stripping once, and extra trailing whitespace does not change the result |
| Text.LStrip | sdf-csv-join.py:136 | the leading-whitespace skip inside `split()` here and inside `int()` at line 92 removes exactly a leading run of whitespace |
| Text.Split | sdf-csv-join.py:136 | `split()` yields only non-empty words without whitespace |
| Text.SplitKeepsNonSpace | sdf-csv-join.py:136 | the words of `split()`, concatenated, are the string's non-whitespace characters in order: nothing is lost, reordered or added |
| Text.SplitJoinWords | sdf-csv-join.py:136 | splitting words joined by blanks gives back exactly those words |
| Text.SplitWordThen | sdf-csv-join.py:136 | a word followed by whitespace (or by nothing) is the first word of the split |
| Text.SplitAfterSpace | sdf-csv-join.py:136 | leading whitespace does not change the split |
| Text.CommasToSpaces | sdf-csv-join.py:136 | `replace(',', ' ')` changes commas into blanks and nothing else |
| Text.ParseInt | sdf-csv-join.py:92-94 | definition of `int(s, base=10)` (with `Signed` and `Unsigned`): optional whitespace, an optional sign, optional whitespace, at least one digit, optional whitespace; `None` stands for `ValueError` |
| Text.ParseIntAccepts | sdf-csv-join.py:92 | every string of the accepted shape reads as its digits' value, negated after `-`: leading zeros, `+` and whitespace after the sign included |
| Text.ParseIntDecimal | sdf-csv-join.py:92 | `int(s, 10)` reads back the decimal spelling of every integer, whatever whitespace surrounds it |
| Text.ParseIntNegative | sdf-csv-join.py:92 | `int` reads a minus sign followed by digits as the negative number |
| Text.ParseIntNonNegative | sdf-csv-join.py:92 | `int` reads a digit string as its value |
| Text.ParseIntShape | sdf-csv-join.py:92 | the converse of `Text.ParseIntAccepts`: every string `int` accepts is whitespace, an optional `+` or `-`, whitespace, digits and whitespace, and reads as the digits' value, negated after `-`; so cells such as "1.5", "0x1F", "1e3", "12 34" or "+-3" stay strings in the key |
| Text.ParseIntHasDigit | sdf-csv-join.py:92-94 | `int` rejects every string without a decimal digit, so those cells stay strings in the key |
| Text.UnsignedHasDigit | sdf-csv-join.py:92 | the unsigned part `int` accepts holds a digit |
| Text.NatToDecimalValue | sdf-csv-join.py:131 | the decimal spelling of a count has that count as its value |
| SdfHeader.HeaderForm | sdf-csv-join.py:22 | definition of the grammar of `SDF_HEADER_RE`: `>`, whitespace, `<`, the property name, `>`, then whitespace or a parenthesised ID and whitespace |
| SdfHeader.FindClose | sdf-csv-join.py:22 | the lazy `(.*?)\)\s*$` finds a molecule ID iff one closes the text; the ID it returns closes the text (that no other ID does is `SdfHeader.ClosesUnique`) |
| SdfHeader.ClosesUnique | sdf-csv-join.py:22 | at most one molecule ID closes a given text |
| SdfHeader.FindTail | sdf-csv-join.py:22 | the text after `>` is whitespace, or a parenthesised ID, exactly when the search says so; the ID is unique |
| SdfHeader.FindProp | sdf-csv-join.py:22 | the lazy `(.*?)>` finds the shortest property name for which the line fits; None iff no name fits |
| SdfHeader.ParseHeader | sdf-csv-join.py:22 | `SDF_HEADER_RE.match`: a match satisfies the grammar with the shortest property name and its unique ID; None iff no groups fit the grammar |
| SdfHeader.RenderedForm | sdf-csv-join.py:22 | a header written from a name without `>` and an ID without `)` fits the grammar with that name and ID |
| SdfHeader.RenderedShortest | sdf-csv-join.py:22 | no shorter property name fits such a header, so the lazy group cannot stop early |
| SdfHeader.ParseRenderHeader | sdf-csv-join.py:22 | matching `> <PROP> (ID)` written from a name without `>` and an ID without `)` gives back that name and ID |
| Sdf.BucketOf | sdf-csv-join.py:37 | a header files under the null bucket iff it has no ID or an empty one, and under its own ID otherwise |
| Sdf.Accumulate | sdf-csv-join.py:25-44 | definition of the `for line in it` loop: header lines take the next line as value and file it under their bucket; it fails on a repeated slot or a header on the last line |
| Sdf.Tokenize | sdf-csv-join.py:31-39 | definition of the reading stage alone: the (header, value) records of the lines, and whether the last header has no value line |
| Sdf.Fold | sdf-csv-join.py:41-44 | definition of the filing stage alone: records into buckets, failing on the first repeated slot |
| Sdf.ParseSdf | sdf-csv-join.py:25-52 | the loop computes `Accumulate`; it succeeds iff accumulation succeeds and every bucket's ID property equals its key; an ID mismatch names a bucket whose ID differs |
| Sdf.TokenizeSkipsOtherLines | sdf-csv-join.py:32-34 | lines that do not match the header pattern are skipped |
| Sdf.TokenizeHeader | sdf-csv-join.py:31-39 | a header line consumes the next line as its value, right-stripped |
| Sdf.HeaderOnLastLine | sdf-csv-join.py:39 | a header on the last line leaves `next(it)` without input |
| Sdf.TokenizeAppend | sdf-csv-join.py:31-39 | reading two pieces of a file one after the other gives the records of the whole |
| Sdf.TokenizeSound | sdf-csv-join.py:31-39 | every record read is a header line of the input followed by its stripped next line |
| Sdf.TokenizeRenderRecords | sdf-csv-join.py:31-39 | reading the lines written from any list of records gives back exactly those records |
| Sdf.TakenFile | sdf-csv-join.py:41-44 | filing a value occupies exactly its (bucket, property) slot |
| Sdf.FoldSucceedsIff | sdf-csv-join.py:41-44 | filing never raises "Conflicting property name" iff no (bucket, property) slot occurs twice |
| Sdf.FoldFailureNamesRepeat | sdf-csv-join.py:42-43 | the conflict error names a property whose slot was already taken |
| Sdf.FoldContents | sdf-csv-join.py:41-44 | after filing, the buckets are exactly those created, every record's value sits in its slot, and nothing else is there |
| Sdf.FoldKeys | sdf-csv-join.py:41 | the result's keys are the buckets that records were filed under |
| Sdf.FoldKeeps | sdf-csv-join.py:44 | filing never changes a value already filed |
| Sdf.FoldFiles | sdf-csv-join.py:44 | every record's value is in its slot |
| Sdf.FoldBringsNothingElse | sdf-csv-join.py:41-44 | no slot is filled except by a record |
| Sdf.AccumulateIsTwoStages | sdf-csv-join.py:31-44 | the interleaved loop equals reading all records first and then filing them, including which error comes first |
| Sdf.ParseOutcome | sdf-csv-join.py:39-44 | success iff the slots are distinct and no header is left dangling; `StopIteration` iff the slots are distinct and the last header is dangling; a conflict iff some slot repeats |
| Sdf.ParsedBuckets | sdf-csv-join.py:36-44 | on success, the bucket keys are exactly the records' buckets, and each bucket holds exactly the values of its records |
| RowType.PropNames | sdf-csv-join.py:135-136 | definition: a string spec is split at commas and whitespace, a list is taken as it is |
| RowType.Without | sdf-csv-join.py:140 | the filter drops every occurrence of the ID and keeps every other name, in order and with its multiplicity |
| RowType.CreateRowType | sdf-csv-join.py:134-145 | the columns start with the ID; the ID does not occur again; the rest are the requested names minus the ID, in their order; without an ID the names are unchanged |
| RowType.IdOnceAndNamesKept | sdf-csv-join.py:139-140 | the ID column occurs exactly once, and every requested name is a column |
| RowType.NamesAreClean | sdf-csv-join.py:135-136 | every name from a string spec is non-empty and holds no whitespace or comma |
| RowType.SplitAvoids | sdf-csv-join.py:136 | a character absent from a string occurs in none of its words |
| RowType.CommasBecomeBlanks | sdf-csv-join.py:136 | a comma-separated list becomes the blank-separated one |
| RowType.PropNamesRoundTrip | sdf-csv-join.py:135-136 | clean names written with commas or with blanks read back as exactly that list |
| Order.StrLess | sdf-csv-join.py:101 | definition of CPython 2 string comparison: by character code, a proper prefix first |
| Order.CellLess | sdf-csv-join.py:101 | definition of comparing two key cells: integers by value, every integer before every string, strings by `StrLess` |
| Order.KeyLess | sdf-csv-join.py:101 | definition of list comparison: the first unequal cells decide, a proper prefix first |
| Order.StrLessIrreflexive | sdf-csv-join.py:101 | no string sorts before itself |
| Order.StrLessTransitive | sdf-csv-join.py:101 | string order is transitive |
| Order.StrLessTotal | sdf-csv-join.py:101 | any two strings are equal or ordered |
| Order.PrefixFirst | sdf-csv-join.py:101 | a proper prefix sorts first |
| Order.CellLessIrreflexive | sdf-csv-join.py:101 | no key cell sorts before itself |
| Order.CellLessTransitive | sdf-csv-join.py:101 | cell order (integers by value, before all strings) is transitive |
| Order.CellLessTotal | sdf-csv-join.py:101 | any two cells are equal or ordered |
| Order.KeyLessIrreflexive | sdf-csv-join.py:101 | no key sorts before itself |
| Order.KeyLessTransitive | sdf-csv-join.py:101 | the lexicographic key order is transitive |
| Order.KeyLessTotal | sdf-csv-join.py:101 | any two keys are equal or ordered |
| Order.KeyLessAsymmetric | sdf-csv-join.py:101 | never both a < b and b < a |
| Order.KeyLeTransitive | sdf-csv-join.py:101 | "not after" chains |
| Sorting.Insert | sdf-csv-join.py:101 | inserting into a sorted list keeps it sorted and adds exactly that element |
| Sorting.Sort | sdf-csv-join.py:101 | `sorted` returns a permutation of its input in order |
| Join.ParseCell | sdf-csv-join.py:91-95 | definition: a cell becomes its integer where `int` accepts it and stays a string otherwise |
| Join.KeyOf | sdf-csv-join.py:86-99 | definition of `sort_key`: the non-ID cells through `ParseCell`, then the raw ID cell |
| Join.SortKey | sdf-csv-join.py:86-99 | the `sort_key` loop yields the key of the row: the non-ID cells read as integers where `int` accepts them, then the raw ID cell |
| Join.NumbersSortByValue | sdf-csv-join.py:90-97 | a smaller integer in the first property column sorts first, whatever follows |
| Join.NumbersBeforeText | sdf-csv-join.py:90-95 | a numeric first property sorts before a non-numeric one, an empty one included |
| Join.TwoBeforeTen | sdf-csv-join.py:90-97 | the cells "2" and "10" sort as 2 before 10, although the text "10" precedes "2" |
| Join.ReadsAsNumber | sdf-csv-join.py:92 | a decimal spelling parses to its number |
| Join.IdBreaksTies | sdf-csv-join.py:96-97 | rows with equal property cells are ordered by their ID cells, as strings |
| Join.CommonPrefix | sdf-csv-join.py:101 | equal leading cells do not affect the key order |
| Join.NotAfterIsTotalPreorder | sdf-csv-join.py:101 | comparing rows by key is a total preorder, so `sorted` is well defined on them |
| Join.SortEntries | sdf-csv-join.py:101 | the sorted items are a permutation of the items, in key order |
| Join.RearrangedDistinct | sdf-csv-join.py:101 | reordering items cannot make a molecule appear twice |
| Join.SameMols | sdf-csv-join.py:101 | reordering items keeps the set of molecules |
| Join.Project | sdf-csv-join.py:83-84 | a row has one cell per column, the property's value or '' |
| Join.Collect | sdf-csv-join.py:74-84 | the loop over the needle keeps exactly the molecules in both needle and haystack, each with its projected row |
| Join.Items | sdf-csv-join.py:101 | `iteritems()` yields every entry of the dictionary once |
| Join.JoinResults | sdf-csv-join.py:73-101 | the rows are for exactly the needle molecules in the haystack, each once; each row is the projection of its haystack properties; the rows are sorted by `sort_key`, strictly ascending when no two haystack molecules share a key |
| Join.StrictlySorted | sdf-csv-join.py:101 | when no two molecules share a key, a table sorted by key has strictly ascending keys |
| Join.AscendingUnique | sdf-csv-join.py:100-101 | two strictly ascending lists of the same entries are equal, so the sorted order does not depend on the order `iteritems()` yields |
| Join.AscendingHeads | sdf-csv-join.py:101 | two strictly ascending lists of the same entries start with the same entry |
| CsvRows.KeyedBy | sdf-csv-join.py:66-68 | definition of the keying loop's result: each row filed under its ID cell, later rows replacing earlier ones |
| CsvRows.KeyRows | sdf-csv-join.py:66-68 | the loop files every row under its ID, later rows replacing earlier ones; it stops with `KeyError` at the first row without the ID column |
| CsvRows.KeyedByKeys | sdf-csv-join.py:66-68 | the keys are exactly the IDs that occur |
| CsvRows.KeyedByOwnId | sdf-csv-join.py:67-68 | every kept row is an input row filed under its own ID |
| CsvRows.LastRowWins | sdf-csv-join.py:68 | the last row carrying an ID is the one kept |
| Table.MaxLen | sdf-csv-join.py:124 | `max(len(x) for x in col)` bounds every cell and is attained by one |
| Table.ColumnWidths | sdf-csv-join.py:124 | each width holds the header and every cell of its column, and equals the length of one of them |
| Table.PadLeft | sdf-csv-join.py:126 | `'{:>{}}'.format` ends with the cell, pads with blanks only, and is as wide as the field or the cell |
| Table.FormatRow | sdf-csv-join.py:126-129 | definition of `'  '.join('{:>{}}'.format(r, w) ...)`: the padded cells with two blanks between them |
| Table.RowLength | sdf-csv-join.py:126-129 | a line whose cells fit is exactly as long as the widths and separators |
| Table.CellPlacement | sdf-csv-join.py:126 | in every line whose cells fit, cell c sits right-aligned in a field that ends at the same position: the cell ends there and only blanks precede it in the field |
| Table.LineShows | sdf-csv-join.py:126-129 | the first printed line shows the header and line i + 1 shows row i, in table order |
| Table.GapAfter | sdf-csv-join.py:126-129 | in a line whose cells fit, every field but the last is followed by two blanks |
| Table.AlignedWith | sdf-csv-join.py:126-129 | for any widths the shown cells fit in, each printed line has the same length, each column's cell right-aligned in its field, and two blanks after every field but the last |
| Table.TableAligned | sdf-csv-join.py:124-129 | header and rows are printed equally long, each column's cells right-aligned at one position, fields separated by two blanks |
| Table.PrintTable | sdf-csv-join.py:120-131 | the table prints one line per row between the header and a blank line, then the `TOTAL` line |
| Table.Lines | sdf-csv-join.py:126-131 | definition of the printed lines for given widths: the header, one line per row, a blank line, the `TOTAL` line |
| Table.TotalReadsBack | sdf-csv-join.py:131 | the `TOTAL` line reads back as the number of rows |
| Pipeline.Lift | sdf-csv-join.py:154 | CSV IDs become dictionary keys one for one |
| Sdf.NoEmptyId | sdf-csv-join.py:37 | no parsed SDF file has a molecule keyed by the empty ID |
| Pipeline.Read | sdf-csv-join.py:148-163 | definition: the molecules `read_input_file` returns for a file, `None` where it raises; the SDF case needs the lines to parse and every bucket's ID property to equal its header ID, the CSV case needs every row to hold the ID property |
| Pipeline.ReadInputFile | sdf-csv-join.py:148-163 | succeeds iff `Pipeline.Read` gives the file's molecules, and then returns exactly them; an SDF file goes through `parse_sdf` and a CSV file through the keying loop; either way every molecule is named by its own ID property; an SDF result has no empty-ID key and a CSV result no null bucket; an SDF file fails with an SDF error (the parse error itself when the lines do not parse), a CSV file with the index of the first row that lacks the ID |
| Pipeline.PooledFromFiles | sdf-csv-join.py:198-200 | the union `main` builds from the needle files it read is the set of molecules those files hold (`Pipeline.Pooled`) |
| Pipeline.NeedleUnion | sdf-csv-join.py:198-200 | a molecule is a needle iff some needle file holds it |
| Pipeline.IdCellNamesMolecule | sdf-csv-join.py:194-202 | with the ID as first column, every joined row shows its molecule's ID first ('' for the null bucket) |
| Pipeline.IdCellLast | sdf-csv-join.py:96-97 | the last cell of a sort key is the row's ID cell, as a string |
| Pipeline.HaystackKeysDistinct | sdf-csv-join.py:86-101 | with the ID as first column, two different molecules of a file `read_input_file` returns never share a sort key |
| Pipeline.Lookup | sdf-csv-join.py:194-202 | `main` up to the join: the columns are the row type's; it succeeds iff the haystack and every needle file can be read (`Pipeline.Read`); then its molecules are exactly the haystack's molecules that some needle file holds, each row is the haystack molecule's properties projected onto the columns and names its molecule in the first column, no molecule comes twice, and the rows are in strictly ascending key order |

## Left out

- File opening and reading: the model takes the lines of an SDF file or the rows of a CSV file as values.
- Output to stdout and stderr: `outerr` messages, `print` and its trailing newlines. `print_table` is modelled as the list of lines it prints.
- The `argparse` wiring of `main`, and the choice of CSV or SDF by file extension in `read_input_file`. `Pipeline.Input` says which kind a file is.
- `csv.Sniffer` and `csv.DictReader` dialect detection, and the re-read with the given column names when the ID column is missing from the header (sdf-csv-join.py:60-65). Rows are given as dictionaries.
- The `None` that `DictReader` puts in the cells of a short row: cells are always strings in this model.
- `write_csv` and `write_lst`, with the `*e*` preamble of LST output (sdf-csv-join.py:104-117).
- `include_none=True` in `join_results`. `main` never passes it, and a `None` row would make `sort_key` fail on `row[1:]`.
- Join.JoinResults: builds each row positionally and does not model `namedtuple(..., rename=True)`. With a column name that is not a valid distinct Python identifier, the source's keyword construction `row_type(**...)` raises `TypeError` as soon as one molecule is found. The model returns the row instead.
- RowType.CreateRowType: returns the column list. The `namedtuple` class built around it and its `_prop_names` attribute are not modelled. `map(str, ...)` is the identity on strings.
- The regular-expression engine: `SDF_HEADER_RE` is replaced by a grammar and an explicit search, proved to agree with each other.
- Dictionary iteration order: the loops that walk a `set` or a `dict` pick their next element arbitrarily. Only the error can depend on it: when several molecules of an SDF file carry an ID other than their header's, the check at sdf-csv-join.py:47-50 reports whichever of them the dictionary yields first, so `Sdf.ParseSdf` promises only that the bucket it names is one of them and `Pipeline.Read` leaves the error out. The table does not depend on it: for a haystack as `read_input_file` returns it no two molecules share a sort key (`Pipeline.HaystackKeysDistinct`), and a strictly ascending order is unique (`Join.AscendingUnique`).
- `main`'s choice of the output writer and the printing of the table are outside `Pipeline.Lookup`; `Table.PrintTable` gives the printed lines.
