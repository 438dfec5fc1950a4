/** The glue of `read_input_file` and `main` in sdf-csv-join.py: every input
    file becomes a dictionary from molecule ID to properties, the needle
    files' IDs are pooled into one set, and each row of the join shows its
    molecule's ID in the first column. */
module Pipeline {
  import opened Outcomes
  import Sdf
  import CsvRows
  import RowType
  import Order
  import Join

  /** Molecules by ID. An SDF file may also hold the null-bucket molecule,
      keyed `None`; a CSV file's IDs are all strings. */
  type Molecules = map<Option<string>, Props>

  /** An input file, already sorted by `read_input_file` into CSV or SDF by
      its extension, and already split into lines or CSV rows. */
  datatype Input = SdfLines(lines: seq<string>) | CsvTable(rows: seq<CsvRows.CsvRow>)

  datatype ReadError = SdfFailed(sdf: Sdf.SdfError) | CsvFailed(csv: CsvRows.CsvError)

  /** CSV IDs as dictionary keys alongside SDF ones. */
  function Lift(m: map<string, Props>): (ms: Molecules)
    ensures forall mol :: mol in ms <==> mol.Some? && mol.value in m
    ensures forall id :: id in m ==> ms[Some(id)] == m[id]
  {
    map id | id in m :: Some(id) := m[id]
  }

  /** What `read_input_file` returns for a file, or `None` where it raises.
      Which error it raises is left open: for an SDF file whose IDs disagree
      it depends on the order in which the dictionary yields its buckets. */
  function Read(input: Input, idProp: string): Option<Molecules> {
    match input
    case SdfLines(lines) =>
      var a := Sdf.Accumulate(lines, map[]);
      if a.Success? && Sdf.IdsMatch(a.value, idProp) then Some(a.value) else None
    case CsvTable(rows) =>
      if CsvRows.AllHaveId(rows, idProp) then Some(Lift(CsvRows.KeyedBy(rows, idProp))) else None
  }

  /** `read_input_file(filename, prop_names)` with `prop_names[0]` the ID
      property: an SDF file through `parse_sdf`, a CSV file through the
      keying loop of `read_csv`. Whatever it returns names every molecule
      by its own ID; an error comes from the reader of the file's kind. */
  method ReadInputFile(input: Input, idProp: string) returns (r: Result<Molecules, ReadError>)
    ensures r.Success? <==> Read(input, idProp).Some?
    ensures r.Success? ==> r.value == Read(input, idProp).value
    ensures r.Success? ==> Sdf.IdsMatch(r.value, idProp)
    ensures input.SdfLines? ==>
      (r.Success? <==> Sdf.Accumulate(input.lines, map[]).Success? &&
                       Sdf.IdsMatch(Sdf.Accumulate(input.lines, map[]).value, idProp))
    ensures input.SdfLines? && r.Success? ==> r.value == Sdf.Accumulate(input.lines, map[]).value
    ensures input.SdfLines? && r.Success? ==> Some("") !in r.value
    ensures input.CsvTable? ==> (r.Success? <==> CsvRows.AllHaveId(input.rows, idProp))
    ensures input.CsvTable? && r.Success? ==>
      CsvRows.AllHaveId(input.rows, idProp) && r.value == Lift(CsvRows.KeyedBy(input.rows, idProp))
    ensures input.CsvTable? && r.Success? ==> None !in r.value
    ensures input.SdfLines? && r.Failure? ==> r.error.SdfFailed?
    ensures input.SdfLines? && Sdf.Accumulate(input.lines, map[]).Failure? ==>
      r == Failure(SdfFailed(Sdf.Accumulate(input.lines, map[]).error))
    ensures input.CsvTable? && r.Failure? ==>
      && r.error.CsvFailed? && r.error.csv.index < |input.rows|
      && idProp !in input.rows[r.error.csv.index]
      && CsvRows.AllHaveId(input.rows[..r.error.csv.index], idProp)
  {
    match input
    case SdfLines(lines) =>
      var p := Sdf.ParseSdf(lines, idProp);
      if p.Success? {
        Sdf.NoEmptyId(lines, p.value);
        r := Success(p.value);
      } else {
        r := Failure(SdfFailed(p.error));
      }
    case CsvTable(rows) =>
      var k := CsvRows.KeyRows(rows, idProp);
      if k.Success? {
        var ms := Lift(k.value);
        forall mol | mol in ms ensures Get(ms[mol], idProp) == mol {
          CsvRows.KeyedByOwnId(rows, idProp, mol.value);
        }
        r := Success(ms);
      } else {
        r := Failure(CsvFailed(k.error));
      }
  }

  /** `needle |= set(...)` over the needle files: a molecule is a needle
      exactly when some needle file holds it. */
  method NeedleUnion<K(==), V>(files: seq<map<K, V>>) returns (needle: set<K>)
    ensures forall mol :: mol in needle <==> exists i :: 0 <= i < |files| && mol in files[i]
  {
    needle := {};
    var n := 0;
    while n < |files|
      invariant 0 <= n <= |files|
      invariant forall mol :: mol in needle <==> exists i :: 0 <= i < n && mol in files[i]
    {
      needle := needle + files[n].Keys;
      n := n + 1;
    }
  }

  /** With the ID property as the first column, a row of the join shows its
      molecule's ID first; the null-bucket molecule shows ''. */
  lemma IdCellNamesMolecule(haystack: Molecules, idProp: string, columns: seq<string>, mol: Option<string>)
    requires Sdf.IdsMatch(haystack, idProp)
    requires |columns| >= 1 && columns[0] == idProp
    requires mol in haystack
    ensures Join.Project(haystack[mol], columns)[0] == (if mol.Some? then mol.value else "")
  {
    assert Get(haystack[mol], idProp) == mol;
  }

  /** The null-bucket molecule and a molecule with the empty ID never come
      from one file (SDF files have no empty ID, CSV files no null bucket);
      both would show '' in the ID column. */
  predicate Unambiguous(ms: Molecules) {
    !(None in ms && Some("") in ms)
  }

  /** With the ID property as the first column, no two molecules of a file
      `read_input_file` returns get the same sort key: the key ends with
      the ID cell, and the ID cell names the molecule. */
  lemma HaystackKeysDistinct(haystack: Molecules, idProp: string, columns: seq<string>)
    requires Sdf.IdsMatch(haystack, idProp) && Unambiguous(haystack)
    requires |columns| >= 1 && columns[0] == idProp
    ensures Join.KeysDistinct(haystack, columns)
  {
    forall m, m' | m in haystack && m' in haystack && m != m'
      ensures Join.KeyOf(Join.Project(haystack[m], columns)) != Join.KeyOf(Join.Project(haystack[m'], columns))
    {
      IdCellNamesMolecule(haystack, idProp, columns, m);
      IdCellNamesMolecule(haystack, idProp, columns, m');
      IdCellLast(Join.Project(haystack[m], columns));
      IdCellLast(Join.Project(haystack[m'], columns));
    }
  }

  /** The last cell of a sort key is the row's ID cell, as text. */
  lemma IdCellLast(row: Join.Row)
    ensures |Join.KeyOf(row)| == |row|
    ensures Join.KeyOf(row)[|row| - 1] == Order.Str(row[0])
  {
  }

  /** Every needle file can be read. */
  predicate ReadsAll(needleFiles: seq<Input>, idProp: string) {
    forall k :: 0 <= k < |needleFiles| ==> Read(needleFiles[k], idProp).Some?
  }

  /** The molecules the readable needle files hold between them. */
  function Pooled(needleFiles: seq<Input>, idProp: string): set<Option<string>> {
    set k, m | 0 <= k < |needleFiles| && Read(needleFiles[k], idProp).Some? && m in Read(needleFiles[k], idProp).value :: m
  }

  /** The union `main` builds from the files it has read is the pool of
      the needle files. */
  lemma PooledFromFiles(needleFiles: seq<Input>, idProp: string, files: seq<Molecules>, needle: set<Option<string>>)
    requires |files| == |needleFiles|
    requires forall k :: 0 <= k < |files| ==> Read(needleFiles[k], idProp) == Some(files[k])
    requires forall mol :: mol in needle <==> exists i :: 0 <= i < |files| && mol in files[i]
    ensures needle == Pooled(needleFiles, idProp)
  {
    forall m | m in needle ensures m in Pooled(needleFiles, idProp) {
      var k :| 0 <= k < |files| && m in files[k];
      assert m in Read(needleFiles[k], idProp).value;
    }
  }

  /** Reading one more needle file keeps the files read so far in step
      with their inputs. */
  lemma ReadAppend(needleFiles: seq<Input>, idProp: string, files: seq<Molecules>, ms: Molecules)
    requires |files| < |needleFiles|
    requires forall k :: 0 <= k < |files| ==> Read(needleFiles[k], idProp) == Some(files[k])
    requires Read(needleFiles[|files|], idProp) == Some(ms)
    ensures forall k :: 0 <= k < |files| + 1 ==> Read(needleFiles[k], idProp) == Some((files + [ms])[k])
  {
  }

  /** `main` from building the row type to the join: read the haystack,
      pool the needle files' IDs, join. It fails exactly when some file
      cannot be read. Otherwise its rows are the haystack's molecules that
      some needle file holds, each once, projected onto the columns; they
      name their molecules in the first column and come in strictly
      ascending key order, so the printed order is fully determined by the
      files. */
  method Lookup(spec: RowType.PropSpec, idProp: string, haystackFile: Input, needleFiles: seq<Input>)
      returns (columns: seq<string>, r: Result<seq<Join.Entry<Option<string>>>, ReadError>)
    ensures columns == RowType.CreateRowType(spec, Some(idProp))
    ensures r.Success? <==> Read(haystackFile, idProp).Some? && ReadsAll(needleFiles, idProp)
    ensures r.Success? ==>
      Join.Mols(r.value) == Pooled(needleFiles, idProp) * Read(haystackFile, idProp).value.Keys
    ensures r.Success? ==> forall i :: 0 <= i < |r.value| ==>
      r.value[i].mol in Read(haystackFile, idProp).value &&
      r.value[i].row == Join.Project(Read(haystackFile, idProp).value[r.value[i].mol], columns)
    ensures r.Success? ==> Join.DistinctMols(r.value) && Join.Ascending(r.value)
    ensures r.Success? ==> forall i :: 0 <= i < |r.value| ==>
      |r.value[i].row| == |columns| &&
      r.value[i].row[0] == (if r.value[i].mol.Some? then r.value[i].mol.value else "")
  {
    columns := RowType.CreateRowType(spec, Some(idProp));
    var hr := ReadInputFile(haystackFile, idProp);
    if hr.Failure? {
      return columns, Failure(hr.error);
    }
    var haystack := hr.value;
    var files: seq<Molecules> := [];
    var n := 0;
    while n < |needleFiles|
      invariant 0 <= n <= |needleFiles| && |files| == n
      invariant forall k :: 0 <= k < n ==> Read(needleFiles[k], idProp) == Some(files[k])
    {
      var fr := ReadInputFile(needleFiles[n], idProp);
      if fr.Failure? {
        assert !ReadsAll(needleFiles, idProp) by { assert Read(needleFiles[n], idProp).None?; }
        return columns, Failure(fr.error);
      }
      assert Read(needleFiles[n], idProp) == Some(fr.value);
      ReadAppend(needleFiles, idProp, files, fr.value);
      files := files + [fr.value];
      n := n + 1;
    }
    assert ReadsAll(needleFiles, idProp);
    var needle := NeedleUnion(files);
    PooledFromFiles(needleFiles, idProp, files, needle);
    HaystackKeysDistinct(haystack, idProp, columns);
    var table := Join.JoinResults(haystack, needle, columns);
    forall i | 0 <= i < |table|
      ensures table[i].row[0] == (if table[i].mol.Some? then table[i].mol.value else "")
    {
      IdCellNamesMolecule(haystack, idProp, columns, table[i].mol);
    }
    r := Success(table);
  }
}
