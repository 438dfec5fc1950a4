/** `join_results` of sdf-csv-join.py: every molecule of the needle that the
    haystack knows becomes one output row, holding the haystack's value of
    each column ('' where the molecule lacks the property), and the rows are
    sorted by `sort_key`. */
module Join {
  import opened Outcomes
  import opened Text
  import opened Order
  import opened Sorting

  /** An output row: one cell per column. Every row has at least its ID
      cell, the first column. */
  type Row = r: seq<string> | |r| >= 1 witness [""]

  /** One item of `result.iteritems()`: a molecule and its row. */
  datatype Entry<K> = Entry(mol: K, row: Row)

  // ---------------------------------------------------------------------
  // The sort key
  // ---------------------------------------------------------------------

  /** `int(cell, base=10)` when that succeeds, the cell itself otherwise. */
  function ParseCell(cell: string): KeyCell {
    match ParseInt(cell)
    case Some(n) => Int(n)
    case None => Str(cell)
  }

  /** `sort_key((mol, row))`: the property cells after the ID, each read as
      an integer where possible, then the ID cell as it is. */
  function KeyOf(row: Row): seq<KeyCell> {
    seq(|row| - 1, j requires 0 <= j < |row| - 1 => ParseCell(row[j + 1])) + [Str(row[0])]
  }

  /** The loop of `sort_key`. */
  method SortKey(row: Row) returns (key: seq<KeyCell>)
    ensures key == KeyOf(row)
  {
    var props: seq<KeyCell> := [];
    var i := 1;
    while i < |row|
      invariant 1 <= i <= |row|
      invariant |props| == i - 1
      invariant forall j :: 0 <= j < i - 1 ==> props[j] == ParseCell(row[j + 1])
    {
      AppendCell(row, props, i);
      props := props + [ParseCell(row[i])];
      i := i + 1;
    }
    KeyOfCells(row, props);
    key := props + [Str(row[0])];
  }

  lemma AppendCell(row: Row, props: seq<KeyCell>, i: nat)
    requires 1 <= i < |row| && |props| == i - 1
    requires forall j :: 0 <= j < i - 1 ==> props[j] == ParseCell(row[j + 1])
    ensures forall j :: 0 <= j < i ==> (props + [ParseCell(row[i])])[j] == ParseCell(row[j + 1])
  {
  }

  lemma KeyOfCells(row: Row, props: seq<KeyCell>)
    requires |props| == |row| - 1
    requires forall j :: 0 <= j < |props| ==> props[j] == ParseCell(row[j + 1])
    ensures KeyOf(row) == props + [Str(row[0])]
  {
  }

  /** A first property cell holding a smaller integer sorts first, whatever
      the later cells and the IDs are: 2 sorts before 10. */
  lemma NumbersSortByValue(a: Row, b: Row)
    requires |a| >= 2 && |b| >= 2
    requires ParseInt(a[1]).Some? && ParseInt(b[1]).Some?
    requires ParseInt(a[1]).value < ParseInt(b[1]).value
    ensures KeyLess(KeyOf(a), KeyOf(b))
  {
    assert KeyOf(a)[0] == ParseCell(a[1]) && KeyOf(b)[0] == ParseCell(b[1]);
  }

  /** A first property cell that reads as an integer sorts before one that
      does not, an empty (missing) cell included. */
  lemma NumbersBeforeText(a: Row, b: Row)
    requires |a| >= 2 && |b| >= 2
    requires ParseInt(a[1]).Some? && ParseInt(b[1]).None?
    ensures KeyLess(KeyOf(a), KeyOf(b))
  {
    assert KeyOf(a)[0] == ParseCell(a[1]) && KeyOf(b)[0] == ParseCell(b[1]);
  }

  /** In a numeric column 2 sorts before 10, whatever the IDs, although
      as text "10" comes first. */
  lemma TwoBeforeTen(a: Row, b: Row)
    requires |a| == |b| == 2 && a[1] == "2" && b[1] == "10"
    ensures KeyLess(KeyOf(a), KeyOf(b))
    ensures StrLess("10", "2")
  {
    assert NatToDecimal(1) == "1";
    ReadsAsNumber("2", 2);
    ReadsAsNumber("10", 10);
    NumbersSortByValue(a, b);
  }

  lemma ReadsAsNumber(d: string, n: nat)
    requires NatToDecimal(n) == d
    ensures ParseInt(d) == Some(n)
  {
    var none: string := [];
    assert none + d + none == d;
    ParseIntNonNegative(n, none, none);
  }

  /** Rows whose property cells agree are ordered by their ID cells, as
      strings. */
  lemma {:induction false} IdBreaksTies(a: Row, b: Row)
    requires a[1..] == b[1..]
    ensures KeyLess(KeyOf(a), KeyOf(b)) <==> StrLess(a[0], b[0])
  {
    var ka := KeyOf(a);
    var kb := KeyOf(b);
    var n := |a| - 1;
    assert ka[..n] == kb[..n];
    CommonPrefix(ka[..n], [Str(a[0])], [Str(b[0])]);
    assert ka == ka[..n] + [Str(a[0])] && kb == kb[..n] + [Str(b[0])];
    StrLessIrreflexive(a[0]);
    assert KeyLess([Str(a[0])], [Str(b[0])]) <==> StrLess(a[0], b[0]);
  }

  lemma {:induction false} CommonPrefix(p: seq<KeyCell>, x: seq<KeyCell>, y: seq<KeyCell>)
    ensures KeyLess(p + x, p + y) <==> KeyLess(x, y)
  {
    if p != [] {
      assert (p + x)[0] == p[0] == (p + y)[0];
      assert (p + x)[1..] == p[1..] + x && (p + y)[1..] == p[1..] + y;
      CommonPrefix(p[1..], x, y);
    } else {
      assert p + x == x && p + y == y;
    }
  }

  // ---------------------------------------------------------------------
  // Sorting
  // ---------------------------------------------------------------------

  /** `x` may come before `y` in the output: its key is not greater. */
  predicate NotAfter<K>(x: Entry<K>, y: Entry<K>) {
    KeyLe(KeyOf(x.row), KeyOf(y.row))
  }

  /** The key order compares any two entries, and consistently. */
  lemma NotAfterIsTotalPreorder<K(!new)>()
    ensures TotalPreorder(NotAfter<K>)
  {
    forall x: Entry<K>, y: Entry<K>, z: Entry<K> | NotAfter(x, y) && NotAfter(y, z)
      ensures NotAfter(x, z)
    {
      KeyLeTransitive(KeyOf(x.row), KeyOf(y.row), KeyOf(z.row));
    }
    forall x: Entry<K>, y: Entry<K> ensures NotAfter(x, y) || NotAfter(y, x) {
      if KeyLess(KeyOf(x.row), KeyOf(y.row)) {
        KeyLessAsymmetric(KeyOf(x.row), KeyOf(y.row));
      }
    }
  }

  /** The molecules of a list of entries. */
  function Mols<K>(es: seq<Entry<K>>): set<K> {
    set i | 0 <= i < |es| :: es[i].mol
  }

  /** No molecule appears twice. */
  predicate DistinctMols<K(==)>(es: seq<Entry<K>>) {
    forall i, j :: 0 <= i < j < |es| ==> es[i].mol != es[j].mol
  }

  /** `sorted(items, key=sort_key)`: the same entries, in key order. */
  function SortEntries<K(==,!new)>(es: seq<Entry<K>>): (r: seq<Entry<K>>)
    ensures multiset(r) == multiset(es)
    ensures Sorted(NotAfter<K>, r)
  {
    NotAfterIsTotalPreorder<K>();
    Sort(NotAfter<K>, es)
  }

  /** Rearranging entries cannot make a molecule appear twice. */
  lemma {:induction false} RearrangedDistinct<K>(a: seq<Entry<K>>, b: seq<Entry<K>>)
    requires multiset(a) == multiset(b) && DistinctMols(a)
    ensures DistinctMols(b)
  {
    forall i, j | 0 <= i < j < |b| ensures b[i].mol != b[j].mol {
      if b[i].mol == b[j].mol {
        assert b[i] in multiset(a) && b[j] in multiset(a);
        var k :| 0 <= k < |a| && a[k] == b[i];
        var l :| 0 <= l < |a| && a[l] == b[j];
        assert k == l;
        CountTwice(b, i, j);
        CountOnce(a, k);
        assert false;
      }
    }
  }

  lemma {:induction false} CountTwice<T>(s: seq<T>, i: nat, j: nat)
    requires i < j < |s| && s[i] == s[j]
    ensures multiset(s)[s[i]] >= 2
  {
    assert s == s[..j] + s[j..];
    assert s[i] in s[..j] && s[j] in s[j..];
  }

  lemma {:induction false} CountOnce<K>(s: seq<Entry<K>>, k: nat)
    requires k < |s| && DistinctMols(s)
    ensures multiset(s)[s[k]] == 1
  {
    if k == 0 {
      HeadOnce(s);
    } else {
      assert s[1..][k - 1] == s[k];
      CountOnce(s[1..], k - 1);
      CountInTail(s, k);
    }
  }

  lemma HeadOnce<K>(s: seq<Entry<K>>)
    requires |s| > 0 && DistinctMols(s)
    ensures multiset(s)[s[0]] == 1
  {
    assert s == [s[0]] + s[1..];
    assert s[0] !in s[1..] by {
      forall l | 0 <= l < |s[1..]| ensures s[1..][l] != s[0] {
        assert s[1..][l] == s[l + 1];
      }
    }
  }

  /** An entry after the first is counted as often without the first. */
  lemma CountInTail<K>(s: seq<Entry<K>>, k: nat)
    requires 0 < k < |s| && DistinctMols(s)
    ensures multiset(s)[s[k]] == multiset(s[1..])[s[k]]
  {
    assert s == [s[0]] + s[1..];
    assert s[0] != s[k];
  }

  /** Two lists holding the same entries hold the same molecules. */
  lemma {:induction false} SameMols<K>(a: seq<Entry<K>>, b: seq<Entry<K>>)
    requires multiset(a) == multiset(b)
    ensures Mols(a) == Mols(b)
  {
    forall mol | mol in Mols(a) ensures mol in Mols(b) {
      var i :| 0 <= i < |a| && a[i].mol == mol;
      assert a[i] in multiset(b);
      var k :| 0 <= k < |b| && b[k] == a[i];
    }
    forall mol | mol in Mols(b) ensures mol in Mols(a) {
      var i :| 0 <= i < |b| && b[i].mol == mol;
      assert b[i] in multiset(a);
      var k :| 0 <= k < |a| && a[k] == b[i];
    }
  }

  // ---------------------------------------------------------------------
  // The join
  // ---------------------------------------------------------------------

  /** `props.get(prop, '')`. */
  function CellOf(props: Props, prop: string): string {
    if prop in props then props[prop] else ""
  }

  /** The row `row_type` builds from a molecule's properties: one cell per
      column, the property's value or ''. */
  function Project(props: Props, columns: seq<string>): (row: Row)
    requires |columns| >= 1
    ensures |row| == |columns|
    ensures forall c :: 0 <= c < |columns| ==> row[c] == CellOf(props, columns[c])
  {
    seq(|columns|, j requires 0 <= j < |columns| => CellOf(props, columns[j]))
  }

  /** The `for mol in needle` loop: the row of every needle molecule the
      haystack holds, keyed by molecule. */
  method Collect<K(==)>(haystack: map<K, Props>, needle: set<K>, columns: seq<string>)
      returns (result: map<K, Row>)
    requires |columns| >= 1
    ensures result.Keys == needle * haystack.Keys
    ensures forall mol :: mol in result ==> mol in haystack && result[mol] == Project(haystack[mol], columns)
  {
    result := map[];
    var pending := needle;
    while pending != {}
      invariant pending <= needle
      invariant result.Keys == (needle - pending) * haystack.Keys
      invariant forall mol :: mol in result ==> mol in haystack && result[mol] == Project(haystack[mol], columns)
      decreases |pending|
    {
      var mol :| mol in pending;
      if mol in haystack {
        result := result[mol := Project(haystack[mol], columns)];
      }
      pending := pending - {mol};
    }
  }

  /** `result.iteritems()`: the entries of a dictionary, each once, in an
      order the dictionary does not promise. */
  method Items<K(==)>(result: map<K, Row>) returns (items: seq<Entry<K>>)
    ensures Mols(items) == result.Keys
    ensures DistinctMols(items)
    ensures forall i :: 0 <= i < |items| ==> items[i].mol in result && items[i].row == result[items[i].mol]
  {
    items := [];
    var rest := result.Keys;
    while rest != {}
      invariant rest <= result.Keys
      invariant Mols(items) == result.Keys - rest
      invariant DistinctMols(items)
      invariant forall i :: 0 <= i < |items| ==> items[i].mol in result && items[i].row == result[items[i].mol]
      decreases |rest|
    {
      var mol :| mol in rest;
      var e := Entry(mol, result[mol]);
      AppendEntry(result, items, e);
      items := items + [e];
      rest := rest - {mol};
    }
  }

  /** Appending an entry for a molecule not yet listed keeps the list
      free of repeats and true to the dictionary. */
  lemma AppendEntry<K>(result: map<K, Row>, items: seq<Entry<K>>, e: Entry<K>)
    requires DistinctMols(items) && e.mol !in Mols(items)
    requires forall i :: 0 <= i < |items| ==> items[i].mol in result && items[i].row == result[items[i].mol]
    requires e.mol in result && e.row == result[e.mol]
    ensures Mols(items + [e]) == Mols(items) + {e.mol}
    ensures DistinctMols(items + [e])
    ensures forall i :: 0 <= i < |items| + 1 ==> (items + [e])[i].mol in result && (items + [e])[i].row == result[(items + [e])[i].mol]
  {
    assert forall i :: 0 <= i < |items| ==> (items + [e])[i] == items[i];
    assert (items + [e])[|items|] == e;
  }

  /** `join_results(haystack, needle, row_type)`: one row for each needle
      molecule the haystack holds, and for no other; each row gives, column
      by column, the haystack's value of that property or '' where there is
      none; no molecule twice; rows sorted by `sort_key`. */
  method JoinResults<K(==,!new)>(haystack: map<K, Props>, needle: set<K>, columns: seq<string>)
      returns (table: seq<Entry<K>>)
    requires |columns| >= 1
    ensures Mols(table) == needle * haystack.Keys
    ensures DistinctMols(table)
    ensures forall i :: 0 <= i < |table| ==>
      table[i].mol in haystack && table[i].row == Project(haystack[table[i].mol], columns)
    ensures Sorted(NotAfter<K>, table)
    ensures KeysDistinct(haystack, columns) ==> Ascending(table)
  {
    var result := Collect(haystack, needle, columns);
    var items := Items(result);
    table := SortEntries(items);
    SameMols(table, items);
    RearrangedDistinct(items, table);
    forall i | 0 <= i < |table| ensures table[i].mol in result && table[i].row == result[table[i].mol] {
      assert table[i] in multiset(items);
      var k :| 0 <= k < |items| && items[k] == table[i];
    }
    if KeysDistinct(haystack, columns) {
      StrictlySorted(haystack, columns, table);
    }
  }

  /** No two molecules of the haystack share a sort key. */
  ghost predicate KeysDistinct<K(!new)>(haystack: map<K, Props>, columns: seq<string>)
    requires |columns| >= 1
  {
    forall m, m' :: m in haystack && m' in haystack && m != m' ==>
      KeyOf(Project(haystack[m], columns)) != KeyOf(Project(haystack[m'], columns))
  }

  /** Every entry's key is strictly below every later entry's. */
  predicate Ascending<K>(es: seq<Entry<K>>) {
    forall i, j :: 0 <= i < j < |es| ==> KeyLess(KeyOf(es[i].row), KeyOf(es[j].row))
  }

  /** Without ties, sorted by key means strictly ascending. */
  lemma StrictlySorted<K(!new)>(haystack: map<K, Props>, columns: seq<string>, table: seq<Entry<K>>)
    requires |columns| >= 1 && KeysDistinct(haystack, columns)
    requires DistinctMols(table) && Sorted(NotAfter<K>, table)
    requires forall i :: 0 <= i < |table| ==>
      table[i].mol in haystack && table[i].row == Project(haystack[table[i].mol], columns)
    ensures Ascending(table)
  {
    forall i, j | 0 <= i < j < |table| ensures KeyLess(KeyOf(table[i].row), KeyOf(table[j].row)) {
      assert NotAfter(table[i], table[j]);
      assert table[i].mol != table[j].mol;
      KeyLessTotal(KeyOf(table[i].row), KeyOf(table[j].row));
    }
  }

  /** A strictly ascending list is determined by its entries: there is one
      way to order them, so the output order does not depend on the order
      in which the dictionary hands its items to the sort. */
  lemma {:induction false} AscendingUnique<K>(a: seq<Entry<K>>, b: seq<Entry<K>>)
    requires multiset(a) == multiset(b)
    requires Ascending(a) && Ascending(b)
    ensures a == b
  {
    if a != [] {
      AscendingHeads(a, b);
      DropHead(a, b);
      AscendingTail(a);
      AscendingTail(b);
      AscendingUnique(a[1..], b[1..]);
      assert a == [a[0]] + a[1..] && b == [b[0]] + b[1..];
    }
  }

  /** Two strictly ascending lists of the same entries start alike. */
  lemma AscendingHeads<K>(a: seq<Entry<K>>, b: seq<Entry<K>>)
    requires multiset(a) == multiset(b) && a != []
    requires Ascending(a) && Ascending(b)
    ensures b != [] && a[0] == b[0]
  {
    assert a[0] in multiset(b);
    assert b[0] in multiset(a);
    var k :| 0 <= k < |b| && b[k] == a[0];
    var l :| 0 <= l < |a| && a[l] == b[0];
    if k != 0 && l != 0 {
      KeyLessAsymmetric(KeyOf(b[0].row), KeyOf(a[0].row));
    }
  }

  lemma DropHead<T>(a: seq<T>, b: seq<T>)
    requires multiset(a) == multiset(b) && a != [] && b != [] && a[0] == b[0]
    ensures multiset(a[1..]) == multiset(b[1..])
  {
    assert a == [a[0]] + a[1..] && b == [b[0]] + b[1..];
    assert multiset(a) == multiset{a[0]} + multiset(a[1..]);
    assert multiset(b) == multiset{b[0]} + multiset(b[1..]);
    assert multiset(a[1..]) == multiset(a) - multiset{a[0]};
    assert multiset(b[1..]) == multiset(b) - multiset{b[0]};
  }

  lemma AscendingTail<K>(a: seq<Entry<K>>)
    requires Ascending(a) && a != []
    ensures Ascending(a[1..])
  {
    forall i, j | 0 <= i < j < |a| - 1 ensures KeyLess(KeyOf(a[1..][i].row), KeyOf(a[1..][j].row)) {
      assert a[1..][i] == a[i + 1] && a[1..][j] == a[j + 1];
    }
  }
}
