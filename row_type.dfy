/** `create_row_type` of sdf-csv-join.py: the ordered list of output columns,
    built from the user's property list and the ID property. The ID column
    comes first and exactly once; the other names keep their order, and a
    name repeated by the user stays repeated. */
module RowType {
  import opened Outcomes
  import opened Text

  /** The two forms `create_row_type` accepts: a string of names separated
      by commas and/or whitespace, or an explicit list of names. */
  datatype PropSpec = Delimited(text: string) | Listed(names: seq<string>)

  /** The names of the spec: `prop_names.replace(',', ' ').split()` for a
      string, the list itself otherwise. */
  function PropNames(spec: PropSpec): seq<string> {
    match spec
    case Delimited(text) => Split(CommasToSpaces(text))
    case Listed(names) => names
  }

  /** `[n for n in names if n != id]`: the names other than `id`, in their
      order and with their multiplicities. */
  function Without(names: seq<string>, id: string): (rest: seq<string>)
    ensures id !in rest
    ensures multiset(rest) == multiset(names)[id := 0]
    ensures IsSubsequence(rest, names)
  {
    if names == [] then []
    else
      assert names == [names[0]] + names[1..];
      var tail := Without(names[1..], id);
      if names[0] == id then tail else [names[0]] + tail
  }

  /** `a` is `b` with some elements left out, the rest in their order. */
  predicate IsSubsequence(a: seq<string>, b: seq<string>)
    decreases |b|
  {
    if a == [] then true
    else if b == [] then false
    else if a[0] == b[0] then IsSubsequence(a[1..], b[1..])
    else IsSubsequence(a, b[1..])
  }

  /** The columns of `create_row_type(spec, id_prop)`. With an ID property
      the list is that ID followed by every other name in order; without
      one it is the names as given. */
  function CreateRowType(spec: PropSpec, idProp: Option<string>): (columns: seq<string>)
    ensures idProp.Some? ==> |columns| >= 1 && columns[0] == idProp.value
    ensures idProp.Some? ==> idProp.value !in columns[1..]
    ensures idProp.Some? ==> multiset(columns[1..]) == multiset(PropNames(spec))[idProp.value := 0]
    ensures idProp.Some? ==> IsSubsequence(columns[1..], PropNames(spec))
    ensures idProp.None? ==> columns == PropNames(spec)
  {
    match idProp
    case None => PropNames(spec)
    case Some(id) =>
      var rest := Without(PropNames(spec), id);
      assert ([id] + rest)[1..] == rest;
      [id] + rest
  }

  /** The ID column occurs exactly once, and every requested name is a
      column: nothing the user asked for is dropped. */
  lemma {:induction false} IdOnceAndNamesKept(spec: PropSpec, id: string, n: string)
    ensures multiset(CreateRowType(spec, Some(id)))[id] == 1
    ensures n in PropNames(spec) ==> n in CreateRowType(spec, Some(id))
  {
    var columns := CreateRowType(spec, Some(id));
    assert columns == [id] + columns[1..];
    assert multiset(columns) == multiset{id} + multiset(columns[1..]);
    if n in PropNames(spec) && n != id {
      assert multiset(PropNames(spec))[n] > 0;
      assert multiset(columns[1..])[n] > 0;
      assert n in columns[1..];
    }
  }

  /** Every name a string spec yields is a non-empty run of characters of
      the spec holding neither whitespace nor a comma. */
  lemma NamesAreClean(text: string)
    ensures forall i :: 0 <= i < |PropNames(Delimited(text))| ==>
      IsWord(PropNames(Delimited(text))[i]) && ',' !in PropNames(Delimited(text))[i]
  {
    var s := CommasToSpaces(text);
    assert ',' !in s;
    SplitAvoids(s, ',');
  }

  /** A character that does not occur in a string occurs in none of the
      words `split()` cuts from it. */
  lemma {:induction false} SplitAvoids(s: string, c: char)
    requires c !in s
    ensures forall i :: 0 <= i < |Split(s)| ==> c !in Split(s)[i]
    decreases |s|
  {
    var t := LStrip(s);
    if t != [] {
      var n := WordLength(t);
      assert c !in t;
      assert c !in t[..n] && c !in t[n..];
      SplitAvoids(t[n..], c);
      assert Split(s) == [t[..n]] + Split(t[n..]);
    }
  }

  /** Names joined by commas, as in `-p MW,logP`. */
  function JoinCommas(names: seq<string>): string {
    if names == [] then []
    else if |names| == 1 then names[0]
    else names[0] + "," + JoinCommas(names[1..])
  }

  lemma {:induction false} CommasToSpacesAppend(a: string, b: string)
    ensures CommasToSpaces(a + b) == CommasToSpaces(a) + CommasToSpaces(b)
  {
    var whole := CommasToSpaces(a + b);
    var parts := CommasToSpaces(a) + CommasToSpaces(b);
    forall i | 0 <= i < |whole| ensures whole[i] == parts[i] {
      if i < |a| {
        assert (a + b)[i] == a[i];
      } else {
        assert (a + b)[i] == b[i - |a|];
      }
    }
    assert whole == parts;
  }

  lemma {:induction false} CommaFreeUnchanged(s: string)
    requires ',' !in s
    ensures CommasToSpaces(s) == s
  {
    assert forall i :: 0 <= i < |s| ==> s[i] != ',';
  }

  /** Commas turn into the blanks `split()` separates on. */
  lemma {:induction false} CommasBecomeBlanks(names: seq<string>)
    requires forall i :: 0 <= i < |names| ==> ',' !in names[i]
    ensures CommasToSpaces(JoinCommas(names)) == JoinWords(names)
  {
    if |names| == 1 {
      CommaFreeUnchanged(names[0]);
    } else if |names| > 1 {
      CommasBecomeBlanks(names[1..]);
      CommasBecomeBlanksHead(names);
    }
  }

  lemma CommasBecomeBlanksHead(names: seq<string>)
    requires |names| > 1 && ',' !in names[0]
    requires CommasToSpaces(JoinCommas(names[1..])) == JoinWords(names[1..])
    ensures CommasToSpaces(JoinCommas(names)) == JoinWords(names)
  {
    CommasToSpacesAppend(names[0] + ",", JoinCommas(names[1..]));
    CommasToSpacesAppend(names[0], ",");
    CommaFreeUnchanged(names[0]);
  }

  /** A list of clean names, written either with commas or with blanks,
      reads back as exactly that list. */
  lemma PropNamesRoundTrip(names: seq<string>)
    requires forall i :: 0 <= i < |names| ==> IsWord(names[i]) && ',' !in names[i]
    ensures PropNames(Delimited(JoinWords(names))) == names
    ensures PropNames(Delimited(JoinCommas(names))) == names
  {
    CommasBecomeBlanks(names);
    assert ',' !in JoinWords(names) by {
      CommaFreeJoin(names);
    }
    CommaFreeUnchanged(JoinWords(names));
    SplitJoinWords(names);
  }

  lemma {:induction false} CommaFreeJoin(names: seq<string>)
    requires forall i :: 0 <= i < |names| ==> ',' !in names[i]
    ensures ',' !in JoinWords(names)
  {
    if |names| > 1 {
      CommaFreeJoin(names[1..]);
      assert JoinWords(names) == names[0] + " " + JoinWords(names[1..]);
    }
  }
}
