/** `parse_sdf` of sdf-csv-join.py: collect the property blocks of an SDF file
    into one property map per molecule, then check every molecule's ID.

    The file is a sequence of lines. A line that matches the header grammar
    (SdfHeader) opens a property; the line after it, right-stripped, is the
    value, whatever that line looks like. Values are filed under the molecule
    ID of the header, or under the null bucket when the header has none.

    Accumulate is the parser's loop as one recursive function. It is proved
    to be the composition of two simpler stages: Tokenize, which cuts the
    lines into (header, value) records, and Fold, which files the records
    into buckets and refuses a property name repeated within a bucket. */
module Sdf {
  import opened Outcomes
  import opened Text
  import opened SdfHeader

  /** The three ways `parse_sdf` fails: `next(it)` runs out of lines after a
      header (StopIteration), a property name repeats within one bucket, or a
      bucket's ID property disagrees with the bucket's key. */
  datatype SdfError =
    | EndOfInput
    | ConflictingProperty(prop: string)
    | IdMismatch(found: Option<string>, molId: Option<string>)

  /** The `defaultdict(dict)` of the parser: molecule ID (or the null
      bucket) to that molecule's properties. */
  type Buckets = map<Option<string>, Props>

  /** `m.group(2) or None`: a header without an ID, or with the empty ID `()`,
      files its property under the null bucket. */
  function BucketOf(h: Header): (key: Option<string>)
    ensures key.None? <==> h.molId.None? || h.molId == Some("")
    ensures key.Some? ==> key == h.molId
  {
    if h.molId == Some("") then None else h.molId
  }

  /** The property map of `key` so far; `result[mol]` creates an empty one. */
  function BucketIn(acc: Buckets, key: Option<string>): Props {
    if key in acc then acc[key] else map[]
  }

  /** The loop of `parse_sdf` over the lines still to be read, given the
      buckets filled so far. */
  function Accumulate(lines: seq<string>, acc: Buckets): Result<Buckets, SdfError>
    decreases |lines|
  {
    if lines == [] then Success(acc)
    else
      match ParseHeader(lines[0])
      case None => Accumulate(lines[1..], acc)
      case Some(h) =>
        if |lines| == 1 then Failure(EndOfInput)
        else
          var props := BucketIn(acc, BucketOf(h));
          if h.prop in props then Failure(ConflictingProperty(h.prop))
          else Accumulate(lines[2..], acc[BucketOf(h) := props[h.prop := RStrip(lines[1])]])
  }

  /** All buckets pass the final check `props.get(id_prop) == mol`: each
      molecule's own ID property names it. The null bucket passes exactly
      when it has no ID property at all. */
  predicate IdsMatch(b: Buckets, idProp: string) {
    forall mol :: mol in b ==> Get(b[mol], idProp) == mol
  }

  /** `parse_sdf(lines, id_prop)`: the buckets, or the first failure. The
      final check visits the buckets in an order Python leaves unspecified,
      so when several buckets disagree with their IDs, any one of them may be
      the one reported. */
  method ParseSdf(lines: seq<string>, idProp: string) returns (r: Result<Buckets, SdfError>)
    ensures Accumulate(lines, map[]).Failure? ==> r == Accumulate(lines, map[])
    ensures r.Success? <==> Accumulate(lines, map[]).Success? && IdsMatch(Accumulate(lines, map[]).value, idProp)
    ensures r.Success? ==> r == Accumulate(lines, map[])
    ensures r.Success? ==> forall mol :: mol in r.value ==> Get(r.value[mol], idProp) == mol
    ensures Accumulate(lines, map[]).Success? && r.Failure? ==>
      && r.error.IdMismatch?
      && r.error.molId in Accumulate(lines, map[]).value
      && r.error.found == Get(Accumulate(lines, map[]).value[r.error.molId], idProp)
      && r.error.found != r.error.molId
  {
    var result: Buckets := map[];
    var i := 0;
    while i < |lines|
      invariant 0 <= i <= |lines|
      invariant Accumulate(lines[i..], result) == Accumulate(lines, map[])
    {
      assert lines[i..][0] == lines[i] && lines[i..][1..] == lines[i + 1..];
      var m := ParseHeader(lines[i]);
      if m.None? {
        i := i + 1;
      } else {
        if i + 1 == |lines| {
          return Failure(EndOfInput);
        }
        assert lines[i..][1] == lines[i + 1] && lines[i..][2..] == lines[i + 2..];
        var prop := m.value.prop;
        var mol := BucketOf(m.value);
        var value := RStrip(lines[i + 1]);
        var props := BucketIn(result, mol);
        if prop in props {
          return Failure(ConflictingProperty(prop));
        }
        result := result[mol := props[prop := value]];
        i := i + 2;
      }
    }
    assert lines[i..] == [];
    var unchecked := result.Keys;
    while unchecked != {}
      invariant unchecked <= result.Keys
      invariant forall mol :: mol in result && mol !in unchecked ==> Get(result[mol], idProp) == mol
      decreases |unchecked|
    {
      var mol :| mol in unchecked;
      var found := Get(result[mol], idProp);
      if found != mol {
        return Failure(IdMismatch(found, mol));
      }
      unchecked := unchecked - {mol};
    }
    return Success(result);
  }

  // ---------------------------------------------------------------------
  // Stage one: cutting the lines into records
  // ---------------------------------------------------------------------

  /** A property header and the value line that follows it. */
  datatype Record = Record(header: Header, value: string)

  /** The records read, and whether the last line was a header with no value
      line after it. */
  datatype Scan = Scan(records: seq<Record>, dangling: bool)

  function Tokenize(lines: seq<string>): Scan
    decreases |lines|
  {
    if lines == [] then Scan([], false)
    else
      match ParseHeader(lines[0])
      case None => Tokenize(lines[1..])
      case Some(h) =>
        if |lines| == 1 then Scan([], true)
        else
          var rest := Tokenize(lines[2..]);
          Scan([Record(h, RStrip(lines[1]))] + rest.records, rest.dangling)
  }

  /** Reading two pieces of a file one after the other: the records of the
      whole are those of the first piece followed by those of the second, as
      long as the first piece does not end on an unanswered header. */
  lemma {:induction false} TokenizeAppend(a: seq<string>, b: seq<string>)
    requires !Tokenize(a).dangling
    ensures Tokenize(a + b) == Scan(Tokenize(a).records + Tokenize(b).records, Tokenize(b).dangling)
    decreases |a|, 1
  {
    if a == [] {
      assert a + b == b;
    } else if ParseHeader(a[0]).None? {
      var rest := a[1..];
      assert a == [a[0]] + rest;
      TokenizeSkip(a[0], rest);
      TokenizeAppendSkip(a[0], rest, b);
    } else {
      if |a| == 1 {
        assert false;
      }
      var rest := a[2..];
      assert a == [a[0], a[1]] + rest;
      TokenizeHeader(a[0], a[1], rest);
      TokenizeAppendHeader(a[0], a[1], rest, b);
    }
  }

  lemma {:induction false} TokenizeAppendSkip(l: string, rest: seq<string>, b: seq<string>)
    requires ParseHeader(l).None? && !Tokenize(rest).dangling
    ensures Tokenize([l] + rest + b) ==
      Scan(Tokenize([l] + rest).records + Tokenize(b).records, Tokenize(b).dangling)
    decreases |rest| + 1, 0
  {
    TokenizeSkip(l, rest);
    AppendAssoc([l], rest, b);
    TokenizeSkip(l, rest + b);
    TokenizeAppend(rest, b);
  }

  /** A line that is not a header is passed over. */
  lemma TokenizeSkip(l: string, rest: seq<string>)
    requires ParseHeader(l).None?
    ensures Tokenize([l] + rest) == Tokenize(rest)
  {
    var lines := [l] + rest;
    assert lines[0] == l && lines[1..] == rest;
  }

  lemma {:induction false} TokenizeAppendHeader(hl: string, v: string, rest: seq<string>, b: seq<string>)
    requires ParseHeader(hl).Some? && !Tokenize(rest).dangling
    ensures Tokenize([hl, v] + rest + b) ==
      Scan(Tokenize([hl, v] + rest).records + Tokenize(b).records, Tokenize(b).dangling)
    decreases |rest| + 2, 0
  {
    TokenizeHeader(hl, v, rest);
    AppendAssoc([hl, v], rest, b);
    TokenizeHeader(hl, v, rest + b);
    TokenizeAppend(rest, b);
    AppendAssoc([Record(ParseHeader(hl).value, RStrip(v))], Tokenize(rest).records, Tokenize(b).records);
  }

  /** Lines that are not headers are skipped: they contribute nothing. */
  lemma {:induction false} TokenizeSkipsOtherLines(junk: seq<string>, lines: seq<string>)
    requires forall j :: 0 <= j < |junk| ==> ParseHeader(junk[j]).None?
    ensures Tokenize(junk + lines) == Tokenize(lines)
  {
    if junk == [] {
      assert junk + lines == lines;
    } else {
      var jl := junk + lines;
      assert jl[0] == junk[0];
      assert ParseHeader(jl[0]).None?;
      assert jl[1..] == junk[1..] + lines;
      assert Tokenize(jl) == Tokenize(jl[1..]);
      TokenizeSkipsOtherLines(junk[1..], lines);
    }
  }

  /** A header opens one record whose value is the next line, right-stripped,
      whatever that next line is (even a line that looks like a header). */
  lemma TokenizeHeader(hl: string, v: string, rest: seq<string>)
    requires ParseHeader(hl).Some?
    ensures Tokenize([hl, v] + rest) ==
      Scan([Record(ParseHeader(hl).value, RStrip(v))] + Tokenize(rest).records, Tokenize(rest).dangling)
  {
    var lines := [hl, v] + rest;
    assert lines[0] == hl && lines[1] == v && lines[2..] == rest;
  }

  /** A header on the last line has no value to read: the scan ends dangling. */
  lemma HeaderOnLastLine(lines: seq<string>, last: string)
    requires !Tokenize(lines).dangling
    requires ParseHeader(last).Some?
    ensures Tokenize(lines + [last]).dangling
  {
    TokenizeAppend(lines, [last]);
  }

  /** Line `j` is a header with the record's groups, and the record's value
      is line `j + 1`, right-stripped. */
  predicate ReadAt(lines: seq<string>, j: int, r: Record) {
    0 <= j < |lines| - 1 && ParseHeader(lines[j]) == Some(r.header) && r.value == RStrip(lines[j + 1])
  }

  /** `r` was read at some line of `lines`. */
  ghost predicate ReadIn(lines: seq<string>, r: Record) {
    exists j :: ReadAt(lines, j, r)
  }

  lemma ReadInShift(lines: seq<string>, k: nat, r: Record)
    requires k <= |lines| && ReadIn(lines[k..], r)
    ensures ReadIn(lines, r)
  {
    var j :| ReadAt(lines[k..], j, r);
    assert lines[j + k] == lines[k..][j] && lines[j + k + 1] == lines[k..][j + 1];
    assert ReadAt(lines, j + k, r);
  }

  /** Every record comes from a line that matches the header grammar, and its
      value is the following line, right-stripped. */
  lemma {:induction false} TokenizeSound(lines: seq<string>)
    ensures forall i :: 0 <= i < |Tokenize(lines).records| ==> ReadIn(lines, Tokenize(lines).records[i])
    decreases |lines|
  {
    var recs := Tokenize(lines).records;
    if lines != [] {
      match ParseHeader(lines[0])
      case None =>
        TokenizeSound(lines[1..]);
        assert recs == Tokenize(lines[1..]).records;
        forall i | 0 <= i < |recs| ensures ReadIn(lines, recs[i]) {
          ReadInShift(lines, 1, recs[i]);
        }
      case Some(h) =>
        if |lines| >= 2 {
          var tail := Tokenize(lines[2..]).records;
          assert recs == [Record(h, RStrip(lines[1]))] + tail;
          TokenizeSound(lines[2..]);
          assert ReadAt(lines, 0, recs[0]);
          forall i | 0 <= i < |recs| ensures ReadIn(lines, recs[i]) {
            if i > 0 {
              assert recs[i] == tail[i - 1];
              ReadInShift(lines, 2, recs[i]);
            }
          }
        }
    }
  }

  /** The lines of an SDF property section holding the given records. */
  function RenderRecords(recs: seq<Record>): seq<string> {
    if recs == [] then [] else [RenderHeader(recs[0].header), recs[0].value] + RenderRecords(recs[1..])
  }

  /** A record that survives writing and reading: its header can be written,
      and its value has no trailing whitespace for `rstrip()` to remove. */
  predicate WritableRecord(r: Record) {
    Writable(r.header) && RStrip(r.value) == r.value
  }

  /** Reading back the property section written from some records yields
      exactly those records. */
  lemma {:induction false} TokenizeRenderRecords(recs: seq<Record>)
    requires forall i :: 0 <= i < |recs| ==> WritableRecord(recs[i])
    ensures Tokenize(RenderRecords(recs)) == Scan(recs, false)
  {
    if recs != [] {
      var r := recs[0];
      ParseRenderHeader(r.header);
      TokenizeHeader(RenderHeader(r.header), r.value, RenderRecords(recs[1..]));
      TokenizeRenderRecords(recs[1..]);
      assert recs == [r] + recs[1..];
    }
  }

  // ---------------------------------------------------------------------
  // Stage two: filing the records into buckets
  // ---------------------------------------------------------------------

  /** The bucket and property name a record is filed under. */
  function Slot(r: Record): (Option<string>, string) {
    (BucketOf(r.header), r.header.prop)
  }

  /** Bucket `key` already has property `prop`. */
  predicate Taken(acc: Buckets, key: Option<string>, prop: string) {
    key in acc && prop in acc[key]
  }

  /** `acc` with the record filed into its bucket. */
  function File(acc: Buckets, r: Record): Buckets {
    acc[BucketOf(r.header) := BucketIn(acc, BucketOf(r.header))[r.header.prop := r.value]]
  }

  function Fold(recs: seq<Record>, acc: Buckets): Result<Buckets, SdfError> {
    if recs == [] then Success(acc)
    else if Taken(acc, BucketOf(recs[0].header), recs[0].header.prop) then
      Failure(ConflictingProperty(recs[0].header.prop))
    else
      Fold(recs[1..], File(acc, recs[0]))
  }

  /** No two records are filed under the same bucket and property name. */
  predicate Distinct(recs: seq<Record>) {
    forall i, j :: 0 <= i < j < |recs| ==> Slot(recs[i]) != Slot(recs[j])
  }

  /** No record is filed where `acc` already holds a value. */
  predicate FreshIn(recs: seq<Record>, acc: Buckets) {
    forall i :: 0 <= i < |recs| ==> !Taken(acc, Slot(recs[i]).0, Slot(recs[i]).1)
  }

  lemma TakenFile(acc: Buckets, r: Record, key: Option<string>, prop: string)
    ensures Taken(File(acc, r), key, prop) <==> Taken(acc, key, prop) || (key, prop) == Slot(r)
  {
  }

  /** Filing succeeds exactly when no property name repeats within a bucket:
      a repeated name always raises the conflict, and distinct names never
      do. */
  lemma {:induction false} FoldSucceedsIff(recs: seq<Record>, acc: Buckets)
    ensures Fold(recs, acc).Success? <==> Distinct(recs) && FreshIn(recs, acc)
  {
    if recs != [] {
      var r := recs[0];
      var rest := recs[1..];
      var acc' := File(acc, r);
      FoldSucceedsIff(rest, acc');
      forall i | 0 <= i < |rest|
        ensures Taken(acc', Slot(rest[i]).0, Slot(rest[i]).1) <==>
          Taken(acc, Slot(rest[i]).0, Slot(rest[i]).1) || Slot(rest[i]) == Slot(r)
      {
        TakenFile(acc, r, Slot(rest[i]).0, Slot(rest[i]).1);
      }
      if Distinct(recs) && FreshIn(recs, acc) {
        assert !Taken(acc, Slot(recs[0]).0, Slot(recs[0]).1);
        forall i | 0 <= i < |rest| ensures !Taken(acc', Slot(rest[i]).0, Slot(rest[i]).1) {
          assert rest[i] == recs[i + 1];
        }
        forall i, j | 0 <= i < j < |rest| ensures Slot(rest[i]) != Slot(rest[j]) {
          assert rest[i] == recs[i + 1] && rest[j] == recs[j + 1];
        }
      }
      if Fold(recs, acc).Success? {
        assert !Taken(acc, Slot(r).0, Slot(r).1);
        forall i, j | 0 <= i < j < |recs| ensures Slot(recs[i]) != Slot(recs[j]) {
          assert recs[j] == rest[j - 1];
          if i > 0 {
            assert recs[i] == rest[i - 1];
          }
        }
        forall i | 0 <= i < |recs| ensures !Taken(acc, Slot(recs[i]).0, Slot(recs[i]).1) {
          if i > 0 {
            assert recs[i] == rest[i - 1];
          }
        }
      }
    }
  }

  /** A failed filing names a property that really repeats: one already in
      its bucket, or one an earlier record filed there. */
  lemma {:induction false} FoldFailureNamesRepeat(recs: seq<Record>, acc: Buckets)
    requires Fold(recs, acc).Failure?
    ensures Fold(recs, acc).error.ConflictingProperty?
    ensures exists i :: (0 <= i < |recs| && recs[i].header.prop == Fold(recs, acc).error.prop &&
      (Taken(acc, Slot(recs[i]).0, Slot(recs[i]).1) || exists j :: 0 <= j < i && Slot(recs[j]) == Slot(recs[i])))
  {
    var r := recs[0];
    if !Taken(acc, Slot(r).0, Slot(r).1) {
      var rest := recs[1..];
      FoldFailureNamesRepeat(rest, File(acc, r));
      var e := Fold(recs, acc).error;
      var i :| 0 <= i < |rest| && rest[i].header.prop == e.prop &&
        (Taken(File(acc, r), Slot(rest[i]).0, Slot(rest[i]).1) ||
         exists j :: 0 <= j < i && Slot(rest[j]) == Slot(rest[i]));
      assert recs[i + 1] == rest[i];
      TakenFile(acc, r, Slot(rest[i]).0, Slot(rest[i]).1);
      if exists j :: 0 <= j < i && Slot(rest[j]) == Slot(rest[i]) {
        var j :| 0 <= j < i && Slot(rest[j]) == Slot(rest[i]);
        assert recs[j + 1] == rest[j];
      }
    }
  }

  /** What a successful filing produces: the buckets of `acc` and one bucket
      per record's key, no more; every record's value under its property
      name; every earlier value kept; no property that no record brought. */
  lemma FoldContents(recs: seq<Record>, acc: Buckets, b: Buckets)
    requires Fold(recs, acc) == Success(b)
    ensures forall k :: k in b <==> k in acc || exists i :: 0 <= i < |recs| && BucketOf(recs[i].header) == k
    ensures forall k, p :: Taken(acc, k, p) ==> Taken(b, k, p) && b[k][p] == acc[k][p]
    ensures forall i :: 0 <= i < |recs| ==>
      Taken(b, Slot(recs[i]).0, Slot(recs[i]).1) && b[Slot(recs[i]).0][Slot(recs[i]).1] == recs[i].value
    ensures forall k, p :: Taken(b, k, p) ==> Taken(acc, k, p) || exists i :: 0 <= i < |recs| && Slot(recs[i]) == (k, p)
  {
    FoldKeys(recs, acc, b);
    FoldKeeps(recs, acc, b);
    FoldFiles(recs, acc, b);
    FoldBringsNothingElse(recs, acc, b);
  }

  lemma {:induction false} FoldKeys(recs: seq<Record>, acc: Buckets, b: Buckets)
    requires Fold(recs, acc) == Success(b)
    ensures forall k :: k in b <==> k in acc || exists i :: 0 <= i < |recs| && BucketOf(recs[i].header) == k
  {
    if recs != [] {
      var rest := recs[1..];
      var acc' := File(acc, recs[0]);
      FoldKeys(rest, acc', b);
      forall k ensures k in b <==> k in acc || exists i :: 0 <= i < |recs| && BucketOf(recs[i].header) == k {
        if exists i :: 0 <= i < |rest| && BucketOf(rest[i].header) == k {
          var i :| 0 <= i < |rest| && BucketOf(rest[i].header) == k;
          assert recs[i + 1] == rest[i];
        }
        if exists i :: 0 <= i < |recs| && BucketOf(recs[i].header) == k {
          var i :| 0 <= i < |recs| && BucketOf(recs[i].header) == k;
          if i > 0 {
            assert recs[i] == rest[i - 1];
          }
        }
      }
    }
  }

  lemma {:induction false} FoldKeeps(recs: seq<Record>, acc: Buckets, b: Buckets)
    requires Fold(recs, acc) == Success(b)
    ensures forall k, p :: Taken(acc, k, p) ==> Taken(b, k, p) && b[k][p] == acc[k][p]
  {
    if recs != [] {
      var acc' := File(acc, recs[0]);
      FoldKeeps(recs[1..], acc', b);
      forall k, p | Taken(acc, k, p) ensures Taken(acc', k, p) && acc'[k][p] == acc[k][p] {
        TakenFile(acc, recs[0], k, p);
      }
    }
  }

  lemma {:induction false} FoldFiles(recs: seq<Record>, acc: Buckets, b: Buckets)
    requires Fold(recs, acc) == Success(b)
    ensures forall i :: 0 <= i < |recs| ==>
      Taken(b, Slot(recs[i]).0, Slot(recs[i]).1) && b[Slot(recs[i]).0][Slot(recs[i]).1] == recs[i].value
  {
    if recs != [] {
      var r := recs[0];
      var rest := recs[1..];
      var acc' := File(acc, r);
      FoldFiles(rest, acc', b);
      FoldKeeps(rest, acc', b);
      assert Taken(acc', Slot(r).0, Slot(r).1) && acc'[Slot(r).0][Slot(r).1] == r.value;
      forall i | 0 <= i < |recs|
        ensures Taken(b, Slot(recs[i]).0, Slot(recs[i]).1) && b[Slot(recs[i]).0][Slot(recs[i]).1] == recs[i].value
      {
        if i > 0 {
          assert recs[i] == rest[i - 1];
        }
      }
    }
  }

  lemma {:induction false} FoldBringsNothingElse(recs: seq<Record>, acc: Buckets, b: Buckets)
    requires Fold(recs, acc) == Success(b)
    ensures forall k, p :: Taken(b, k, p) ==> Taken(acc, k, p) || exists i :: 0 <= i < |recs| && Slot(recs[i]) == (k, p)
  {
    if recs != [] {
      var r := recs[0];
      var rest := recs[1..];
      var acc' := File(acc, r);
      FoldBringsNothingElse(rest, acc', b);
      forall k, p | Taken(b, k, p) ensures Taken(acc, k, p) || exists i :: 0 <= i < |recs| && Slot(recs[i]) == (k, p) {
        TakenFile(acc, r, k, p);
        if !Taken(acc', k, p) {
          var i :| 0 <= i < |rest| && Slot(rest[i]) == (k, p);
          assert Slot(recs[i + 1]) == (k, p);
        } else if !Taken(acc, k, p) {
          assert Slot(recs[0]) == (k, p);
        }
      }
    }
  }

  // ---------------------------------------------------------------------
  // The parser is the two stages composed
  // ---------------------------------------------------------------------

  /** Filing the records, then reporting the missing value line if the scan
      ended on a header. */
  function Finish(sc: Scan, acc: Buckets): Result<Buckets, SdfError> {
    match Fold(sc.records, acc)
    case Failure(e) => Failure(e)
    case Success(b) => if sc.dangling then Failure(EndOfInput) else Success(b)
  }

  /** The parser's loop does exactly what the two stages do: a conflict among
      the complete records is reported before a header left without value on
      the last line, because the conflict comes first in the file. */
  lemma {:induction false} AccumulateIsTwoStages(lines: seq<string>, acc: Buckets)
    ensures Accumulate(lines, acc) == Finish(Tokenize(lines), acc)
    decreases |lines|
  {
    if lines != [] {
      match ParseHeader(lines[0])
      case None =>
        AccumulateIsTwoStages(lines[1..], acc);
      case Some(h) =>
        if |lines| > 1 {
          var r := Record(h, RStrip(lines[1]));
          var rest := Tokenize(lines[2..]);
          assert Tokenize(lines).records == [r] + rest.records;
          assert ([r] + rest.records)[1..] == rest.records;
          AccumulateIsTwoStages(lines[2..], File(acc, r));
        }
    }
  }

  /** Parsing a file succeeds at the accumulation stage exactly when no
      header is left without a value and no property name repeats within a
      bucket; the repeat is reported first. */
  lemma ParseOutcome(lines: seq<string>)
    ensures var recs := Tokenize(lines).records;
      && (Accumulate(lines, map[]).Success? <==> Distinct(recs) && !Tokenize(lines).dangling)
      && (Accumulate(lines, map[]) == Failure(EndOfInput) <==> Distinct(recs) && Tokenize(lines).dangling)
      && (Accumulate(lines, map[]).Failure? && Accumulate(lines, map[]).error.ConflictingProperty? <==> !Distinct(recs))
  {
    var recs := Tokenize(lines).records;
    AccumulateIsTwoStages(lines, map[]);
    FoldSucceedsIff(recs, map[]);
    if Fold(recs, map[]).Failure? {
      FoldFailureNamesRepeat(recs, map[]);
    }
  }

  /** The buckets of a successful parse: one per molecule ID (or null) that
      some record names, and in each exactly the properties its records
      bring, with their values. A header without an ID files under the null
      bucket and under no named molecule. */
  lemma ParsedBuckets(lines: seq<string>, b: Buckets)
    requires Accumulate(lines, map[]) == Success(b)
    ensures var recs := Tokenize(lines).records;
      && (forall k :: k in b <==> exists i :: 0 <= i < |recs| && BucketOf(recs[i].header) == k)
      && (forall i :: 0 <= i < |recs| ==>
            Taken(b, Slot(recs[i]).0, Slot(recs[i]).1) && b[Slot(recs[i]).0][Slot(recs[i]).1] == recs[i].value)
      && (forall k, p :: Taken(b, k, p) ==> exists i :: 0 <= i < |recs| && Slot(recs[i]) == (k, p))
  {
    AccumulateIsTwoStages(lines, map[]);
    FoldContents(Tokenize(lines).records, map[], b);
  }

  /** No molecule is filed under the empty ID: a header naming `()` goes to
      the null bucket instead. */
  lemma NoEmptyId(lines: seq<string>, b: Buckets)
    requires Accumulate(lines, map[]) == Success(b)
    ensures Some("") !in b
  {
    ParsedBuckets(lines, b);
  }
}
