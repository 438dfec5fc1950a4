/** The SDF property header `> <PROP> (MOLID)` of sdf-csv-join.py, i.e. the
    regular expression `^>\s*<(.*?)>\s*(?:\((.*?)\)\s*)?$`, written out by hand.

    The grammar is stated declaratively (HeaderForm); ParseHeader is the
    backtracking search a regular-expression engine performs with lazy
    groups: it returns the SHORTEST property name for which the rest of the
    line fits, and for that name the one molecule ID that fits. `.` matches
    anything but a newline; the `$` anchor (which also matches in front of a
    final newline) always follows a `\s*` that has already consumed it. */
module SdfHeader {
  import opened Outcomes
  import opened Text

  /** What a match captures: group 1, and group 2 when the optional
      parenthesised part took part in the match. */
  datatype Header = Header(prop: string, molId: Option<string>)

  predicate NoNewline(s: string) {
    forall i :: 0 <= i < |s| ==> s[i] != '\n'
  }

  // ---------------------------------------------------------------------
  // The grammar
  // ---------------------------------------------------------------------

  /** `s` is `m` followed by `)` and then only whitespace: the part
      `(.*?)\)\s*$` with group 2 equal to `m`. */
  predicate Closes(s: string, m: string) {
    |m| < |s| && s[..|m|] == m && s[|m|] == ')' && NoNewline(m) && AllSpace(s[|m| + 1..])
  }

  /** `r` matches `\s*(?:\((.*?)\)\s*)?$` with group 2 equal to `g`. */
  predicate TailForm(r: string, g: Option<string>) {
    match g
    case None => AllSpace(r)
    case Some(m) =>
      var k := LeadingSpace(r);
      k < |r| && r[k] == '(' && Closes(r[k + 1..], m)
  }

  /** `s` (what follows the `<`) matches `(.*?)>` and then the tail, with
      group 1 equal to `p` and group 2 equal to `g`. */
  predicate PropForm(s: string, p: string, g: Option<string>) {
    |p| < |s| && s[..|p|] == p && s[|p|] == '>' && NoNewline(p) && TailForm(s[|p| + 1..], g)
  }

  /** The index just after the `>` and the whitespace that follows it. */
  function OpenAngle(line: string): (i: nat)
    requires 1 <= |line|
    ensures 1 <= i <= |line|
  {
    1 + LeadingSpace(line[1..])
  }

  /** `line` matches the whole header pattern with the given groups. */
  predicate HeaderForm(line: string, p: string, g: Option<string>) {
    1 <= |line| && line[0] == '>' &&
    var i := OpenAngle(line);
    i < |line| && line[i] == '<' && PropForm(line[i + 1..], p, g)
  }

  // ---------------------------------------------------------------------
  // The lazy search
  // ---------------------------------------------------------------------

  /** At most one molecule ID closes a given text: a later `)` would sit in
      the whitespace that must follow the first one. */
  lemma ClosesUnique(s: string, m: string, m': string)
    requires Closes(s, m) && Closes(s, m')
    ensures m == m'
  {
  }

  /** `(.*?)\)\s*$` tried with group 2 of length n, n + 1, ... */
  function FindClose(s: string, n: nat): (r: Option<string>)
    requires n <= |s| && NoNewline(s[..n])
    ensures r.Some? ==> Closes(s, r.value) && n <= |r.value|
    ensures r.None? ==> forall m :: n <= |m| ==> !Closes(s, m)
    decreases |s| - n
  {
    if n == |s| then None
    else if s[n] == '\n' then
      assert forall m :: n <= |m| && Closes(s, m) ==> m[n] == '\n';
      None
    else if s[n] == ')' && AllSpace(s[n + 1..]) then Some(s[..n])
    else
      assert !Closes(s, s[..n]);
      assert s[..n + 1] == s[..n] + [s[n]];
      FindClose(s, n + 1)
  }

  /** The part after the property's closing `>`: nothing but whitespace
      (no group 2), or a parenthesised molecule ID. */
  function FindTail(r: string): (t: Option<Option<string>>)
    ensures t.Some? ==> TailForm(r, t.value)
    ensures t.Some? ==> forall g :: TailForm(r, g) ==> g == t.value
    ensures t.None? ==> forall g :: !TailForm(r, g)
  {
    var k := LeadingSpace(r);
    if k == |r| then
      assert r[..k] == r;
      Some(None)
    else if r[k] == '(' then
      var rest := r[k + 1..];
      match FindClose(rest, 0)
      case Some(m) =>
        assert forall m' :: Closes(rest, m') ==> m' == m by {
          forall m' | Closes(rest, m') ensures m' == m {
            ClosesUnique(rest, m, m');
          }
        }
        assert !AllSpace(r);
        Some(Some(m))
      case None =>
        assert !AllSpace(r);
        None
    else
      assert !AllSpace(r);
      None
  }

  /** `(.*?)>` followed by the tail, tried with group 1 of length n, n + 1, ... */
  function FindProp(s: string, n: nat): (r: Option<Header>)
    requires n <= |s| && NoNewline(s[..n])
    ensures r.Some? ==> PropForm(s, r.value.prop, r.value.molId) && n <= |r.value.prop|
    ensures r.Some? ==> forall p, g :: n <= |p| < |r.value.prop| ==> !PropForm(s, p, g)
    ensures r.Some? ==> forall g :: PropForm(s, r.value.prop, g) ==> g == r.value.molId
    ensures r.None? ==> forall p, g :: n <= |p| ==> !PropForm(s, p, g)
    decreases |s| - n
  {
    if n == |s| then None
    else if s[n] == '\n' then
      NewlineEndsProp(s, n);
      None
    else
      var tail := FindTail(s[n + 1..]);
      if s[n] == '>' && tail.Some? then
        var h := Header(s[..n], tail.value);
        assert PropForm(s, h.prop, h.molId);
        Some(h)
      else
        NoPropOfLength(s, n);
        assert s[..n + 1] == s[..n] + [s[n]];
        FindProp(s, n + 1)
  }

  lemma NewlineEndsProp(s: string, n: nat)
    requires n < |s| && s[n] == '\n'
    ensures forall p, g :: n <= |p| ==> !PropForm(s, p, g)
  {
    assert forall p, g :: n <= |p| && PropForm(s, p, g) ==> p[n] == '\n';
  }

  lemma NoPropOfLength(s: string, n: nat)
    requires n < |s|
    requires !(s[n] == '>' && FindTail(s[n + 1..]).Some?)
    ensures forall p, g :: |p| == n ==> !PropForm(s, p, g)
  {
    assert forall g :: !PropForm(s, s[..n], g);
  }

  /** `SDF_HEADER_RE.match(line)`: the groups of the match, or None when the
      line is not a property header. The property name is the shortest one
      for which the line fits the grammar, and the molecule ID is the only
      one that fits with it. */
  function ParseHeader(line: string): (r: Option<Header>)
    ensures r.Some? ==> HeaderForm(line, r.value.prop, r.value.molId)
    ensures r.Some? ==> forall p, g :: |p| < |r.value.prop| ==> !HeaderForm(line, p, g)
    ensures r.Some? ==> forall g :: HeaderForm(line, r.value.prop, g) ==> g == r.value.molId
    ensures r.None? ==> forall p, g :: !HeaderForm(line, p, g)
  {
    if |line| == 0 || line[0] != '>' then None
    else
      var i := OpenAngle(line);
      if i < |line| && line[i] == '<' then FindProp(line[i + 1..], 0) else None
  }

  // ---------------------------------------------------------------------
  // Writing a header, and reading it back
  // ---------------------------------------------------------------------

  /** A property name and molecule ID that can be written into a header and
      read back unchanged. */
  predicate Writable(h: Header) {
    (forall i :: 0 <= i < |h.prop| ==> h.prop[i] != '>' && h.prop[i] != '\n') &&
    (h.molId.Some? ==>
       forall i :: 0 <= i < |h.molId.value| ==> h.molId.value[i] != ')' && h.molId.value[i] != '\n')
  }

  /** The header line `> <PROP>` or `> <PROP> (MOLID)`. */
  function RenderHeader(h: Header): string {
    "> <" + h.prop + ">" + RenderTail(h.molId)
  }

  /** The molecule-ID part of a rendered header. */
  function RenderTail(molId: Option<string>): string {
    if molId.Some? then " (" + molId.value + ")" else ""
  }

  /** A rendered header opens its property name at index 3. */
  lemma RenderedLine(h: Header)
    ensures var line := RenderHeader(h);
      |line| >= 3 && line[0] == '>' && OpenAngle(line) == 2 && line[2] == '<' &&
      line[3..] == h.prop + ">" + RenderTail(h.molId)
  {
    var line := RenderHeader(h);
    assert line == "> <" + h.prop + ">" + RenderTail(h.molId);
    LeadingSpaceAfterSpace(" ", line[2..]);
    assert line[1..] == " " + line[2..];
  }

  /** The tail of a rendered header fits the grammar with its molecule ID. */
  lemma RenderedTail(molId: Option<string>)
    requires molId.Some? ==> forall i :: 0 <= i < |molId.value| ==> molId.value[i] != ')' && molId.value[i] != '\n'
    ensures TailForm(RenderTail(molId), molId)
  {
    if molId.Some? {
      var tail := RenderTail(molId);
      var m := molId.value;
      LeadingSpaceAfterSpace(" ", tail[1..]);
      assert tail == " " + tail[1..];
      assert tail[2..] == m + ")";
      assert (m + ")")[..|m|] == m;
      assert Closes(tail[2..], m);
    }
  }

  /** A rendered header fits the grammar with the groups it was written from. */
  lemma RenderedForm(h: Header)
    requires Writable(h)
    ensures HeaderForm(RenderHeader(h), h.prop, h.molId)
  {
    var line := RenderHeader(h);
    RenderedLine(h);
    RenderedTail(h.molId);
    var s := line[3..];
    assert s[..|h.prop|] == h.prop;
    assert s[|h.prop| + 1..] == RenderTail(h.molId);
    assert PropForm(s, h.prop, h.molId);
  }

  /** No shorter property name fits a rendered header: the name holds no `>`. */
  lemma RenderedShortest(h: Header)
    requires Writable(h)
    ensures forall p, g :: |p| < |h.prop| ==> !HeaderForm(RenderHeader(h), p, g)
  {
    var line := RenderHeader(h);
    RenderedLine(h);
    var s := line[3..];
    forall p, g | |p| < |h.prop| ensures !PropForm(s, p, g) {
      assert s[|p|] == h.prop[|p|];
    }
  }

  /** Two matches with names of the same length capture the same name. */
  lemma SameLengthSameProp(line: string, p: string, g: Option<string>, p': string, g': Option<string>)
    requires HeaderForm(line, p, g) && HeaderForm(line, p', g') && |p| == |p'|
    ensures p == p'
  {
  }

  /** Matching reads back the groups a header was written from. */
  lemma ParseRenderHeader(h: Header)
    requires Writable(h)
    ensures ParseHeader(RenderHeader(h)) == Some(h)
  {
    var line := RenderHeader(h);
    RenderedForm(h);
    RenderedShortest(h);
    var r := ParseHeader(line);
    assert r.Some?;
    SameLengthSameProp(line, r.value.prop, r.value.molId, h.prop, h.molId);
  }
}
