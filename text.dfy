/** Python 2 string behaviour the tool relies on: what counts as whitespace,
    `str.rstrip()`, `str.split()` after `replace(',', ' ')`, and
    `int(s, base=10)` on a byte string. */
module Text {
  import opened Outcomes

  /** Whitespace as Python 2 byte strings see it: the regular-expression class
      `\s`, `str.isspace`, and what `rstrip()` and `split()` remove. */
  predicate IsSpace(c: char) {
    c == ' ' || c == '\t' || c == '\n' || c == '\U{B}' || c == '\U{C}' || c == '\r'
  }

  predicate AllSpace(s: string) {
    forall i :: 0 <= i < |s| ==> IsSpace(s[i])
  }

  predicate IsDigit(c: char) {
    '0' <= c <= '9'
  }

  predicate AllDigits(s: string) {
    forall i :: 0 <= i < |s| ==> IsDigit(s[i])
  }

  /** The number of whitespace characters that `s` starts with. */
  function LeadingSpace(s: string): (n: nat)
    ensures n <= |s| && AllSpace(s[..n])
    ensures n < |s| ==> !IsSpace(s[n])
  {
    if s == [] || !IsSpace(s[0]) then 0
    else
      var n := LeadingSpace(s[1..]);
      assert s[..n + 1] == [s[0]] + s[1..][..n];
      n + 1
  }

  /** What is left of `s` once its leading whitespace is gone: the skip that
      both `split()` and `int()` make before they read anything. */
  function LStrip(s: string): (r: string)
    ensures |r| <= |s| && r == s[|s| - |r|..]
    ensures AllSpace(s[..|s| - |r|])
    ensures r == [] || !IsSpace(r[0])
  {
    s[LeadingSpace(s)..]
  }

  /** `s.rstrip()`: the longest prefix of `s` that does not end in whitespace. */
  function RStrip(s: string): (r: string)
    ensures r <= s && AllSpace(s[|r|..])
    ensures r == [] || !IsSpace(r[|r| - 1])
  {
    if s == [] || !IsSpace(s[|s| - 1]) then s
    else
      var r := RStrip(s[..|s| - 1]);
      assert s[|r|..] == s[..|s| - 1][|r|..] + [s[|s| - 1]];
      r
  }

  /** Whitespace in front of a string that starts with something else is
      exactly what the leading-whitespace skip removes. */
  lemma {:induction false} LStripAfterSpace(pre: string, x: string)
    requires AllSpace(pre)
    requires x == [] || !IsSpace(x[0])
    ensures LStrip(pre + x) == x
  {
    LeadingSpaceAfterSpace(pre, x);
  }

  lemma {:induction false} LeadingSpaceAfterSpace(pre: string, x: string)
    requires AllSpace(pre)
    requires x == [] || !IsSpace(x[0])
    ensures LeadingSpace(pre + x) == |pre|
  {
    if pre == [] {
      assert pre + x == x;
    } else {
      assert (pre + x)[1..] == pre[1..] + x;
      LeadingSpaceAfterSpace(pre[1..], x);
    }
  }

  /** Whitespace after a string that ends in something else is exactly what
      `rstrip()` removes. */
  lemma {:induction false} RStripBeforeSpace(x: string, post: string)
    requires AllSpace(post)
    requires x == [] || !IsSpace(x[|x| - 1])
    ensures RStrip(x + post) == x
  {
    if post == [] {
      assert x + post == x;
    } else {
      assert (x + post)[..|x + post| - 1] == x + post[..|post| - 1];
      RStripBeforeSpace(x, post[..|post| - 1]);
    }
  }

  /** `rstrip()` is idempotent, and it ignores any extra trailing whitespace. */
  lemma {:induction false} RStripIdempotent(s: string, post: string)
    requires AllSpace(post)
    ensures RStrip(RStrip(s)) == RStrip(s)
    ensures RStrip(s + post) == RStrip(s)
  {
    var r := RStrip(s);
    var gap := s[|r|..];
    RStripBeforeSpace(r, []);
    assert r + [] == r;
    assert s + post == r + (gap + post) by {
      assert s == r + gap;
    }
    assert AllSpace(gap + post);
    RStripBeforeSpace(r, gap + post);
  }

  // ---------------------------------------------------------------------
  // `s.replace(',', ' ').split()`
  // ---------------------------------------------------------------------

  /** A field produced by `split()`: non-empty and free of whitespace. */
  predicate IsWord(w: string) {
    w != [] && forall i :: 0 <= i < |w| ==> !IsSpace(w[i])
  }

  /** The length of the run of non-whitespace characters that `s` starts with. */
  function WordLength(s: string): (n: nat)
    ensures n <= |s|
    ensures forall i :: 0 <= i < n ==> !IsSpace(s[i])
    ensures n < |s| ==> IsSpace(s[n])
  {
    if s == [] || IsSpace(s[0]) then 0 else WordLength(s[1..]) + 1
  }

  /** `s.split()` with no separator argument: the maximal runs of
      non-whitespace characters, in order. */
  function Split(s: string): (words: seq<string>)
    ensures forall i :: 0 <= i < |words| ==> IsWord(words[i])
    decreases |s|
  {
    var t := LStrip(s);
    if t == [] then []
    else
      var n := WordLength(t);
      var ws := Split(t[n..]);
      FirstWordIsWord(t);
      ConsWords(t[..n], ws);
      [t[..n]] + ws
  }

  lemma FirstWordIsWord(t: string)
    requires t != [] && !IsSpace(t[0])
    ensures IsWord(t[..WordLength(t)])
  {
  }

  lemma ConsWords(w: string, ws: seq<string>)
    requires IsWord(w) && forall i :: 0 <= i < |ws| ==> IsWord(ws[i])
    ensures forall i :: 0 <= i < |ws| + 1 ==> IsWord(([w] + ws)[i])
  {
    assert forall i :: 0 < i < |ws| + 1 ==> ([w] + ws)[i] == ws[i - 1];
  }

  /** The comma-to-space replacement `create_row_type` applies before splitting. */
  function CommasToSpaces(s: string): (r: string)
    ensures |r| == |s|
    ensures forall i :: 0 <= i < |s| ==> r[i] == (if s[i] == ',' then ' ' else s[i])
  {
    if s == [] then [] else [if s[0] == ',' then ' ' else s[0]] + CommasToSpaces(s[1..])
  }

  /** Words joined with one blank between neighbours. */
  function JoinWords(words: seq<string>): string {
    if words == [] then []
    else if |words| == 1 then words[0]
    else words[0] + " " + JoinWords(words[1..])
  }

  /** The characters of `s` that are not whitespace, in order. */
  function NonSpace(s: string): string {
    if s == [] then []
    else if IsSpace(s[0]) then NonSpace(s[1..])
    else [s[0]] + NonSpace(s[1..])
  }

  function Concat(words: seq<string>): string {
    if words == [] then [] else words[0] + Concat(words[1..])
  }

  lemma {:induction false} NonSpaceAppend(a: string, b: string)
    ensures NonSpace(a + b) == NonSpace(a) + NonSpace(b)
  {
    if a == [] {
      assert a + b == b;
    } else {
      assert (a + b)[1..] == a[1..] + b;
      NonSpaceAppend(a[1..], b);
    }
  }

  lemma {:induction false} NonSpaceOfSpace(s: string)
    requires AllSpace(s)
    ensures NonSpace(s) == []
  {
    if s != [] {
      NonSpaceOfSpace(s[1..]);
    }
  }

  lemma {:induction false} NonSpaceOfWord(w: string)
    requires forall i :: 0 <= i < |w| ==> !IsSpace(w[i])
    ensures NonSpace(w) == w
  {
    if w != [] {
      NonSpaceOfWord(w[1..]);
    }
  }

  /** Splitting loses only whitespace: the words, glued together, are exactly
      the non-whitespace characters of the input in their original order. */
  lemma {:induction false} SplitKeepsNonSpace(s: string)
    ensures Concat(Split(s)) == NonSpace(s)
    decreases |s|
  {
    var k := LeadingSpace(s);
    var t := LStrip(s);
    assert s == s[..k] + t;
    NonSpaceAppend(s[..k], t);
    NonSpaceOfSpace(s[..k]);
    if t != [] {
      var n := WordLength(t);
      FirstWord(t, n);
      SplitKeepsNonSpace(t[n..]);
      ConcatCons(t[..n], Split(t[n..]));
    }
  }

  /** The non-whitespace of a stripped string: its first word, then the
      non-whitespace of what follows it. */
  lemma FirstWord(t: string, n: nat)
    requires n == WordLength(t)
    ensures NonSpace(t) == t[..n] + NonSpace(t[n..])
  {
    assert t == t[..n] + t[n..];
    NonSpaceAppend(t[..n], t[n..]);
    NonSpaceOfWord(t[..n]);
  }

  lemma ConcatCons(w: string, ws: seq<string>)
    ensures Concat([w] + ws) == w + Concat(ws)
  {
    assert ([w] + ws)[1..] == ws;
  }

  /** Splitting undoes joining: words joined by blanks split back into
      the same words. */
  lemma {:induction false} SplitJoinWords(words: seq<string>)
    requires forall i :: 0 <= i < |words| ==> IsWord(words[i])
    ensures Split(JoinWords(words)) == words
  {
    if words == [] {
    } else if |words| == 1 {
      SplitOneWord(words[0]);
    } else {
      SplitJoinWords(words[1..]);
      SplitJoinHead(words);
      assert words == [words[0]] + words[1..];
    }
  }

  lemma SplitOneWord(w: string)
    requires IsWord(w)
    ensures Split(w) == [w]
  {
    var none: string := [];
    SplitWordThen(w, none);
    assert w + none == w;
    assert Split(none) == [];
  }

  /** The first word of words joined by blanks splits off on its own. */
  lemma SplitJoinHead(words: seq<string>)
    requires |words| >= 2 && IsWord(words[0])
    ensures Split(JoinWords(words)) == [words[0]] + Split(JoinWords(words[1..]))
  {
    var tail := JoinWords(words[1..]);
    JoinWordsCons(words);
    SplitWordThen(words[0], " " + tail);
    SplitAfterSpace(" ", tail);
  }

  lemma JoinWordsCons(words: seq<string>)
    requires |words| >= 2
    ensures JoinWords(words) == words[0] + (" " + JoinWords(words[1..]))
  {
    AppendAssoc(words[0], " ", JoinWords(words[1..]));
  }

  lemma AppendAssoc<T>(x: seq<T>, y: seq<T>, z: seq<T>)
    ensures x + y + z == x + (y + z)
  {
  }

  /** A word followed by nothing or by whitespace is the first field. */
  lemma {:induction false} SplitWordThen(w: string, rest: string)
    requires IsWord(w)
    requires rest == [] || IsSpace(rest[0])
    ensures Split(w + rest) == [w] + Split(rest)
  {
    var s := w + rest;
    LStripAfterSpace([], s);
    assert [] + s == s;
    WordLengthOfWord(w, rest);
    assert s[..|w|] == w;
    assert s[|w|..] == rest;
  }

  lemma {:induction false} WordLengthOfWord(w: string, rest: string)
    requires forall i :: 0 <= i < |w| ==> !IsSpace(w[i])
    requires rest == [] || IsSpace(rest[0])
    ensures WordLength(w + rest) == |w|
  {
    if w == [] {
      assert w + rest == rest;
    } else {
      assert (w + rest)[1..] == w[1..] + rest;
      WordLengthOfWord(w[1..], rest);
    }
  }

  /** Leading whitespace never changes what `split()` returns. */
  lemma {:induction false} SplitAfterSpace(pre: string, s: string)
    requires AllSpace(pre)
    ensures Split(pre + s) == Split(s)
  {
    var k := LeadingSpace(s);
    assert s == s[..k] + s[k..];
    assert pre + s == (pre + s[..k]) + s[k..];
    assert AllSpace(pre + s[..k]);
    LStripAfterSpace(pre + s[..k], s[k..]);
    LStripAfterSpace(s[..k], s[k..]);
  }

  // ---------------------------------------------------------------------
  // `int(s, base=10)`
  // ---------------------------------------------------------------------

  /** The value of a string of decimal digits (0 for the empty string). */
  function DigitsValue(d: string): (v: nat)
    requires AllDigits(d)
  {
    if d == [] then 0 else DigitsValue(d[..|d| - 1]) * 10 + (d[|d| - 1] - '0') as nat
  }

  /** Python 2.7's `int(s, base=10)` on a byte string: optional whitespace, an
      optional `+` or `-`, optional whitespace (CPython's own `PyOS_strtoul`
      in Python/mystrtoul.c skips it after the sign), at least one decimal
      digit, optional whitespace.
      Anything else raises ValueError, which is `None` here. */
  function ParseInt(s: string): Option<int> {
    Signed(LStrip(s))
  }

  /** `int()` once the leading whitespace is gone: an optional sign, then
      the unsigned part. */
  function Signed(t: string): Option<int> {
    if t != [] && (t[0] == '+' || t[0] == '-') then
      match Unsigned(t[1..])
      case Some(v) => Some(if t[0] == '-' then -v else v)
      case None => None
    else
      Unsigned(t)
  }

  /** The part of `int()` after the sign: whitespace, digits, whitespace. */
  function Unsigned(u: string): Option<int> {
    var d := RStrip(LStrip(u));
    if d != [] && AllDigits(d) then Some(DigitsValue(d)) else None
  }

  /** The whitespace-digits-whitespace part after the sign reads as the
      digits' value, leading zeros included. */
  lemma {:induction false} UnsignedDigits(mid: string, digits: string, post: string)
    requires AllSpace(mid) && AllSpace(post)
    requires digits != [] && AllDigits(digits)
    ensures Unsigned(mid + digits + post) == Some(DigitsValue(digits))
  {
    assert mid + digits + post == mid + (digits + post);
    assert (digits + post)[0] == digits[0];
    LStripAfterSpace(mid, digits + post);
    RStripBeforeSpace(digits, post);
  }

  /** `int()` accepts every string of this shape: whitespace, an optional
      `+` or `-`, whitespace, digits (leading zeros allowed), whitespace;
      `ParseIntShape` shows it accepts nothing else. */
  lemma {:induction false} ParseIntAccepts(pre: string, sign: string, mid: string, digits: string, post: string)
    requires AllSpace(pre) && AllSpace(mid) && AllSpace(post)
    requires sign == "" || sign == "+" || sign == "-"
    requires digits != [] && AllDigits(digits)
    ensures ParseInt(pre + sign + mid + digits + post).Some?
    ensures ParseInt(pre + sign + mid + digits + post).value
         == if sign == "-" then -(DigitsValue(digits) as int) else DigitsValue(digits)
  {
    if sign == "" {
      assert pre + sign + mid + digits + post == (pre + mid) + digits + post;
      SpaceAppend(pre, mid);
      ParseIntPlain(pre + mid, digits, post);
    } else {
      assert pre + sign + mid + digits + post == pre + (sign + (mid + digits + post));
      ParseIntSigned(pre, sign, mid, digits, post);
    }
  }

  /** The converse of `ParseIntAccepts`: `int()` accepts nothing else, so
      a cell such as "1.5", "0x1F", "1e3", "12 34" or "+-3" stays text.
      Every string it accepts splits into whitespace, an optional sign,
      whitespace, digits and whitespace, and reads as the digits' signed
      value. */
  lemma {:induction false} ParseIntShape(s: string) returns (pre: string, sign: string, mid: string, digits: string, post: string)
    requires ParseInt(s).Some?
    ensures AllSpace(pre) && AllSpace(mid) && AllSpace(post)
    ensures sign == "" || sign == "+" || sign == "-"
    ensures digits != [] && AllDigits(digits)
    ensures s == pre + (sign + (mid + (digits + post)))
    ensures ParseInt(s).value == if sign == "-" then -(DigitsValue(digits) as int) else DigitsValue(digits)
  {
    var t := LStrip(s);
    pre := LStripSplit(s);
    sign, mid, digits, post := SignedShape(t);
  }

  /** The leading-whitespace skip removes a whitespace prefix and nothing else. */
  lemma LStripSplit(s: string) returns (pre: string)
    ensures AllSpace(pre) && s == pre + LStrip(s)
  {
    pre := s[..|s| - |LStrip(s)|];
  }

  /** What `int()` accepts once the leading whitespace is gone splits into
      an optional sign and the unsigned part. */
  lemma SignedShape(t: string) returns (sign: string, mid: string, digits: string, post: string)
    requires Signed(t).Some?
    ensures AllSpace(mid) && AllSpace(post)
    ensures sign == "" || sign == "+" || sign == "-"
    ensures digits != [] && AllDigits(digits)
    ensures t == sign + (mid + (digits + post))
    ensures Signed(t).value == if sign == "-" then -(DigitsValue(digits) as int) else DigitsValue(digits)
  {
    if t != [] && (t[0] == '+' || t[0] == '-') {
      sign, mid, digits, post := SignShape(t);
    } else {
      sign := "";
      mid, digits, post := UnsignedShape(t);
      assert sign + t == t;
    }
  }

  lemma SignShape(t: string) returns (sign: string, mid: string, digits: string, post: string)
    requires t != [] && (t[0] == '+' || t[0] == '-') && Signed(t).Some?
    ensures AllSpace(mid) && AllSpace(post)
    ensures sign == "+" || sign == "-"
    ensures digits != [] && AllDigits(digits)
    ensures t == sign + (mid + (digits + post))
    ensures Signed(t).value == if sign == "-" then -(DigitsValue(digits) as int) else DigitsValue(digits)
  {
    var u := t[1..];
    assert Unsigned(u).Some?;
    mid, digits, post := UnsignedShape(u);
    SignedSign(t, DigitsValue(digits));
    sign := [t[0]];
    assert t == sign + u;
  }

  /** What the unsigned part accepts splits into whitespace, digits and
      whitespace. */
  lemma UnsignedShape(u: string) returns (mid: string, digits: string, post: string)
    requires Unsigned(u).Some?
    ensures AllSpace(mid) && AllSpace(post)
    ensures digits != [] && AllDigits(digits)
    ensures u == mid + (digits + post)
    ensures Unsigned(u).value == DigitsValue(digits)
  {
    var v := LStrip(u);
    mid := u[..|u| - |v|];
    digits := RStrip(v);
    post := v[|digits|..];
    assert v == digits + post;
    assert u == mid + v;
  }

  lemma {:induction false} ParseIntPlain(lead: string, digits: string, post: string)
    requires AllSpace(lead) && AllSpace(post)
    requires digits != [] && AllDigits(digits)
    ensures ParseInt(lead + digits + post).Some?
    ensures ParseInt(lead + digits + post).value == DigitsValue(digits)
  {
    var u := digits + post;
    UnsignedOfDigits(digits, post);
    assert lead + digits + post == lead + u;
    ParseIntUnsigned(lead, u, DigitsValue(digits));
  }

  lemma UnsignedOfDigits(digits: string, post: string)
    requires AllSpace(post)
    requires digits != [] && AllDigits(digits)
    ensures Unsigned(digits + post) == Some(DigitsValue(digits))
  {
    var u := digits + post;
    LStripAfterSpace([], u);
    assert [] + u == u;
    RStripBeforeSpace(digits, post);
  }

  lemma SpaceAppend(a: string, b: string)
    requires AllSpace(a) && AllSpace(b)
    ensures AllSpace(a + b)
  {
    forall i | 0 <= i < |a + b| ensures IsSpace((a + b)[i]) {
      if i >= |a| { assert (a + b)[i] == b[i - |a|]; }
    }
  }

  lemma ParseIntUnsigned(lead: string, u: string, v: int)
    requires AllSpace(lead) && u != [] && IsDigit(u[0]) && Unsigned(u) == Some(v)
    ensures ParseInt(lead + u) == Some(v)
  {
    LStripAfterSpace(lead, u);
  }

  lemma {:induction false} ParseIntSigned(pre: string, sign: string, mid: string, digits: string, post: string)
    requires AllSpace(pre) && AllSpace(mid) && AllSpace(post)
    requires sign == "+" || sign == "-"
    requires digits != [] && AllDigits(digits)
    ensures ParseInt(pre + (sign + (mid + digits + post))).Some?
    ensures ParseInt(pre + (sign + (mid + digits + post))).value
         == if sign == "-" then -(DigitsValue(digits) as int) else DigitsValue(digits)
  {
    UnsignedDigits(mid, digits, post);
    ParseIntAfterSign(pre, sign, mid + digits + post, DigitsValue(digits));
  }

  lemma ParseIntAfterSign(pre: string, sign: string, u: string, v: int)
    requires AllSpace(pre) && (sign == "+" || sign == "-") && Unsigned(u) == Some(v)
    ensures ParseInt(pre + (sign + u)) == Some(if sign == "-" then -v else v)
  {
    var t := sign + u;
    LStripAfterSpace(pre, t);
    assert t[1..] == u;
    SignedSign(t, v);
  }

  lemma SignedSign(t: string, v: int)
    requires t != [] && (t[0] == '+' || t[0] == '-') && Unsigned(t[1..]) == Some(v)
    ensures Signed(t) == Some(if t[0] == '-' then -v else v)
  {
  }

  lemma UnsignedHasDigit(u: string)
    requires Unsigned(u).Some?
    ensures exists i :: 0 <= i < |u| && IsDigit(u[i])
  {
    var v := LStrip(u);
    var d := RStrip(v);
    assert d[0] == v[0] == u[|u| - |v|];
  }

  /** `int()` accepts nothing without a digit in it. */
  lemma ParseIntHasDigit(s: string)
    requires ParseInt(s).Some?
    ensures exists i :: 0 <= i < |s| && IsDigit(s[i])
  {
    var t := LStrip(s);
    if t != [] && (t[0] == '+' || t[0] == '-') {
      UnsignedHasDigit(t[1..]);
      var i :| 0 <= i < |t[1..]| && IsDigit(t[1..][i]);
      assert s[|s| - |t| + 1 + i] == t[1..][i];
    } else {
      UnsignedHasDigit(t);
      var i :| 0 <= i < |t| && IsDigit(t[i]);
      assert s[|s| - |t| + i] == t[i];
    }
  }

  /** The decimal spelling of a natural number, without leading zeros. */
  function NatToDecimal(n: nat): (d: string)
    ensures d != [] && AllDigits(d)
  {
    if n < 10 then ['0' + n as char] else NatToDecimal(n / 10) + ['0' + (n % 10) as char]
  }

  /** The decimal spelling of an integer, with a leading `-` when negative. */
  function IntToDecimal(n: int): string {
    if n < 0 then "-" + NatToDecimal(-n) else NatToDecimal(n)
  }

  lemma {:induction false} NatToDecimalValue(n: nat)
    ensures DigitsValue(NatToDecimal(n)) == n
  {
    var d := NatToDecimal(n);
    if n >= 10 {
      assert d[..|d| - 1] == NatToDecimal(n / 10);
      NatToDecimalValue(n / 10);
    }
  }

  lemma {:induction false} UnsignedDecimal(m: nat, post: string)
    requires AllSpace(post)
    ensures Unsigned(NatToDecimal(m) + post) == Some(m)
  {
    var digits := NatToDecimal(m);
    var u := digits + post;
    LStripAfterSpace([], u);
    assert [] + u == u;
    RStripBeforeSpace(digits, post);
    NatToDecimalValue(m);
  }

  /** `int()` reads back what decimal spelling writes, whatever whitespace
      surrounds it. */
  lemma {:induction false} ParseIntDecimal(n: int, pre: string, post: string)
    requires AllSpace(pre) && AllSpace(post)
    ensures ParseInt(pre + IntToDecimal(n) + post) == Some(n)
  {
    var m: nat := if n < 0 then -n else n;
    var s := pre + IntToDecimal(n) + post;
    if n < 0 {
      assert s == pre + ("-" + NatToDecimal(m)) + post;
      ParseIntNegative(m, pre, post);
    } else {
      assert s == pre + NatToDecimal(m) + post;
      ParseIntNonNegative(m, pre, post);
    }
  }

  lemma {:induction false} ParseIntNegative(m: nat, pre: string, post: string)
    requires m > 0
    requires AllSpace(pre) && AllSpace(post)
    ensures ParseInt(pre + ("-" + NatToDecimal(m)) + post) == Some(-(m as int))
  {
    var u := NatToDecimal(m) + post;
    var body := "-" + u;
    assert pre + ("-" + NatToDecimal(m)) + post == pre + body;
    LStripAfterSpace(pre, body);
    assert body[1..] == u;
    UnsignedDecimal(m, post);
    ParseIntMinus(pre + body, m);
  }

  /** `int` of a string whose stripped form starts with `-`. */
  lemma ParseIntMinus(s: string, m: nat)
    requires var t := LStrip(s); t != [] && t[0] == '-' && Unsigned(t[1..]) == Some(m)
    ensures ParseInt(s) == Some(-(m as int))
  {
    SignedMinus(LStrip(s), m);
  }

  lemma SignedMinus(t: string, m: nat)
    requires t != [] && t[0] == '-' && Unsigned(t[1..]) == Some(m)
    ensures Signed(t) == Some(-(m as int))
  {
  }

  lemma {:induction false} ParseIntNonNegative(m: nat, pre: string, post: string)
    requires AllSpace(pre) && AllSpace(post)
    ensures ParseInt(pre + NatToDecimal(m) + post) == Some(m)
  {
    var digits := NatToDecimal(m);
    var u := digits + post;
    assert IsDigit(digits[0]) && u[0] == digits[0];
    assert pre + digits + post == pre + u;
    LStripAfterSpace(pre, u);
    UnsignedDecimal(m, post);
  }
}
