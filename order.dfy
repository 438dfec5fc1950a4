/** The order `sorted` puts the join's rows in. A sort key is a list whose
    cells are integers (property values that `int(x, 10)` accepts) or
    strings (all others, and the ID cell). CPython 2 compares such lists
    element by element; an integer is smaller than any string, integers
    compare by value and strings by character code, shortest first on a
    common prefix. This module defines that order and proves it a strict
    total order, which is what makes "sorted" well defined. */
module Order {

  /** One element of a sort key. */
  datatype KeyCell = Int(n: int) | Str(s: string)

  // ---------------------------------------------------------------------
  // Strings
  // ---------------------------------------------------------------------

  /** `a < b` on CPython 2 byte strings: lexicographic by character code. */
  predicate StrLess(a: string, b: string) {
    if a == [] then b != []
    else if b == [] then false
    else if a[0] == b[0] then StrLess(a[1..], b[1..])
    else a[0] < b[0]
  }

  lemma {:induction false} StrLessIrreflexive(a: string)
    ensures !StrLess(a, a)
  {
    if a != [] {
      StrLessIrreflexive(a[1..]);
    }
  }

  lemma {:induction false} StrLessTransitive(a: string, b: string, c: string)
    requires StrLess(a, b) && StrLess(b, c)
    ensures StrLess(a, c)
  {
    if a != [] && a[0] == b[0] && b[0] == c[0] {
      StrLessTransitive(a[1..], b[1..], c[1..]);
    }
  }

  lemma {:induction false} StrLessTotal(a: string, b: string)
    ensures StrLess(a, b) || a == b || StrLess(b, a)
  {
    if a != [] && b != [] && a[0] == b[0] {
      StrLessTotal(a[1..], b[1..]);
      assert a == [a[0]] + a[1..] && b == [b[0]] + b[1..];
    }
  }

  /** A proper prefix sorts first: "1" before "10", "" before anything. */
  lemma {:induction false} PrefixFirst(a: string, b: string)
    requires a < b
    ensures StrLess(a, b)
  {
    if a != [] {
      PrefixFirst(a[1..], b[1..]);
    }
  }

  // ---------------------------------------------------------------------
  // Cells
  // ---------------------------------------------------------------------

  /** `a < b` on one key element: integers by value, every integer below
      every string, strings as above. */
  predicate CellLess(a: KeyCell, b: KeyCell) {
    match (a, b)
    case (Int(x), Int(y)) => x < y
    case (Int(_), Str(_)) => true
    case (Str(_), Int(_)) => false
    case (Str(x), Str(y)) => StrLess(x, y)
  }

  lemma CellLessIrreflexive(a: KeyCell)
    ensures !CellLess(a, a)
  {
    if a.Str? {
      StrLessIrreflexive(a.s);
    }
  }

  lemma CellLessTransitive(a: KeyCell, b: KeyCell, c: KeyCell)
    requires CellLess(a, b) && CellLess(b, c)
    ensures CellLess(a, c)
  {
    if a.Str? {
      StrLessTransitive(a.s, b.s, c.s);
    }
  }

  lemma CellLessTotal(a: KeyCell, b: KeyCell)
    ensures CellLess(a, b) || a == b || CellLess(b, a)
  {
    if a.Str? && b.Str? {
      StrLessTotal(a.s, b.s);
    }
  }

  // ---------------------------------------------------------------------
  // Keys
  // ---------------------------------------------------------------------

  /** `a < b` on whole sort keys: the first unequal cells decide; a key
      that is a proper prefix of the other sorts first. */
  predicate KeyLess(a: seq<KeyCell>, b: seq<KeyCell>) {
    if a == [] then b != []
    else if b == [] then false
    else if a[0] == b[0] then KeyLess(a[1..], b[1..])
    else CellLess(a[0], b[0])
  }

  /** "Not after": what `sorted` guarantees of neighbouring keys. */
  predicate KeyLe(a: seq<KeyCell>, b: seq<KeyCell>) {
    !KeyLess(b, a)
  }

  lemma {:induction false} KeyLessIrreflexive(a: seq<KeyCell>)
    ensures !KeyLess(a, a)
  {
    if a != [] {
      KeyLessIrreflexive(a[1..]);
    }
  }

  lemma {:induction false} KeyLessTransitive(a: seq<KeyCell>, b: seq<KeyCell>, c: seq<KeyCell>)
    requires KeyLess(a, b) && KeyLess(b, c)
    ensures KeyLess(a, c)
  {
    if a != [] {
      if a[0] == b[0] && b[0] == c[0] {
        KeyLessTransitive(a[1..], b[1..], c[1..]);
      } else if a[0] == b[0] {
        assert CellLess(b[0], c[0]);
      } else if b[0] == c[0] {
        assert CellLess(a[0], b[0]);
      } else {
        CellLessTransitive(a[0], b[0], c[0]);
        if a[0] == c[0] {
          CellLessTransitive(b[0], c[0], b[0]);
          CellLessIrreflexive(b[0]);
        }
      }
    }
  }

  lemma {:induction false} KeyLessTotal(a: seq<KeyCell>, b: seq<KeyCell>)
    ensures KeyLess(a, b) || a == b || KeyLess(b, a)
  {
    if a != [] && b != [] {
      if a[0] == b[0] {
        KeyLessTotal(a[1..], b[1..]);
        assert a == [a[0]] + a[1..] && b == [b[0]] + b[1..];
      } else {
        CellLessTotal(a[0], b[0]);
      }
    }
  }

  /** Never both `a < b` and `b < a`. */
  lemma KeyLessAsymmetric(a: seq<KeyCell>, b: seq<KeyCell>)
    requires KeyLess(a, b)
    ensures !KeyLess(b, a)
  {
    if KeyLess(b, a) {
      KeyLessTransitive(a, b, a);
      KeyLessIrreflexive(a);
    }
  }

  /** "Not after" chains. */
  lemma KeyLeTransitive(a: seq<KeyCell>, b: seq<KeyCell>, c: seq<KeyCell>)
    requires KeyLe(a, b) && KeyLe(b, c)
    ensures KeyLe(a, c)
  {
    if KeyLess(c, a) {
      KeyLessTotal(a, b);
      if KeyLess(a, b) {
        KeyLessTransitive(c, a, b);
      }
    }
  }
}
