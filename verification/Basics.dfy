/** What several modules share. */
module Basics {

  /** A value that may be missing: a SQL NULL, a Python `None`, an absent key. */
  datatype Option<+T> = None | Some(value: T)

  /** A directory: names to contents. */
  type Folder = map<string, string>

  function Max(a: int, b: int): int { if a >= b then a else b }

  function Min(a: int, b: int): int { if a <= b then a else b }

  predicate IsDigit(c: char) { '0' <= c <= '9' }

  lemma {:induction false} SubsetSize(a: set<nat>, b: set<nat>)
    requires a <= b
    ensures |a| <= |b|
    decreases |a|
  {
    if a != {} {
      var x :| x in a;
      SubsetSize(a - {x}, b - {x});
    }
  }

  // --- text, as Python compares it ------------------------------------------------------

  predicate LexLess(a: string, b: string) {
    b != [] && (a == [] || a[0] < b[0] || (a[0] == b[0] && LexLess(a[1..], b[1..])))
  }

  lemma {:induction false} LexIsATotalOrder(a: string, b: string)
    ensures LexLess(a, b) || LexLess(b, a) || a == b
    ensures !(LexLess(a, b) && LexLess(b, a)) && !LexLess(a, a)
  {
    if a != [] && b != [] {
      LexIsATotalOrder(a[1..], b[1..]);
      assert a == [a[0]] + a[1..] && b == [b[0]] + b[1..];
    }
    if a != [] {
      LexIsATotalOrder(a[1..], a[1..]);
    }
  }

  lemma {:induction false} LexTransitive(a: string, b: string, c: string)
    requires LexLess(a, b) && LexLess(b, c)
    ensures LexLess(a, c)
  {
    if a != [] && a[0] == b[0] == c[0] {
      LexTransitive(a[1..], b[1..], c[1..]);
    }
  }

  // --- sorted lists of sets ----------------------------------------------------------------

  ghost predicate StrictOrder<T(!new)>(less: (T, T) -> bool) {
    && (forall a, b :: a != b ==> less(a, b) || less(b, a))
    && (forall a :: !less(a, a))
    && (forall a, b, c :: less(a, b) && less(b, c) ==> less(a, c))
  }

  ghost predicate Ascending<T>(s: seq<T>, less: (T, T) -> bool) {
    forall i, j :: 0 <= i < j < |s| ==> less(s[i], s[j])
  }

  /** `sorted` of a set: its elements, each once, in order. */
  method Sorted<T(!new)>(s: set<T>, less: (T, T) -> bool) returns (r: seq<T>)
    requires StrictOrder(less)
    ensures Ascending(r, less) && forall x :: x in r <==> x in s
  {
    r := [];
    var todo := s;
    while todo != {}
      invariant todo <= s && Ascending(r, less) && forall x :: x in r <==> x in s - todo
      decreases todo
    {
      var x :| x in todo;
      var i := 0;
      while i < |r| && less(r[i], x)
        invariant 0 <= i <= |r| && forall j :: 0 <= j < i ==> less(r[j], x)
      {
        i := i + 1;
      }
      Inserted(r, i, x, less);
      r, todo := r[..i] + [x] + r[i..], todo - {x};
    }
  }

  lemma Inserted<T(!new)>(r: seq<T>, i: nat, x: T, less: (T, T) -> bool)
    requires StrictOrder(less) && Ascending(r, less) && i <= |r| && x !in r
    requires (forall j :: 0 <= j < i ==> less(r[j], x)) && (i < |r| ==> !less(r[i], x))
    ensures Ascending(r[..i] + [x] + r[i..], less)
    ensures forall y :: y in r[..i] + [x] + r[i..] <==> y in r || y == x
  {
    assert r == r[..i] + r[i..];
    forall j | i <= j < |r| ensures less(x, r[j]) {
      assert r[i] in r;
      assert less(x, r[i]);
    }
  }

  /** `sorted` of a set of text. */
  method SortedText(s: set<string>) returns (r: seq<string>)
    ensures Ascending(r, LexLess) && forall t :: t in r <==> t in s
  {
    forall a: string, b: string ensures a != b ==> LexLess(a, b) || LexLess(b, a) {
      LexIsATotalOrder(a, b);
    }
    forall a: string ensures !LexLess(a, a) {
      LexIsATotalOrder(a, a);
    }
    forall a: string, b: string, c: string | LexLess(a, b) && LexLess(b, c) ensures LexLess(a, c) {
      LexTransitive(a, b, c);
    }
    hide LexLess;
    r := Sorted(s, LexLess);
  }
}
