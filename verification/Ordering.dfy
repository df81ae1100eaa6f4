/**
 Lexicographic comparison as Python defines it for strings and tuples, and the
 result of `sorted` on a set.
 */
module Ordering {

  ghost predicate TotalOrder<T(!new)>(le: (T, T) -> bool) {
    && (forall a, b :: le(a, b) || le(b, a))
    && (forall a, b :: le(a, b) && le(b, a) ==> a == b)
    && (forall a, b, c :: le(a, b) && le(b, c) ==> le(a, c))
  }

  ghost predicate Sorted<T>(le: (T, T) -> bool, s: seq<T>) {
    forall i, j :: 0 <= i < j < |s| ==> le(s[i], s[j])
  }

  ghost predicate Distinct<T>(s: seq<T>) {
    forall i, j :: 0 <= i < j < |s| ==> s[i] != s[j]
  }

  predicate CharLe(a: char, b: char) { a <= b }

  /** A shorter prefix comes first; otherwise the first difference decides. */
  predicate LexLe<T(==)>(le: (T, T) -> bool, a: seq<T>, b: seq<T>) {
    a == [] || (b != [] && if a[0] == b[0] then LexLe(le, a[1..], b[1..]) else le(a[0], b[0]))
  }

  predicate StringLe(a: string, b: string) { LexLe(CharLe, a, b) }

  predicate TupleLe(a: seq<string>, b: seq<string>) { LexLe(StringLe, a, b) }

  lemma {:induction false} LexTotal<T(!new)>(le: (T, T) -> bool, a: seq<T>, b: seq<T>)
    requires TotalOrder(le)
    ensures LexLe(le, a, b) || LexLe(le, b, a)
    ensures LexLe(le, a, b) && LexLe(le, b, a) ==> a == b
  {
    if a != [] && b != [] && a[0] == b[0] {
      LexTotal(le, a[1..], b[1..]);
      assert a == [a[0]] + a[1..] && b == [b[0]] + b[1..];
    }
  }

  lemma {:induction false} LexTransitive<T(!new)>(le: (T, T) -> bool, a: seq<T>, b: seq<T>, c: seq<T>)
    requires TotalOrder(le)
    requires LexLe(le, a, b) && LexLe(le, b, c)
    ensures LexLe(le, a, c)
  {
    if a != [] && a[0] == b[0] == c[0] {
      LexTransitive(le, a[1..], b[1..], c[1..]);
    }
  }

  lemma StringLeIsTotalOrder()
    ensures TotalOrder(StringLe)
  {
    forall a, b ensures (StringLe(a, b) || StringLe(b, a)) && (StringLe(a, b) && StringLe(b, a) ==> a == b) {
      LexTotal(CharLe, a, b);
    }
    forall a, b, c | StringLe(a, b) && StringLe(b, c) ensures StringLe(a, c) {
      LexTransitive(CharLe, a, b, c);
    }
  }

  lemma TupleLeIsTotalOrder()
    ensures TotalOrder(TupleLe)
  {
    StringLeIsTotalOrder();
    forall a, b ensures (TupleLe(a, b) || TupleLe(b, a)) && (TupleLe(a, b) && TupleLe(b, a) ==> a == b) {
      LexTotal(StringLe, a, b);
    }
    forall a, b, c | TupleLe(a, b) && TupleLe(b, c) ensures TupleLe(a, c) {
      LexTransitive(StringLe, a, b, c);
    }
  }

  /** k is the first place where a and b differ. */
  ghost predicate PartAt<T>(a: seq<T>, b: seq<T>, k: int) {
    0 <= k < |a| && k < |b| && a[..k] == b[..k] && a[k] != b[k]
  }

  lemma SameUpTo<T>(a: seq<T>, b: seq<T>, k: int)
    requires PartAt(a, b, k)
    ensures k > 0 ==> a[0] == b[0]
  {
    if k > 0 {
      assert a[..k][0] == b[..k][0];
    }
  }

  lemma {:induction false} LexExactly<T(!new)>(le: (T, T) -> bool, a: seq<T>, b: seq<T>)
    ensures LexLe(le, a, b) <==> a <= b || exists k :: PartAt(a, b, k) && le(a[k], b[k])
  {
    if a != [] && b != [] && a[0] == b[0] {
      var c, d := a[1..], b[1..];
      LexExactly(le, c, d);
      assert a == [a[0]] + c && b == [b[0]] + d;
      if k :| PartAt(c, d, k) && le(c[k], d[k]) {
        assert a[..k + 1] == [a[0]] + c[..k] && b[..k + 1] == [b[0]] + d[..k];
        assert PartAt(a, b, k + 1);
      }
      if k :| PartAt(a, b, k) && le(a[k], b[k]) {
        assert k != 0;
        assert c[..k - 1] == a[..k][1..] && d[..k - 1] == b[..k][1..];
        assert PartAt(c, d, k - 1);
      }
    } else if a != [] && b != [] {
      assert PartAt(a, b, 0);
      forall k | PartAt(a, b, k) ensures k == 0 {
        SameUpTo(a, b, k);
      }
    }
  }

  /** Python's order of strings: a prefix comes first, else the first differing character decides. */
  lemma StringLeExactly(a: string, b: string)
    ensures StringLe(a, b) <==> a <= b || exists k :: PartAt(a, b, k) && a[k] < b[k]
  {
    LexExactly(CharLe, a, b);
  }

  /** `a < b` on strings. */
  ghost predicate Before(a: string, b: string) {
    a != b && (a <= b || exists k :: PartAt(a, b, k) && a[k] < b[k])
  }

  /** Python's order of tuples of strings, in the same way. */
  lemma TupleLeExactly(a: seq<string>, b: seq<string>)
    ensures TupleLe(a, b) <==> a <= b || exists k :: PartAt(a, b, k) && StringLe(a[k], b[k])
  {
    LexExactly(StringLe, a, b);
  }

  function InsertSorted<T(!new)>(le: (T, T) -> bool, x: T, s: seq<T>): (r: seq<T>)
    requires TotalOrder(le) && Sorted(le, s) && Distinct(s) && x !in s
    ensures Sorted(le, r) && Distinct(r)
    ensures forall y :: y in r <==> y == x || y in s
  {
    if s == [] then [x]
    else if le(x, s[0]) then
      assert forall i :: 0 <= i < |s| ==> le(x, s[i]);
      [x] + s
    else
      var rest := InsertSorted(le, x, s[1..]);
      assert forall y :: y in s <==> y == s[0] || y in s[1..];
      assert forall i :: 0 <= i < |rest| ==> rest[i] in rest;
      [s[0]] + rest
  }

  /** `sorted(elements)` for a set: the one ascending listing of its members. */
  method SortedElements<T(!new, ==)>(elements: set<T>, le: (T, T) -> bool) returns (r: seq<T>)
    requires TotalOrder(le)
    ensures Sorted(le, r) && Distinct(r)
    ensures forall x :: x in r <==> x in elements
  {
    r := [];
    var rest := elements;
    while rest != {}
      invariant rest <= elements && Sorted(le, r) && Distinct(r)
      invariant forall x :: x in r <==> x in elements - rest
      decreases rest
    {
      var x :| x in rest;
      r := InsertSorted(le, x, r);
      rest := rest - {x};
    }
  }

  method SortedNames(names: set<string>) returns (r: seq<string>)
    ensures Sorted(StringLe, r) && Distinct(r)
    ensures forall x :: x in r <==> x in names
  {
    StringLeIsTotalOrder();
    r := SortedElements(names, StringLe);
  }

  method SortedTuples(tuples: set<seq<string>>) returns (r: seq<seq<string>>)
    ensures Sorted(TupleLe, r) && Distinct(r)
    ensures forall x :: x in r <==> x in tuples
  {
    TupleLeIsTotalOrder();
    r := SortedElements(tuples, TupleLe);
  }
}
