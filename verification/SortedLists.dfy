/**
 Sorting by a string key in code-point order: what `sorted` and `sort_keys` do, and why the result
 depends on the elements alone.
 */
module SortedLists {

  /** Code-point order of strings. */
  predicate Before(a: seq<int>, b: seq<int>) {
    b != [] && (a == [] || a[0] < b[0] || (a[0] == b[0] && Before(a[1..], b[1..])))
  }

  lemma {:induction false} BeforeTotal(a: seq<int>, b: seq<int>)
    ensures a == b || Before(a, b) || Before(b, a)
  {
    if a != [] && b != [] && a[0] == b[0] {
      BeforeTotal(a[1..], b[1..]);
      assert a == [a[0]] + a[1..] && b == [b[0]] + b[1..];
    }
  }

  lemma {:induction false} BeforeTransitive(a: seq<int>, b: seq<int>, c: seq<int>)
    requires Before(a, b) && Before(b, c)
    ensures Before(a, c)
  {
    if a != [] && a[0] == b[0] && b[0] == c[0] {
      BeforeTransitive(a[1..], b[1..], c[1..]);
    }
  }

  lemma {:induction false} BeforeIrreflexive(a: seq<int>)
    ensures !Before(a, a)
  {
    if a != [] {
      BeforeIrreflexive(a[1..]);
    }
  }

  lemma {:induction false} NeverBothBefore(a: seq<int>, b: seq<int>)
    ensures !(Before(a, b) && Before(b, a))
  {
    if Before(a, b) && Before(b, a) {
      BeforeTransitive(a, b, a);
      BeforeIrreflexive(a);
    }
  }

  function Codes(s: string): seq<int> { seq(|s|, i requires 0 <= i < |s| => s[i] as int) }

  lemma CodesDistinct(a: string, b: string)
    requires a != b
    ensures Codes(a) != Codes(b)
  {
    if |a| == |b| {
      var i :| 0 <= i < |a| && a[i] != b[i];
      assert Codes(a)[i] != Codes(b)[i];
    } else {
      assert |Codes(a)| != |Codes(b)|;
    }
  }

  /** Before the first element that is not smaller, so equal keys keep their order. */
  function Insert<T>(key: T -> seq<int>, e: T, s: seq<T>): (r: seq<T>)
    ensures |r| == |s| + 1
  {
    if s == [] || !Before(key(s[0]), key(e)) then [e] + s else [s[0]] + Insert(key, e, s[1..])
  }

  function Sort<T>(key: T -> seq<int>, s: seq<T>): (r: seq<T>)
    ensures |r| == |s|
  {
    if s == [] then [] else Insert(key, s[0], Sort(key, s[1..]))
  }

  predicate Increasing<T>(key: T -> seq<int>, s: seq<T>) {
    |s| < 2 || (Before(key(s[0]), key(s[1])) && Increasing(key, s[1..]))
  }

  predicate DistinctBy<T>(key: T -> seq<int>, s: seq<T>) {
    forall i, j :: 0 <= i < j < |s| ==> key(s[i]) != key(s[j])
  }

  ghost function Elements<T>(s: seq<T>): set<T> { set e | e in s }

  lemma ElementsCons<T>(e: T, s: seq<T>)
    ensures Elements([e] + s) == {e} + Elements(s)
  {
  }

  lemma {:induction false} InsertedElements<T>(key: T -> seq<int>, e: T, s: seq<T>)
    ensures Elements(Insert(key, e, s)) == {e} + Elements(s)
  {
    if s == [] || !Before(key(s[0]), key(e)) {
      ElementsCons(e, s);
    } else {
      InsertedElements(key, e, s[1..]);
      ElementsCons(s[0], Insert(key, e, s[1..]));
      ElementsCons(s[0], s[1..]);
      assert s == [s[0]] + s[1..];
    }
  }

  lemma {:induction false} SortedElements<T>(key: T -> seq<int>, s: seq<T>)
    ensures Elements(Sort(key, s)) == Elements(s)
  {
    if s != [] {
      SortedElements(key, s[1..]);
      InsertedElements(key, s[0], Sort(key, s[1..]));
      ElementsCons(s[0], s[1..]);
      assert s == [s[0]] + s[1..];
    }
  }

  lemma {:induction false} InsertIncreasing<T>(key: T -> seq<int>, e: T, s: seq<T>)
    requires Increasing(key, s) && forall x :: x in s ==> key(x) != key(e)
    ensures Increasing(key, Insert(key, e, s))
  {
    if s != [] && Before(key(s[0]), key(e)) {
      InsertIncreasing(key, e, s[1..]);
      var r := Insert(key, e, s);
      assert r[1..] == Insert(key, e, s[1..]);
      assert r[1] == e || r[1] == s[1];
    } else {
      assert ([e] + s)[1..] == s;
      if s != [] {
        BeforeTotal(key(e), key(s[0]));
      }
    }
  }

  lemma {:induction false} SortIncreasing<T>(key: T -> seq<int>, s: seq<T>)
    requires DistinctBy(key, s)
    ensures Increasing(key, Sort(key, s))
  {
    if s != [] {
      SortIncreasing(key, s[1..]);
      SortedElements(key, s[1..]);
      forall x | x in Sort(key, s[1..]) ensures key(x) != key(s[0]) {
        assert x in Elements(s[1..]);
      }
      InsertIncreasing(key, s[0], Sort(key, s[1..]));
    }
  }

  /** Sorting leaves an increasing list as it is. */
  lemma {:induction false} SortedStays<T>(key: T -> seq<int>, s: seq<T>)
    requires Increasing(key, s)
    ensures Sort(key, s) == s
  {
    if s != [] {
      SortedStays(key, s[1..]);
      if |s| > 1 {
        NeverBothBefore(key(s[0]), key(s[1]));
      }
      assert s == [s[0]] + s[1..];
    }
  }

  /** The first of an increasing list is before all others. */
  lemma {:induction false} FirstIsBefore<T>(key: T -> seq<int>, s: seq<T>, k: nat)
    requires Increasing(key, s) && 0 < k < |s|
    ensures Before(key(s[0]), key(s[k]))
  {
    if k > 1 {
      FirstIsBefore(key, s[1..], k - 1);
      BeforeTransitive(key(s[0]), key(s[1]), key(s[k]));
    }
  }

  lemma {:induction false} FirstIsLeast<T>(key: T -> seq<int>, s: seq<T>, x: T)
    requires Increasing(key, s) && x in s
    ensures x == s[0] || Before(key(s[0]), key(x))
  {
    var k :| 0 <= k < |s| && s[k] == x;
    if k > 0 {
      FirstIsBefore(key, s, k);
    }
  }

  lemma {:induction false} RestOfElements<T>(key: T -> seq<int>, s: seq<T>)
    requires s != [] && Increasing(key, s)
    ensures Elements(s[1..]) == Elements(s) - {s[0]}
  {
    assert s == [s[0]] + s[1..];
    ElementsCons(s[0], s[1..]);
    if s[0] in s[1..] {
      var k :| 0 <= k < |s[1..]| && s[1..][k] == s[0];
      FirstIsBefore(key, s, k + 1);
      BeforeIrreflexive(key(s[0]));
    }
  }

  lemma FirstIsElement<T>(s: seq<T>)
    ensures s == [] || s[0] in Elements(s)
  {
  }

  /** An increasing list is determined by its elements. */
  lemma {:induction false} IncreasingUnique<T>(key: T -> seq<int>, a: seq<T>, b: seq<T>)
    requires Increasing(key, a) && Increasing(key, b) && Elements(a) == Elements(b)
    ensures a == b
  {
    FirstIsElement(a);
    FirstIsElement(b);
    if a != [] && b != [] {
      assert a[0] in Elements(b);
      assert b[0] in Elements(a);
      FirstIsLeast(key, b, a[0]);
      FirstIsLeast(key, a, b[0]);
      NeverBothBefore(key(a[0]), key(b[0]));
      RestOfElements(key, a);
      RestOfElements(key, b);
      IncreasingUnique(key, a[1..], b[1..]);
      assert a == [a[0]] + a[1..] && b == [b[0]] + b[1..];
    }
  }

  /** Increasing keys are distinct keys. */
  lemma {:induction false} IncreasingDistinct<T>(key: T -> seq<int>, s: seq<T>)
    requires Increasing(key, s)
    ensures DistinctBy(key, s)
  {
    if |s| >= 2 {
      IncreasingDistinct(key, s[1..]);
      forall k | 0 < k < |s| ensures key(s[0]) != key(s[k]) {
        FirstIsBefore(key, s, k);
        BeforeIrreflexive(key(s[0]));
      }
      assert forall i :: 0 < i < |s| ==> s[i] == s[1..][i - 1];
    }
  }

  lemma {:induction false} InsertedDistinct<T>(key: T -> seq<int>, e: T, s: seq<T>)
    requires DistinctBy(key, Insert(key, e, s))
    ensures DistinctBy(key, [e] + s)
  {
    var r := Insert(key, e, s);
    if s != [] && Before(key(s[0]), key(e)) {
      assert r[1..] == Insert(key, e, s[1..]);
      forall i, j | 0 <= i < j < |r[1..]| ensures key(r[1..][i]) != key(r[1..][j]) {
        assert r[1..][i] == r[i + 1] && r[1..][j] == r[j + 1];
      }
      InsertedDistinct(key, e, s[1..]);
      InsertedElements(key, e, s[1..]);
      forall x | x in [e] + s[1..] ensures key(s[0]) != key(x) {
        assert x in Elements(Insert(key, e, s[1..]));
        var k :| 0 <= k < |r[1..]| && r[1..][k] == x;
        assert r[k + 1] == x && key(r[0]) != key(r[k + 1]);
      }
      DistinctSwap(key, e, s);
    }
  }

  lemma DistinctSwap<T>(key: T -> seq<int>, e: T, s: seq<T>)
    requires s != [] && DistinctBy(key, [e] + s[1..]) && forall x :: x in [e] + s[1..] ==> key(s[0]) != key(x)
    ensures DistinctBy(key, [e] + s)
  {
    var t, u := [e] + s[1..], [e] + s;
    assert forall i :: 2 <= i < |u| ==> u[i] == t[i - 1] && t[i - 1] in t;
    assert e == t[0] && e in t;
  }

  /** Sorting neither makes nor hides equal keys. */
  lemma {:induction false} SortedDistinct<T>(key: T -> seq<int>, s: seq<T>)
    requires DistinctBy(key, Sort(key, s))
    ensures DistinctBy(key, s)
  {
    if s != [] {
      InsertedDistinct(key, s[0], Sort(key, s[1..]));
      var r := [s[0]] + Sort(key, s[1..]);
      forall i, j | 0 <= i < j < |s| - 1 ensures key(Sort(key, s[1..])[i]) != key(Sort(key, s[1..])[j]) {
        assert r[i + 1] == Sort(key, s[1..])[i] && r[j + 1] == Sort(key, s[1..])[j];
      }
      SortedDistinct(key, s[1..]);
      SortedElements(key, s[1..]);
      forall j | 0 < j < |s| ensures key(s[0]) != key(s[j]) {
        assert s[j] in Elements(s[1..]);
        var k :| 0 <= k < |Sort(key, s[1..])| && Sort(key, s[1..])[k] == s[j];
        assert r[k + 1] == s[j] && key(r[0]) != key(r[k + 1]);
      }
      assert forall i :: 0 < i < |s| ==> s[i] == s[1..][i - 1];
    }
  }

  // ------------------------------------------------------------ sorting images

  function Mapped<T, U>(f: T -> U, s: seq<T>): (r: seq<U>)
    ensures |r| == |s| && forall i :: 0 <= i < |s| ==> r[i] == f(s[i])
  {
    seq(|s|, i requires 0 <= i < |s| => f(s[i]))
  }

  lemma {:induction false} InsertMapped<T, U>(f: T -> U, kt: T -> seq<int>, ku: U -> seq<int>, e: T, s: seq<T>)
    requires forall x :: ku(f(x)) == kt(x)
    ensures Insert(ku, f(e), Mapped(f, s)) == Mapped(f, Insert(kt, e, s))
  {
    if s != [] && Before(kt(s[0]), kt(e)) {
      InsertMapped(f, kt, ku, e, s[1..]);
      assert Mapped(f, s)[1..] == Mapped(f, s[1..]);
    }
  }

  /** Sorting images by a key that the elements have themselves is sorting the elements. */
  lemma {:induction false} SortMapped<T, U>(f: T -> U, kt: T -> seq<int>, ku: U -> seq<int>, s: seq<T>)
    requires forall x :: ku(f(x)) == kt(x)
    ensures Sort(ku, Mapped(f, s)) == Mapped(f, Sort(kt, s))
  {
    if s != [] {
      SortMapped(f, kt, ku, s[1..]);
      InsertMapped(f, kt, ku, s[0], Sort(kt, s[1..]));
      assert Mapped(f, s)[1..] == Mapped(f, s[1..]);
    }
  }
}
