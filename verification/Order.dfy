/** Strict total orders, sorting a set by one, and the order in which Python compares strings. */
module Order {
  import opened Sequences

  ghost predicate StrictTotal<T(!new)>(less: (T, T) -> bool) {
    && (forall x :: !less(x, x))
    && (forall x, y, z :: less(x, y) && less(y, z) ==> less(x, z))
    && (forall x, y :: less(x, y) || x == y || less(y, x))
  }

  predicate Ascending<T>(s: seq<T>, less: (T, T) -> bool) {
    forall i, j :: 0 <= i < j < |s| ==> less(s[i], s[j])
  }

  predicate IsLeast<T(==)>(m: T, elems: set<T>, less: (T, T) -> bool) {
    m in elems && forall y :: y in elems && y != m ==> less(m, y)
  }

  lemma {:induction false} LeastExists<T(!new)>(elems: set<T>, less: (T, T) -> bool)
    requires StrictTotal(less) && elems != {}
    ensures exists m :: IsLeast(m, elems, less)
  {
    var x :| x in elems;
    if elems == {x} {
      assert IsLeast(x, elems, less);
    } else {
      LeastExists(elems - {x}, less);
      var m :| IsLeast(m, elems - {x}, less);
      assert IsLeast(if less(m, x) then m else x, elems, less);
    }
  }

  lemma {:induction false} LeastFirst<T(!new)>(m: T, rest: seq<T>, elems: set<T>, less: (T, T) -> bool)
    requires IsLeast(m, elems, less) && Ascending(rest, less) && Elements(rest) == elems - {m}
    ensures Ascending([m] + rest, less) && Elements([m] + rest) == elems
  {
    assert forall k :: 0 <= k < |rest| ==> rest[k] in Elements(rest);
    assert Elements([m] + rest) == {m} + Elements(rest);
  }

  /** `sorted(elems)` for a set. */
  function Sorted<T(==, !new)>(elems: set<T>, less: (T, T) -> bool): (s: seq<T>)
    requires StrictTotal(less)
    ensures Ascending(s, less) && Elements(s) == elems && |s| == |elems|
    decreases |elems|
  {
    if elems == {} then []
    else
      LeastExists(elems, less);
      var m :| IsLeast(m, elems, less);
      var rest := Sorted(elems - {m}, less);
      LeastFirst(m, rest, elems, less);
      [m] + rest
  }

  /** Only one sequence lists given elements in ascending order. */
  lemma {:induction false} AscendingIsUnique<T(!new)>(s: seq<T>, t: seq<T>, less: (T, T) -> bool)
    requires StrictTotal(less) && Ascending(s, less) && Ascending(t, less)
    requires Elements(s) == Elements(t)
    ensures s == t
  {
    assert s == [] <==> t == [] by {
      if s != [] { assert s[0] in Elements(t); }
      if t != [] { assert t[0] in Elements(s); }
    }
    if s != [] {
      assert s[0] in Elements(t) && t[0] in Elements(s);
      assert s[0] == t[0];
      assert forall x :: x in s[1..] <==> x in Elements(s) && x != s[0];
      assert forall x :: x in t[1..] <==> x in Elements(t) && x != t[0];
      assert Elements(s[1..]) == Elements(t[1..]);
      AscendingIsUnique(s[1..], t[1..], less);
    }
  }

  // ---------------------------------------------------------------- strings and pairs

  /** Code-point by code-point comparison of strings. */
  predicate StringLess(a: string, b: string) {
    if b == [] then false
    else if a == [] then true
    else a[0] < b[0] || (a[0] == b[0] && StringLess(a[1..], b[1..]))
  }

  /** The smaller string is a proper prefix of the other, or has the smaller character where the
      two first differ. */
  lemma {:induction false} StringLessMeans(a: string, b: string)
    ensures StringLess(a, b) <==>
            || (a <= b && |a| < |b|)
            || exists k :: 0 <= k < |a| && k < |b| && DiffersUp(a, b, k)
  {
    if a != [] && b != [] && a[0] == b[0] {
      StringLessMeans(a[1..], b[1..]);
      assert a == [a[0]] + a[1..] && b == [b[0]] + b[1..];
      if k :| 0 <= k < |a[1..]| && k < |b[1..]| && DiffersUp(a[1..], b[1..], k) {
        assert a[..k + 1] == [a[0]] + a[1..][..k] && b[..k + 1] == [b[0]] + b[1..][..k];
        assert DiffersUp(a, b, k + 1);
      }
      if k :| 0 <= k < |a| && k < |b| && DiffersUp(a, b, k) {
        assert a[1..][..k - 1] == a[..k][1..] && b[1..][..k - 1] == b[..k][1..];
        assert DiffersUp(a[1..], b[1..], k - 1);
      }
    } else if a != [] && b != [] {
      assert a[0] < b[0] ==> DiffersUp(a, b, 0);
      forall k | 0 <= k < |a| && k < |b| && DiffersUp(a, b, k)
        ensures a[0] < b[0]
      {
        SamePrefix(a, b, k);
      }
    }
  }

  lemma {:induction false} SamePrefix(a: string, b: string, k: nat)
    requires k < |a| && k < |b| && DiffersUp(a, b, k)
    ensures a[0] <= b[0] && (k > 0 ==> a[0] == b[0]) && (k == 0 ==> a[0] < b[0])
  {
    assert k > 0 ==> a[0] == a[..k][0] && b[0] == b[..k][0];
  }

  predicate DiffersUp(a: string, b: string, k: nat)
    requires k < |a| && k < |b|
  {
    a[..k] == b[..k] && a[k] < b[k]
  }

  lemma {:induction false} StringLessTransitive(a: string, b: string, c: string)
    requires StringLess(a, b) && StringLess(b, c)
    ensures StringLess(a, c)
  {
    if a != [] && a[0] == b[0] == c[0] {
      StringLessTransitive(a[1..], b[1..], c[1..]);
    }
  }

  lemma {:induction false} StringLessTotal(a: string, b: string)
    ensures StringLess(a, b) || a == b || StringLess(b, a)
    ensures a == b ==> !StringLess(a, b)
  {
    if a != [] && b != [] && a[0] == b[0] {
      StringLessTotal(a[1..], b[1..]);
      assert a == [a[0]] + a[1..] && b == [b[0]] + b[1..];
    }
  }

  lemma {:induction false} StringsAreOrdered()
    ensures StrictTotal(StringLess)
  {
    forall x, y
      ensures StringLess(x, y) || x == y || StringLess(y, x)
      ensures !StringLess(x, x)
    {
      StringLessTotal(x, y);
      StringLessTotal(x, x);
    }
    forall x, y, z | StringLess(x, y) && StringLess(y, z)
      ensures StringLess(x, z)
    {
      StringLessTransitive(x, y, z);
    }
  }

  /** Comparison of pairs of strings, first component first. */
  predicate PairLess(p: (string, string), q: (string, string)) {
    StringLess(p.0, q.0) || (p.0 == q.0 && StringLess(p.1, q.1))
  }

  lemma {:induction false} PairsAreOrdered()
    ensures StrictTotal(PairLess)
  {
    forall p, q
      ensures PairLess(p, q) || p == q || PairLess(q, p)
      ensures !PairLess(p, p)
    {
      StringLessTotal(p.0, q.0);
      StringLessTotal(p.1, q.1);
      StringLessTotal(p.0, p.0);
      StringLessTotal(p.1, p.1);
    }
    forall p, q, r | PairLess(p, q) && PairLess(q, r)
      ensures PairLess(p, r)
    {
      StringsAreOrdered();
    }
  }

  function SortedStrings(elems: set<string>): (s: seq<string>)
    ensures Ascending(s, StringLess) && Elements(s) == elems && |s| == |elems|
  {
    StringsAreOrdered();
    Sorted(elems, StringLess)
  }

  function SortedPairs(elems: set<(string, string)>): (s: seq<(string, string)>)
    ensures Ascending(s, PairLess) && Elements(s) == elems && |s| == |elems|
  {
    PairsAreOrdered();
    Sorted(elems, PairLess)
  }
}
