/** Python's `sorted`, as a stable insertion sort over an explicit order, and the
    code-point order on strings. */
module Sorting {
  ghost predicate TotalPreorder<T(!new)>(le: (T, T) -> bool) {
    && (forall x, y :: le(x, y) || le(y, x))
    && (forall x, y, z :: le(x, y) && le(y, z) ==> le(x, z))
  }

  ghost predicate Ordered<T>(s: seq<T>, le: (T, T) -> bool) {
    forall i, j :: 0 <= i < j < |s| ==> le(s[i], s[j])
  }

  ghost predicate Distinct<T>(s: seq<T>) {
    forall i, j :: 0 <= i < j < |s| ==> s[i] != s[j]
  }

  ghost function Elems<T>(s: seq<T>): set<T> {
    set i | 0 <= i < |s| :: s[i]
  }

  function Insert<T>(x: T, s: seq<T>, le: (T, T) -> bool): seq<T> {
    if s == [] || le(x, s[0]) then [x] + s else [s[0]] + Insert(x, s[1..], le)
  }

  function Sort<T>(s: seq<T>, le: (T, T) -> bool): seq<T> {
    if s == [] then [] else Insert(s[0], Sort(s[1..], le), le)
  }

  lemma {:induction false} InsertPermutes<T>(x: T, s: seq<T>, le: (T, T) -> bool)
    ensures multiset(Insert(x, s, le)) == multiset{x} + multiset(s)
  {
    if s == [] || le(x, s[0]) {
    } else {
      InsertPermutes(x, s[1..], le);
      assert s == [s[0]] + s[1..];
    }
  }

  lemma {:induction false} SortPermutes<T>(s: seq<T>, le: (T, T) -> bool)
    ensures multiset(Sort(s, le)) == multiset(s)
    ensures |Sort(s, le)| == |s|
  {
    if s == [] {
    } else {
      SortPermutes(s[1..], le);
      InsertPermutes(s[0], Sort(s[1..], le), le);
      assert s == [s[0]] + s[1..];
    }
    assert |multiset(Sort(s, le))| == |Sort(s, le)|;
  }

  lemma SamePermutedElems<T>(s: seq<T>, t: seq<T>)
    requires multiset(s) == multiset(t)
    ensures Elems(s) == Elems(t)
  {
    forall x ensures x in Elems(s) <==> x in Elems(t) {
      assert x in s <==> x in multiset(s);
      assert x in t <==> x in multiset(t);
    }
  }

  lemma DistinctIffCounted<T>(s: seq<T>)
    ensures Distinct(s) <==> forall x :: multiset(s)[x] <= 1
  {
    if s == [] {
    } else {
      var r := s[1..];
      assert s == [s[0]] + r;
      assert multiset(s) == multiset{s[0]} + multiset(r);
      DistinctIffCounted(r);
      if Distinct(s) {
        assert Distinct(r);
        assert s[0] !in r;
        assert multiset(r)[s[0]] == 0;
      }
      if forall x :: multiset(s)[x] <= 1 {
        forall x ensures multiset(r)[x] <= 1 { assert multiset(s)[x] <= 1; }
        assert multiset(s)[s[0]] <= 1;
        assert s[0] !in multiset(r);
        assert s[0] !in r;
        forall i, j | 0 <= i < j < |s| ensures s[i] != s[j] {
          assert s[j] == r[j - 1];
          if i > 0 { assert s[i] == r[i - 1]; }
        }
      }
    }
  }

  lemma {:induction false} InsertOrdered<T(!new)>(x: T, s: seq<T>, le: (T, T) -> bool)
    requires TotalPreorder(le) && Ordered(s, le)
    ensures Ordered(Insert(x, s, le), le)
  {
    if s == [] {
    } else if le(x, s[0]) {
    } else {
      InsertOrdered(x, s[1..], le);
      InsertPermutes(x, s[1..], le);
      var r := Insert(x, s[1..], le);
      forall k | 0 <= k < |r| ensures le(s[0], r[k]) {
        assert r[k] in multiset(r);
        assert r[k] == x || r[k] in s[1..];
      }
    }
  }

  lemma {:induction false} SortOrdered<T(!new)>(s: seq<T>, le: (T, T) -> bool)
    requires TotalPreorder(le)
    ensures Ordered(Sort(s, le), le)
  {
    if s == [] {
    } else {
      SortOrdered(s[1..], le);
      InsertOrdered(s[0], Sort(s[1..], le), le);
    }
  }

  /** Code-point order, the order of `sorted` on strings. */
  predicate LexLe(a: string, b: string) {
    a == [] || (b != [] && (a[0] < b[0] || (a[0] == b[0] && LexLe(a[1..], b[1..]))))
  }

  lemma {:induction false} LexTotal(a: string, b: string)
    ensures LexLe(a, b) || LexLe(b, a)
    ensures LexLe(a, b) && LexLe(b, a) ==> a == b
  {
    if a == [] || b == [] || a[0] != b[0] {
    } else {
      LexTotal(a[1..], b[1..]);
      assert a == [a[0]] + a[1..] && b == [b[0]] + b[1..];
    }
  }

  lemma {:induction false} LexTransitive(a: string, b: string, c: string)
    requires LexLe(a, b) && LexLe(b, c)
    ensures LexLe(a, c)
  {
    if a == [] || a[0] != b[0] || b[0] != c[0] {
    } else {
      LexTransitive(a[1..], b[1..], c[1..]);
    }
  }

  lemma LexPreorder()
    ensures TotalPreorder(LexLe)
  {
    forall x, y ensures LexLe(x, y) || LexLe(y, x) { LexTotal(x, y); }
    forall x, y, z | LexLe(x, y) && LexLe(y, z) ensures LexLe(x, z) { LexTransitive(x, y, z); }
  }

  lemma {:induction false} DistinctSize<T>(q: seq<T>)
    requires Distinct(q)
    ensures |Elems(q)| == |q|
  {
    if q == [] {
    } else {
      DistinctSize(q[1..]);
      assert Elems(q) == {q[0]} + Elems(q[1..]) by {
        forall x | x in Elems(q) ensures x in {q[0]} + Elems(q[1..]) {
          var i :| 0 <= i < |q| && q[i] == x;
          if i > 0 { assert q[1..][i - 1] == x; }
        }
        forall x | x in Elems(q[1..]) ensures x in Elems(q) {
          var i :| 0 <= i < |q| - 1 && q[1..][i] == x;
          assert q[i + 1] == x;
        }
      }
      assert q[0] !in Elems(q[1..]);
    }
  }

  /** `list(s)` for a set or dict view: its elements once each, in some order. */
  method ListOf<T(==)>(s: set<T>) returns (q: seq<T>)
    ensures Elems(q) == s && Distinct(q) && |q| == |s|
  {
    q := [];
    var rest := s;
    while rest != {}
      invariant rest <= s && Elems(q) == s - rest && Distinct(q) && |q| + |rest| == |s|
      decreases |rest|
    {
      var x :| x in rest;
      assert x !in Elems(q);
      var q' := q + [x];
      assert forall i :: 0 <= i < |q| ==> q[i] in Elems(q);
      assert Elems(q') == Elems(q) + {x} by {
        assert q'[|q|] == x;
        forall y | y in Elems(q) ensures y in Elems(q') {
          var i :| 0 <= i < |q| && q[i] == y;
          assert q'[i] == y;
        }
      }
      q, rest := q', rest - {x};
    }
  }

  /** `sorted` on a list of distinct strings: strictly increasing, same members. */
  lemma SortDistinctStrings(q: seq<string>)
    requires Distinct(q)
    ensures Ordered(Sort(q, LexLe), LexLe) && Distinct(Sort(q, LexLe))
    ensures Elems(Sort(q, LexLe)) == Elems(q) && |Sort(q, LexLe)| == |q|
  {
    LexPreorder();
    SortOrdered(q, LexLe);
    SortPermutes(q, LexLe);
    SamePermutedElems(q, Sort(q, LexLe));
    DistinctIffCounted(q);
    DistinctIffCounted(Sort(q, LexLe));
  }
}
