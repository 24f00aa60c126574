/** List comprehensions with a condition, and how they act on reordered lists. */
module Selection {
  function Filter<T>(s: seq<T>, keep: T -> bool): seq<T> {
    if s == [] then []
    else if keep(s[0]) then [s[0]] + Filter(s[1..], keep)
    else Filter(s[1..], keep)
  }

  lemma {:induction false} FilterConcat<T>(s: seq<T>, t: seq<T>, keep: T -> bool)
    ensures Filter(s + t, keep) == Filter(s, keep) + Filter(t, keep)
  {
    if s == [] {
      assert s + t == t;
    } else {
      FilterConcat(s[1..], t, keep);
      assert (s + t)[1..] == s[1..] + t;
      assert keep(s[0]) ==> Filter(s, keep) + Filter(t, keep) == [s[0]] + (Filter(s[1..], keep) + Filter(t, keep));
    }
  }

  lemma {:induction false} FilterCounts<T>(s: seq<T>, keep: T -> bool, x: T)
    ensures multiset(Filter(s, keep))[x] == if keep(x) then multiset(s)[x] else 0
  {
    if s == [] {
    } else {
      FilterCounts(s[1..], keep, x);
      assert s == [s[0]] + s[1..];
    }
  }

  lemma {:induction false} FilterAll<T>(s: seq<T>, keep: T -> bool)
    requires forall x :: x in s ==> keep(x)
    ensures Filter(s, keep) == s
  {
    if s == [] {
    } else {
      FilterAll(s[1..], keep);
    }
  }

  lemma FilterMember<T>(s: seq<T>, keep: T -> bool, x: T)
    ensures x in Filter(s, keep) <==> x in s && keep(x)
  {
  }

  /** Selecting from a reordering selects a reordering. */
  lemma FilterPermuted<T(!new)>(s: seq<T>, t: seq<T>, keep: T -> bool)
    requires multiset(s) == multiset(t)
    ensures multiset(Filter(s, keep)) == multiset(Filter(t, keep))
    ensures |Filter(s, keep)| == |Filter(t, keep)|
  {
    forall x ensures multiset(Filter(s, keep))[x] == multiset(Filter(t, keep))[x] {
      FilterCounts(s, keep, x);
      FilterCounts(t, keep, x);
    }
    assert |multiset(Filter(s, keep))| == |Filter(s, keep)|;
    assert |multiset(Filter(t, keep))| == |Filter(t, keep)|;
  }

  function Not<T>(keep: T -> bool): T -> bool { x => !keep(x) }

  /** A selection and its complement make up the list. */
  lemma FilterSplit<T(!new)>(s: seq<T>, keep: T -> bool)
    ensures multiset(s) == multiset(Filter(s, keep)) + multiset(Filter(s, Not(keep)))
  {
    forall x ensures multiset(s)[x] == multiset(Filter(s, keep))[x] + multiset(Filter(s, Not(keep)))[x] {
      FilterCounts(s, keep, x);
      FilterCounts(s, Not(keep), x);
    }
  }
}
