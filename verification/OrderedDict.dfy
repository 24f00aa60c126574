/** Python's insertion-ordered `dict`, as its items in iteration order, and the recency
    order that move-to-end bookkeeping is measured against. */
module OrderedDict {
  import opened Options
  import opened Sorting

  type Dict<K, V> = seq<(K, V)>

  function Keys<K, V>(d: Dict<K, V>): seq<K> {
    seq(|d|, i requires 0 <= i < |d| => d[i].0)
  }

  function Lookup<K(==), V>(d: Dict<K, V>, k: K): Option<V> {
    if d == [] then None else if d[0].0 == k then Some(d[0].1) else Lookup(d[1..], k)
  }

  /** `d.pop(k, None)` */
  function Remove<K(==), V>(d: Dict<K, V>, k: K): Dict<K, V> {
    if d == [] then [] else if d[0].0 == k then d[1..] else [d[0]] + Remove(d[1..], k)
  }

  /** `d[k] = v`: an existing key keeps its place. */
  function Put<K(==), V>(d: Dict<K, V>, k: K, v: V): Dict<K, V> {
    if d == [] then [(k, v)] else if d[0].0 == k then [(k, v)] + d[1..] else [d[0]] + Put(d[1..], k, v)
  }

  ghost predicate UniqueKeys<K, V>(d: Dict<K, V>) {
    Distinct(Keys(d))
  }

  function Without<K(==)>(ks: seq<K>, k: K): seq<K> {
    if ks == [] then [] else if ks[0] == k then Without(ks[1..], k) else [ks[0]] + Without(ks[1..], k)
  }

  function Suffix<T>(s: seq<T>, n: nat): seq<T> {
    if |s| <= n then s else s[|s| - n..]
  }

  // ---- dict laws ---------------------------------------------------------------

  lemma {:induction false} LookupIff<K, V>(d: Dict<K, V>, k: K)
    ensures Lookup(d, k).Some? <==> k in Keys(d)
  {
    if d == [] {
    } else {
      LookupIff(d[1..], k);
      assert Keys(d) == [d[0].0] + Keys(d[1..]);
    }
  }

  lemma {:induction false} LookupAt<K, V>(d: Dict<K, V>, i: nat)
    requires UniqueKeys(d) && i < |d|
    ensures Lookup(d, d[i].0) == Some(d[i].1)
  {
    if i == 0 {
    } else {
      assert Keys(d)[0] != Keys(d)[i];
      assert Keys(d)[1..] == Keys(d[1..]);
      LookupAt(d[1..], i - 1);
    }
  }

  lemma {:induction false} WithoutNone<K>(ks: seq<K>, k: K)
    requires k !in ks
    ensures Without(ks, k) == ks
  {
    if ks == [] {
    } else {
      WithoutNone(ks[1..], k);
    }
  }

  lemma {:induction false} WithoutConcat<K>(a: seq<K>, b: seq<K>, k: K)
    ensures Without(a + b, k) == Without(a, k) + Without(b, k)
  {
    if a == [] {
      assert a + b == b;
    } else {
      WithoutConcat(a[1..], b, k);
      assert (a + b)[1..] == a[1..] + b;
      if a[0] != k { ConcatAssociative([a[0]], Without(a[1..], k), Without(b, k)); }
    }
  }

  lemma ConcatAssociative<T>(x: seq<T>, y: seq<T>, z: seq<T>)
    ensures x + (y + z) == (x + y) + z
  {
  }

  lemma {:induction false} WithoutElems<K>(ks: seq<K>, k: K, x: K)
    ensures x in Without(ks, k) <==> x in ks && x != k
  {
    if ks == [] {
    } else {
      WithoutElems(ks[1..], k, x);
    }
  }

  lemma {:induction false} WithoutDistinct<K>(ks: seq<K>, k: K)
    requires Distinct(ks)
    ensures Distinct(Without(ks, k))
    ensures k in ks ==> |Without(ks, k)| == |ks| - 1
  {
    if ks == [] {
    } else {
      WithoutDistinct(ks[1..], k);
      if ks[0] == k {
        WithoutNone(ks[1..], k);
      } else {
        WithoutElems(ks[1..], k, ks[0]);
        assert ks[0] !in ks[1..];
      }
    }
  }

  lemma KeysSplit<K, V>(d: Dict<K, V>)
    requires d != []
    ensures Keys(d) == [d[0].0] + Keys(d[1..])
    ensures UniqueKeys(d) ==> UniqueKeys(d[1..]) && d[0].0 !in Keys(d[1..])
  {
    var ks, rest := Keys(d), Keys(d[1..]);
    if UniqueKeys(d) {
      forall i, j | 0 <= i < j < |rest| ensures rest[i] != rest[j] { assert ks[i + 1] != ks[j + 1]; }
      forall j | 0 <= j < |rest| ensures rest[j] != d[0].0 { assert ks[0] != ks[j + 1]; }
    }
  }

  lemma {:induction false} RemoveKeys<K, V>(d: Dict<K, V>, k: K)
    requires UniqueKeys(d)
    ensures Keys(Remove(d, k)) == Without(Keys(d), k)
    ensures UniqueKeys(Remove(d, k))
  {
    if d == [] {
      assert Keys(Remove(d, k)) == Without(Keys(d), k);
    } else {
      hide UniqueKeys;
      KeysSplit(d);
      ConsKeys(d[0], d[1..]);
      if d[0].0 == k {
        WithoutNone(Keys(d[1..]), k);
      } else {
        RemoveKeys(d[1..], k);
        ConsKeys(d[0], Remove(d[1..], k));
      }
    }
    RemoveUnique(d, k);
  }

  lemma ConsKeys<K, V>(item: (K, V), d: Dict<K, V>)
    ensures Keys([item] + d) == [item.0] + Keys(d)
    ensures Keys([item] + d)[0] == item.0 && Keys([item] + d)[1..] == Keys(d)
  {
  }

  lemma RemoveUnique<K, V>(d: Dict<K, V>, k: K)
    requires UniqueKeys(d) && Keys(Remove(d, k)) == Without(Keys(d), k)
    ensures UniqueKeys(Remove(d, k))
  {
    WithoutDistinct(Keys(d), k);
  }

  lemma {:induction false} RemoveLookup<K, V>(d: Dict<K, V>, k: K, x: K)
    requires x != k
    ensures Lookup(Remove(d, k), x) == Lookup(d, x)
  {
    if d == [] {
    } else {
      RemoveLookup(d[1..], k, x);
    }
  }

  lemma {:induction false} AppendLookup<K, V>(d: Dict<K, V>, k: K, v: V, x: K)
    requires k !in Keys(d)
    ensures Lookup(d + [(k, v)], x) == if x == k then Some(v) else Lookup(d, x)
  {
    if d == [] {
      assert (d + [(k, v)])[1..] == [];
    } else {
      assert Keys(d) == [d[0].0] + Keys(d[1..]);
      AppendLookup(d[1..], k, v, x);
      assert (d + [(k, v)])[1..] == d[1..] + [(k, v)];
    }
  }

  lemma {:induction false} PutFresh<K, V>(d: Dict<K, V>, k: K, v: V)
    requires k !in Keys(d)
    ensures Put(d, k, v) == d + [(k, v)]
  {
    if d == [] {
    } else {
      assert Keys(d) == [d[0].0] + Keys(d[1..]);
      PutFresh(d[1..], k, v);
    }
  }

  lemma {:induction false} PutLookup<K, V>(d: Dict<K, V>, k: K, v: V, x: K)
    ensures Lookup(Put(d, k, v), x) == if x == k then Some(v) else Lookup(d, x)
  {
    if d == [] {
      assert Lookup([(k, v)][1..], x) == None;
    } else if d[0].0 == k {
      assert Put(d, k, v)[1..] == d[1..];
    } else {
      PutLookup(d[1..], k, v, x);
      assert Put(d, k, v)[1..] == Put(d[1..], k, v);
    }
  }

  lemma {:induction false} PutKeys<K, V>(d: Dict<K, V>, k: K, v: V)
    ensures Keys(Put(d, k, v)) == if k in Keys(d) then Keys(d) else Keys(d) + [k]
  {
    if d == [] {
      assert Keys([(k, v)]) == [k];
    } else {
      hide UniqueKeys, Keys;
      assert d == [d[0]] + d[1..];
      ConsKeys(d[0], d[1..]);
      if d[0].0 == k {
        ConsKeys((k, v), d[1..]);
      } else {
        PutKeys(d[1..], k, v);
        ConsKeys(d[0], Put(d[1..], k, v));
        ConcatAssociative([d[0].0], Keys(d[1..]), [k]);
      }
    }
  }

  lemma PutUnique<K, V>(d: Dict<K, V>, k: K, v: V)
    requires UniqueKeys(d)
    ensures UniqueKeys(Put(d, k, v))
  {
    PutKeys(d, k, v);
  }

  /** Dropping items from the front keeps the lookups of the keys that stay. */
  lemma {:induction false} DropLookup<K, V>(d: Dict<K, V>, n: nat, k: K)
    requires UniqueKeys(d) && n <= |d|
    ensures UniqueKeys(d[n..]) && Keys(d[n..]) == Keys(d)[n..]
    ensures Lookup(d[n..], k).Some? ==> Lookup(d[n..], k) == Lookup(d, k)
  {
    if n == 0 {
    } else {
      assert Keys(d[1..]) == Keys(d)[1..];
      DropLookup(d[1..], n - 1, k);
      assert d[1..][n - 1..] == d[n..];
      LookupIff(d[1..], k);
      assert Keys(d)[1..][n - 1..] == Keys(d)[n..];
      if Lookup(d[n..], k).Some? {
        LookupIff(d[n..], k);
        var j :| 0 <= j < |d| - n && Keys(d[n..])[j] == k;
        assert Keys(d)[n + j] == k;
        assert Keys(d)[0] != Keys(d)[n + j];
      }
    }
  }

  // ---- recency --------------------------------------------------------------------

  /** The distinct keys of a trace, ordered by last occurrence: least recent first. */
  function Recency<K(==)>(trace: seq<K>): seq<K> {
    if trace == [] then []
    else if trace[0] in trace[1..] then Recency(trace[1..])
    else [trace[0]] + Recency(trace[1..])
  }

  lemma {:induction false} RecencyElems<K>(trace: seq<K>, x: K)
    ensures x in Recency(trace) <==> x in trace
  {
    if trace == [] {
    } else {
      RecencyElems(trace[1..], x);
    }
  }

  lemma {:induction false} RecencyDistinct<K>(trace: seq<K>)
    ensures Distinct(Recency(trace))
  {
    if trace == [] {
    } else {
      RecencyDistinct(trace[1..]);
      RecencyElems(trace[1..], trace[0]);
    }
  }

  function LastUse<K(==)>(trace: seq<K>, k: K): nat
    requires k in trace
  {
    if k in trace[1..] then 1 + LastUse(trace[1..], k) else 0
  }

  lemma {:induction false} RecencyByLastUse<K>(trace: seq<K>, i: nat, j: nat)
    requires i < j < |Recency(trace)|
    ensures Recency(trace)[i] in trace && Recency(trace)[j] in trace
    ensures LastUse(trace, Recency(trace)[i]) < LastUse(trace, Recency(trace)[j])
  {
    var r, t := Recency(trace), trace[1..];
    forall x | x in r ensures x in trace { RecencyElems(trace, x); }
    RecencyElems(t, r[j]);
    if trace[0] in t {
      RecencyElems(t, r[i]);
      RecencyByLastUse(t, i, j);
    } else if i > 0 {
      RecencyElems(t, r[i]);
      RecencyByLastUse(t, i - 1, j - 1);
    }
  }

  /** One more use moves its key to the recent end. */
  lemma {:induction false} RecencyTouch<K>(trace: seq<K>, k: K)
    ensures Recency(trace + [k]) == Without(Recency(trace), k) + [k]
  {
    if trace == [] {
      assert Recency([k][1..]) == [];
    } else {
      var t := trace + [k];
      RecencyTouch(trace[1..], k);
      assert t[1..] == trace[1..] + [k];
      assert t[0] in t[1..] <==> trace[0] in trace[1..] || trace[0] == k;
      if trace[0] == k {
        if trace[0] !in trace[1..] {
          WithoutConcat([k], Recency(trace[1..]), k);
          assert Recency(trace)[1..] == Recency(trace[1..]);
        }
      } else if trace[0] !in trace[1..] {
        assert Recency(trace)[1..] == Recency(trace[1..]);
      }
    }
  }

  lemma RecencyLength<K>(trace: seq<K>)
    ensures |Recency(trace)| == |Elems(trace)|
  {
    RecencyDistinct(trace);
    DistinctSize(Recency(trace));
    assert Elems(Recency(trace)) == Elems(trace) by {
      forall x ensures x in Elems(Recency(trace)) <==> x in Elems(trace) {
        RecencyElems(trace, x);
        assert x in Elems(trace) <==> x in trace;
        assert x in Elems(Recency(trace)) <==> x in Recency(trace);
      }
    }
  }

  /** Touching a key of the recent part leaves the older part alone ... */
  lemma TouchHit<K>(older: seq<K>, recent: seq<K>, k: K)
    requires Distinct(older + recent) && k in recent
    ensures Without(older + recent, k) + [k] == older + (Without(recent, k) + [k])
    ensures |Without(recent, k)| == |recent| - 1
  {
    var r := older + recent;
    var i :| 0 <= i < |recent| && recent[i] == k;
    assert r[|older| + i] == k;
    assert forall j :: 0 <= j < |older| ==> r[j] != r[|older| + i] && r[j] == older[j];
    WithoutConcat(older, recent, k);
    WithoutNone(older, k);
    DistinctSuffix(older, recent);
    WithoutDistinct(recent, k);
  }

  lemma DistinctSuffix<K>(older: seq<K>, recent: seq<K>)
    requires Distinct(older + recent)
    ensures Distinct(recent)
  {
    var r := older + recent;
    forall i, j | 0 <= i < j < |recent| ensures recent[i] != recent[j] {
      assert r[|older| + i] != r[|older| + j];
    }
  }

  /** ... and touching any other key appends it. */
  lemma TouchMiss<K>(older: seq<K>, recent: seq<K>, k: K)
    requires k !in recent
    ensures Without(older + recent, k) + [k] == Without(older, k) + (recent + [k])
  {
    WithoutConcat(older, recent, k);
    WithoutNone(recent, k);
  }

  lemma SuffixConcat<T>(p: seq<T>, t: seq<T>, n: nat)
    requires p == [] || n <= |t|
    ensures Suffix(p + t, n) == Suffix(t, n)
  {
  }
}
