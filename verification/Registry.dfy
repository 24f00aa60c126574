/** hooks/validators/__init__.py: validators and the invariants of their registry. */
module Registry {
  import opened Options

  datatype Validator = Validator(id: string, patterns: seq<string>)

  /** `id.split("-", 1)[0]` */
  function VidPrefix(id: string): string {
    if id == "" || id[0] == '-' then "" else [id[0]] + VidPrefix(id[1..])
  }

  predicate IsDigit(c: char) { '0' <= c <= '9' }

  /** `^(V\d{2})-` */
  predicate HasVidForm(id: string) {
    |id| >= 4 && id[0] == 'V' && IsDigit(id[1]) && IsDigit(id[2]) && id[3] == '-'
  }

  lemma {:induction false} PrefixBeforeDash(p: string, rest: string)
    requires '-' !in p
    ensures VidPrefix(p + "-" + rest) == p
  {
    var s := p + "-" + rest;
    if p == "" {
    } else {
      PrefixBeforeDash(p[1..], rest);
      assert s[1..] == p[1..] + "-" + rest;
    }
  }

  /** The prefix is what stands before the first dash, or everything. */
  lemma PrefixIff(id: string, p: string)
    ensures VidPrefix(id) == p <==> '-' !in p && (id == p || exists rest :: id == p + "-" + rest)
  {
    hide VidPrefix;
    PrefixHasNoDash(id);
    PrefixSplits(id);
    if '-' !in p {
      if id == p { PrefixSplits(p); }
      if rest :| id == p + "-" + rest { PrefixBeforeDash(p, rest); }
    }
  }

  lemma {:induction false} PrefixSplits(id: string)
    ensures id == VidPrefix(id) || exists rest :: id == VidPrefix(id) + "-" + rest
    ensures '-' !in id ==> VidPrefix(id) == id
  {
    if id == "" {
    } else if id[0] == '-' {
      assert id == "" + "-" + id[1..];
    } else {
      PrefixSplits(id[1..]);
      if id[1..] != VidPrefix(id[1..]) {
        var rest :| id[1..] == VidPrefix(id[1..]) + "-" + rest;
        assert id == VidPrefix(id) + "-" + rest;
      } else {
        assert id == VidPrefix(id);
      }
    }
  }

  /** A well-formed id is a V, two digits, a dash, and anything. */
  lemma VidFormIff(id: string)
    ensures HasVidForm(id) <==> exists a, b, rest :: '0' <= a <= '9' && '0' <= b <= '9' && id == ['V', a, b, '-'] + rest
  {
    if HasVidForm(id) { assert id == ['V', id[1], id[2], '-'] + id[4..]; }
  }

  lemma {:induction false} PrefixHasNoDash(id: string)
    ensures '-' !in VidPrefix(id)
  {
    if id == "" || id[0] == '-' {
    } else {
      PrefixHasNoDash(id[1..]);
    }
  }

  /** The matched group and the split agree on well-formed ids. */
  lemma GroupIsPrefix(id: string)
    requires HasVidForm(id)
    ensures VidPrefix(id) == id[..3]
  {
    PrefixBeforeDash(id[..3], id[4..]);
    assert id == id[..3] + "-" + id[4..];
  }

  datatype Violation = EmptyId | BadForm | DuplicateId | PrefixCollision
  datatype Offence = Offence(at: nat, violation: Violation)

  ghost predicate UniquePrefixes(validators: seq<Validator>) {
    forall i, j :: 0 <= i < j < |validators| ==> VidPrefix(validators[i].id) != VidPrefix(validators[j].id)
  }

  ghost predicate RegistryOk(validators: seq<Validator>) {
    && (forall i :: 0 <= i < |validators| ==> HasVidForm(validators[i].id))
    && UniquePrefixes(validators)
  }

  lemma RegistryExtend(validators: seq<Validator>, v: Validator)
    ensures RegistryOk(validators + [v]) <==>
      && RegistryOk(validators) && HasVidForm(v.id)
      && forall i :: 0 <= i < |validators| ==> VidPrefix(validators[i].id) != VidPrefix(v.id)
  {
    hide HasVidForm, VidPrefix;
    var all := validators + [v];
    assert forall i :: 0 <= i < |validators| ==> all[i] == validators[i];
    assert all[|validators|] == v;
  }

  /** What the two loop variables have seen. */
  ghost predicate Seen(validators: seq<Validator>, ids: set<string>, prefixes: map<string, string>) {
    && (forall x :: x in ids <==> exists i :: 0 <= i < |validators| && validators[i].id == x)
    && (forall p :: p in prefixes <==> exists i :: 0 <= i < |validators| && VidPrefix(validators[i].id) == p)
    && (forall p :: p in prefixes ==> prefixes[p] in ids && VidPrefix(prefixes[p]) == p)
  }

  lemma SeenExtend(validators: seq<Validator>, ids: set<string>, prefixes: map<string, string>, v: Validator)
    requires Seen(validators, ids, prefixes)
    ensures Seen(validators + [v], ids + {v.id}, prefixes[VidPrefix(v.id) := v.id])
  {
    hide VidPrefix;
    var all := validators + [v];
    assert all[|validators|] == v;
    forall x | x in ids ensures exists i :: 0 <= i < |all| && all[i].id == x {
      var i :| 0 <= i < |validators| && validators[i].id == x;
      assert all[i] == validators[i];
    }
    forall p | p in prefixes ensures exists i :: 0 <= i < |all| && VidPrefix(all[i].id) == p {
      var i :| 0 <= i < |validators| && VidPrefix(validators[i].id) == p;
      assert all[i] == validators[i];
    }
  }

  /** `_assert_registry_invariants`: the registry passes exactly when every id has the V<NN>-
      form and no two share a prefix; otherwise the first offender is named. */
  method AssertRegistryInvariants(validators: seq<Validator>) returns (offence: Option<Offence>)
    ensures offence.None? <==> RegistryOk(validators)
    ensures offence.Some? ==> offence.value.at < |validators| && RegistryOk(validators[..offence.value.at])
    ensures offence.Some? ==> !RegistryOk(validators[..offence.value.at + 1])
  {
    hide RegistryOk, Seen, VidPrefix;
    var ids: set<string> := {};
    var prefixes: map<string, string> := map[];
    NothingSeen();
    for n := 0 to |validators|
      invariant RegistryOk(validators[..n]) && Seen(validators[..n], ids, prefixes)
    {
      var v := validators[n];
      assert validators[..n + 1] == validators[..n] + [v];
      RegistryExtend(validators[..n], v);
      if v.id == "" {
        OffenceStands(validators, n + 1);
        return Some(Offence(n, EmptyId));
      }
      if !HasVidForm(v.id) {
        OffenceStands(validators, n + 1);
        return Some(Offence(n, BadForm));
      }
      SeenClash(validators[..n], ids, prefixes, v);
      if v.id in ids {
        OffenceStands(validators, n + 1);
        return Some(Offence(n, DuplicateId));
      }
      GroupIsPrefix(v.id);
      var group := v.id[..3];
      if group in prefixes && prefixes[group] != v.id {
        OffenceStands(validators, n + 1);
        return Some(Offence(n, PrefixCollision));
      }
      SeenExtend(validators[..n], ids, prefixes, v);
      ids := ids + {v.id};
      prefixes := prefixes[group := v.id];
    }
    assert validators[..|validators|] == validators;
    return None;
  }

  lemma NothingSeen()
    ensures RegistryOk([]) && Seen([], {}, map[])
  {
  }

  lemma OffenceStands(validators: seq<Validator>, n: nat)
    requires n <= |validators| && !RegistryOk(validators[..n])
    ensures !RegistryOk(validators)
  {
  }

  /** A new id clashes exactly when its prefix is taken, and then either the id or the
      recorded owner of the prefix shows it. */
  lemma SeenClash(validators: seq<Validator>, ids: set<string>, prefixes: map<string, string>, v: Validator)
    requires Seen(validators, ids, prefixes)
    ensures (exists i :: 0 <= i < |validators| && VidPrefix(validators[i].id) == VidPrefix(v.id))
      <==> VidPrefix(v.id) in prefixes
    ensures v.id in ids ==> VidPrefix(v.id) in prefixes
    ensures VidPrefix(v.id) in prefixes && prefixes[VidPrefix(v.id)] == v.id ==> v.id in ids
  {
  }
}
