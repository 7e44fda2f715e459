/**
 JavaScript's `Map` as a value: pairs in insertion order, one pair a key. Setting a present key
 keeps its place; setting an absent key appends.
 */
module InsertionMaps {
  import opened Wrappers

  type Pairs<K, V> = seq<(K, V)>

  ghost predicate Distinct<K, V>(m: Pairs<K, V>) {
    forall i, j :: 0 <= i < j < |m| ==> m[i].0 != m[j].0
  }

  function Keys<K, V>(m: Pairs<K, V>): set<K> {
    set i | 0 <= i < |m| :: m[i].0
  }

  function Get<K(==), V>(m: Pairs<K, V>, k: K): (r: Option<V>)
    ensures r.Some? <==> k in Keys(m)
  {
    if m == [] then None
    else if m[0].0 == k then
      assert k == m[0].0;
      Some(m[0].1)
    else
      assert k in Keys(m) <==> k in Keys(m[1..]) by { KeysCons(m); }
      Get(m[1..], k)
  }

  lemma KeysCons<K, V>(m: Pairs<K, V>)
    requires m != []
    ensures Keys(m) == {m[0].0} + Keys(m[1..])
  {
    assert forall i :: 0 < i < |m| ==> m[i] == m[1..][i - 1];
  }

  lemma KeysConcat<K, V>(m: Pairs<K, V>, n: Pairs<K, V>)
    ensures Keys(m + n) == Keys(m) + Keys(n)
  {
    assert forall i :: 0 <= i < |n| ==> (m + n)[|m| + i] == n[i];
    assert forall i :: 0 <= i < |m| ==> (m + n)[i] == m[i];
  }

  function Delete<K(==), V>(m: Pairs<K, V>, k: K): Pairs<K, V> {
    if m == [] then []
    else if m[0].0 == k then Delete(m[1..], k)
    else [m[0]] + Delete(m[1..], k)
  }

  function Set<K(==), V>(m: Pairs<K, V>, k: K, v: V): Pairs<K, V> {
    if m == [] then [(k, v)]
    else if m[0].0 == k then [(k, v)] + m[1..]
    else [m[0]] + Set(m[1..], k, v)
  }

  /** The pairs whose key is kept, in their own order. */
  ghost function Restrict<K, V>(m: Pairs<K, V>, keep: set<K>): Pairs<K, V> {
    if m == [] then []
    else if m[0].0 in keep then [m[0]] + Restrict(m[1..], keep)
    else Restrict(m[1..], keep)
  }

  lemma {:induction false} DeleteIsRestrict<K, V>(m: Pairs<K, V>, k: K)
    ensures Delete(m, k) == Restrict(m, Keys(m) - {k})
  {
    DeleteIsRestrictTo(m, k, Keys(m));
  }

  lemma {:induction false} DeleteIsRestrictTo<K, V>(m: Pairs<K, V>, k: K, keep: set<K>)
    requires Keys(m) <= keep
    ensures Delete(m, k) == Restrict(m, keep - {k})
  {
    if m != [] {
      KeysCons(m);
      DeleteIsRestrictTo(m[1..], k, keep);
    }
  }

  lemma {:induction false} RestrictKeys<K, V>(m: Pairs<K, V>, keep: set<K>)
    ensures Keys(Restrict(m, keep)) == Keys(m) * keep
    ensures Distinct(m) ==> Distinct(Restrict(m, keep))
    ensures |Restrict(m, keep)| <= |m|
  {
    if m != [] {
      KeysCons(m);
      RestrictKeys(m[1..], keep);
      if m[0].0 in keep {
        var r := Restrict(m[1..], keep);
        KeysConcat([m[0]], r);
        assert Keys([m[0]]) == {m[0].0} by { KeysCons([m[0]]); }
        if Distinct(m) {
          DistinctTail(m);
        }
      } else if Distinct(m) {
        DistinctTail(m);
      }
    }
  }

  lemma DistinctTail<K, V>(m: Pairs<K, V>)
    requires m != [] && Distinct(m)
    ensures Distinct(m[1..]) && m[0].0 !in Keys(m[1..])
  {
  }

  lemma SnocDistinct<K, V>(m: Pairs<K, V>, x: (K, V))
    requires Distinct(m) && x.0 !in Keys(m)
    ensures Distinct(m + [x])
  {
  }

  lemma {:induction false} RestrictConcat<K, V>(m: Pairs<K, V>, n: Pairs<K, V>, keep: set<K>)
    ensures Restrict(m + n, keep) == Restrict(m, keep) + Restrict(n, keep)
  {
    if m == [] {
      assert m + n == n;
    } else {
      assert (m + n)[1..] == m[1..] + n;
      RestrictConcat(m[1..], n, keep);
    }
  }

  lemma {:induction false} RestrictTwice<K, V>(m: Pairs<K, V>, a: set<K>, b: set<K>)
    ensures Restrict(Restrict(m, a), b) == Restrict(m, a * b)
  {
    if m != [] {
      RestrictTwice(m[1..], a, b);
      if m[0].0 in a {
        assert ([m[0]] + Restrict(m[1..], a))[1..] == Restrict(m[1..], a);
      }
    }
  }

  /** Only the kept keys that occur matter. */
  lemma {:induction false} RestrictAgree<K, V>(m: Pairs<K, V>, a: set<K>, b: set<K>)
    requires Keys(m) * a == Keys(m) * b
    ensures Restrict(m, a) == Restrict(m, b)
  {
    if m != [] {
      KeysCons(m);
      assert m[0].0 in Keys(m) * a <==> m[0].0 in Keys(m) * b;
      forall x
        ensures x in Keys(m[1..]) * a <==> x in Keys(m[1..]) * b
      {
        assert x in Keys(m[1..]) ==> (x in Keys(m) * a <==> x in Keys(m) * b);
      }
      RestrictAgree(m[1..], a, b);
    }
  }

  lemma RestrictAll<K, V>(m: Pairs<K, V>, keep: set<K>)
    requires Keys(m) <= keep
    ensures Restrict(m, keep) == m
  {
    if m != [] {
      KeysCons(m);
      RestrictAll(m[1..], keep);
    }
  }

  lemma {:induction false} RestrictGet<K, V>(m: Pairs<K, V>, keep: set<K>, k: K)
    ensures Get(Restrict(m, keep), k) == if k in keep then Get(m, k) else None
  {
    if m != [] {
      RestrictGet(m[1..], keep, k);
      if m[0].0 in keep {
        assert ([m[0]] + Restrict(m[1..], keep))[1..] == Restrict(m[1..], keep);
      }
    } else {
      KeysOfEmpty<K, V>();
    }
  }

  lemma KeysOfEmpty<K, V>()
    ensures Keys<K, V>([]) == {}
  {
  }

  lemma {:induction false} SetAbsentAppends<K, V>(m: Pairs<K, V>, k: K, v: V)
    requires k !in Keys(m)
    ensures Set(m, k, v) == m + [(k, v)]
  {
    if m != [] {
      KeysCons(m);
      SetAbsentAppends(m[1..], k, v);
    }
  }

  lemma {:induction false} DeleteSize<K, V>(m: Pairs<K, V>, k: K)
    requires Distinct(m)
    ensures |Delete(m, k)| == if k in Keys(m) then |m| - 1 else |m|
    ensures Keys(Delete(m, k)) == Keys(m) - {k}
    ensures Distinct(Delete(m, k))
  {
    DeleteIsRestrict(m, k);
    RestrictKeys(m, Keys(m) - {k});
    if m != [] {
      KeysCons(m);
      DistinctTail(m);
      DeleteSize(m[1..], k);
    }
  }

  lemma {:induction false} DeleteGet<K, V>(m: Pairs<K, V>, k: K, x: K)
    ensures Get(Delete(m, k), x) == if x == k then None else Get(m, x)
  {
    if m != [] {
      DeleteGet(m[1..], k, x);
      if m[0].0 != k {
        assert ([m[0]] + Delete(m[1..], k))[1..] == Delete(m[1..], k);
      }
    } else {
      KeysOfEmpty<K, V>();
    }
  }

  lemma {:induction false} SetGet<K, V>(m: Pairs<K, V>, k: K, v: V, x: K)
    ensures Get(Set(m, k, v), x) == if x == k then Some(v) else Get(m, x)
  {
    if m != [] {
      SetGet(m[1..], k, v, x);
      assert Set(m, k, v)[1..] == if m[0].0 == k then m[1..] else Set(m[1..], k, v);
    } else {
      KeysOfEmpty<K, V>();
    }
  }

  /** Setting a present key changes its pair where it stands and nothing else. */
  lemma {:induction false} SetKeepsPlaces<K, V>(m: Pairs<K, V>, k: K, v: V)
    requires Distinct(m) && k in Keys(m)
    ensures |Set(m, k, v)| == |m|
    ensures forall i :: 0 <= i < |m| ==> Set(m, k, v)[i] == if m[i].0 == k then (k, v) else m[i]
  {
    KeysCons(m);
    if m[0].0 != k {
      DistinctTail(m);
      SetKeepsPlaces(m[1..], k, v);
    }
  }

  lemma {:induction false} SetKeys<K, V>(m: Pairs<K, V>, k: K, v: V)
    ensures Keys(Set(m, k, v)) == Keys(m) + {k}
    ensures Distinct(m) ==> Distinct(Set(m, k, v))
  {
    if m == [] {
      KeysCons([(k, v)]);
    } else {
      SetKeys(m[1..], k, v);
      KeysCons(m);
      var s := Set(m, k, v);
      KeysCons(s);
      assert s[1..] == if m[0].0 == k then m[1..] else Set(m[1..], k, v);
      if Distinct(m) {
        DistinctTail(m);
        assert s == [s[0]] + s[1..];
      }
    }
  }

  lemma {:induction false} KeysCount<K, V>(m: Pairs<K, V>)
    requires Distinct(m)
    ensures |Keys(m)| == |m|
  {
    if m != [] {
      DistinctTail(m);
      KeysCons(m);
      KeysCount(m[1..]);
    }
  }

  /** The keys behind `k` in insertion order. */
  ghost function KeysAfter<K, V>(m: Pairs<K, V>, k: K): set<K> {
    if m == [] then {}
    else if m[0].0 == k then Keys(m[1..])
    else KeysAfter(m[1..], k)
  }

  lemma {:induction false} KeysAfterDelete<K, V>(m: Pairs<K, V>, k: K, x: K)
    requires k != x && Distinct(m)
    ensures KeysAfter(Delete(m, x), k) == KeysAfter(m, k) - {x}
  {
    if m != [] {
      DistinctTail(m);
      if m[0].0 == k {
        DeleteSize(m[1..], x);
        assert Delete(m, x)[1..] == Delete(m[1..], x);
      } else {
        KeysAfterDelete(m[1..], k, x);
        if m[0].0 != x {
          assert Delete(m, x)[1..] == Delete(m[1..], x);
        } else {
          assert Delete(m, x) == Delete(m[1..], x);
        }
      }
    }
  }

  lemma {:induction false} NoneAfterLast<K, V>(m: Pairs<K, V>, x: (K, V))
    requires x.0 !in Keys(m)
    ensures KeysAfter(m + [x], x.0) == {}
  {
    if m != [] {
      KeysCons(m);
      assert (m + [x])[1..] == m[1..] + [x];
      NoneAfterLast(m[1..], x);
    } else {
      assert (m + [x])[1..] == [];
    }
  }

  lemma {:induction false} KeysAfterAppend<K, V>(m: Pairs<K, V>, k: K, x: (K, V))
    requires k in Keys(m)
    ensures KeysAfter(m + [x], k) == KeysAfter(m, k) + {x.0}
  {
    KeysCons(m);
    assert (m + [x])[1..] == m[1..] + [x];
    if m[0].0 == k {
      KeysConcat(m[1..], [x]);
      KeysCons([x]);
    } else {
      KeysAfterAppend(m[1..], k, x);
    }
  }
}
