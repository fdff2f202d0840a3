/**
 * Sequences of `(name, value)` entries, the shape of a JavaScript object's
 * own fields and of a `Map`'s contents: their key sets, key uniqueness and
 * lookup by key.
 */
module Keyed {
  import opened Wrappers

  /** The names of the entries. */
  function Keys<K(==), V>(s: seq<(K, V)>): set<K>
  {
    if |s| == 0 then {} else {s[0].0} + Keys(s[1..])
  }

  /** No name occurs twice. */
  predicate UniqueKeys<K(==), V>(s: seq<(K, V)>)
  {
    |s| == 0 || (s[0].0 !in Keys(s[1..]) && UniqueKeys(s[1..]))
  }

  lemma {:induction false} KeysMember<K, V>(s: seq<(K, V)>, k: K)
    ensures k in Keys(s) <==> exists i :: 0 <= i < |s| && s[i].0 == k
  {
    if |s| > 0 {
      KeysMember(s[1..], k);
      if k != s[0].0 && k in Keys(s) {
        var i :| 0 <= i < |s[1..]| && s[1..][i].0 == k;
        assert s[i + 1].0 == k;
      }
      if exists i :: 0 <= i < |s| && s[i].0 == k {
        var i :| 0 <= i < |s| && s[i].0 == k;
        if i > 0 {
          assert s[1..][i - 1].0 == k;
        }
      }
    }
  }

  lemma KeysOfPermutation<K, V>(a: seq<(K, V)>, b: seq<(K, V)>)
    requires multiset(a) == multiset(b)
    ensures Keys(a) == Keys(b)
  {
    forall k | k in Keys(a) ensures k in Keys(b) {
      KeysMember(a, k);
      var i :| 0 <= i < |a| && a[i].0 == k;
      assert a[i] in multiset(b);
      var j :| 0 <= j < |b| && b[j] == a[i];
      KeysMember(b, k);
    }
    forall k | k in Keys(b) ensures k in Keys(a) {
      KeysMember(b, k);
      var j :| 0 <= j < |b| && b[j].0 == k;
      assert b[j] in multiset(a);
      var i :| 0 <= i < |a| && a[i] == b[j];
      KeysMember(a, k);
    }
  }

  lemma {:induction false} KeysBound<K, V>(s: seq<(K, V)>)
    ensures |Keys(s)| <= |s|
  {
    if |s| > 0 {
      KeysBound(s[1..]);
    }
  }

  /** Keys are unique exactly when there are as many keys as entries. */
  lemma {:induction false} UniqueKeysCount<K, V>(s: seq<(K, V)>)
    ensures UniqueKeys(s) <==> |Keys(s)| == |s|
  {
    if |s| > 0 {
      UniqueKeysCount(s[1..]);
      KeysBound(s[1..]);
      if s[0].0 in Keys(s[1..]) {
        assert Keys(s) == Keys(s[1..]);
      }
    }
  }

  lemma UniqueKeysOfPermutation<K, V>(a: seq<(K, V)>, b: seq<(K, V)>)
    requires multiset(a) == multiset(b) && UniqueKeys(a)
    ensures UniqueKeys(b)
  {
    KeysOfPermutation(a, b);
    UniqueKeysCount(a);
    UniqueKeysCount(b);
    assert |a| == |multiset(a)| == |multiset(b)| == |b|;
  }

  lemma {:induction false} UniqueKeysDistinct<K, V>(s: seq<(K, V)>)
    requires UniqueKeys(s)
    ensures forall i, j :: 0 <= i < j < |s| ==> s[i].0 != s[j].0
  {
    if |s| > 0 {
      UniqueKeysDistinct(s[1..]);
      forall j | 0 < j < |s| ensures s[0].0 != s[j].0 {
        KeysMember(s[1..], s[j].0);
        assert s[1..][j - 1] == s[j];
      }
      forall i, j | 0 < i < j < |s| ensures s[i].0 != s[j].0 {
        assert s[1..][i - 1] == s[i] && s[1..][j - 1] == s[j];
      }
    }
  }

  lemma {:induction false} DistinctIsUnique<K, V>(s: seq<(K, V)>)
    requires forall i, j :: 0 <= i < j < |s| ==> s[i].0 != s[j].0
    ensures UniqueKeys(s)
  {
    if |s| > 0 {
      KeysMember(s[1..], s[0].0);
      assert forall j :: 0 <= j < |s[1..]| ==> s[1..][j] == s[j + 1];
      DistinctIsUnique(s[1..]);
    }
  }

  /** The value of the first entry named `k`. */
  function Lookup<K(==), V>(fs: seq<(K, V)>, k: K): (r: Option<V>)
    ensures r.Some? ==> (k, r.value) in fs
    ensures r.None? <==> k !in Keys(fs)
  {
    if |fs| == 0 then None
    else if fs[0].0 == k then Some(fs[0].1)
    else Lookup(fs[1..], k)
  }

  lemma {:induction false} LookupUnique<K, V>(fs: seq<(K, V)>, k: K, x: V)
    requires UniqueKeys(fs) && (k, x) in fs
    ensures Lookup(fs, k) == Some(x)
  {
    if fs[0] != (k, x) {
      var i :| 0 <= i < |fs| && fs[i] == (k, x);
      assert fs[1..][i - 1] == (k, x);
      KeysMember(fs[1..], k);
      LookupUnique(fs[1..], k, x);
    }
  }

  /** The position of the entry named `k`. */
  function IndexOf<K(==), V>(es: seq<(K, V)>, k: K): (r: Option<nat>)
    ensures r.Some? ==> r.value < |es| && es[r.value].0 == k
    ensures r.None? <==> k !in Keys(es)
  {
    if |es| == 0 then None
    else if es[0].0 == k then Some(0)
    else match IndexOf(es[1..], k)
      case None => None
      case Some(i) => Some(i + 1)
  }

  /**
   * `Map.prototype.set`: an existing entry named `k` takes the new value in
   * its old position; otherwise the entry is appended at the end.
   */
  function Put<K(==), V>(m: seq<(K, V)>, k: K, v: V): (r: seq<(K, V)>)
    ensures Keys(r) == Keys(m) + {k}
    ensures UniqueKeys(m) ==> UniqueKeys(r)
    ensures k !in Keys(m) ==> r == m + [(k, v)]
  {
    if |m| == 0 then [(k, v)]
    else if m[0].0 == k then [(k, v)] + m[1..]
    else [m[0]] + Put(m[1..], k, v)
  }

  /** Putting under a name already present changes that entry only, in place. */
  lemma {:induction false} PutInPlace<K, V>(m: seq<(K, V)>, k: K, v: V)
    requires UniqueKeys(m) && k in Keys(m)
    ensures |Put(m, k, v)| == |m|
    ensures forall i :: 0 <= i < |m| ==> Put(m, k, v)[i] == (if m[i].0 == k then (k, v) else m[i])
  {
    var r := Put(m, k, v);
    KeysMember(m[1..], k);
    if m[0].0 != k {
      PutInPlace(m[1..], k, v);
      assert r[1..] == Put(m[1..], k, v);
    }
  }

  /** After putting, the name `k` holds the new value. */
  lemma {:induction false} PutHere<K, V>(m: seq<(K, V)>, k: K, v: V)
    ensures Lookup(Put(m, k, v), k) == Some(v)
  {
    if |m| > 0 && m[0].0 != k {
      PutHere(m[1..], k, v);
    }
  }

  /** Putting under `k` leaves every other name's value alone. */
  lemma {:induction false} PutOthers<K, V>(m: seq<(K, V)>, k: K, v: V, j: K)
    requires j != k
    ensures Lookup(Put(m, k, v), j) == Lookup(m, j)
  {
    if |m| > 0 && m[0].0 != k {
      PutOthers(m[1..], k, v, j);
    }
  }
}
