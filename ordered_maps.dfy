/** JavaScript `Map`s as lists of key/value pairs in insertion order. `set`
    replaces the value of a present key where it stands and appends a new key
    at the end, so iteration order is first-insertion order. */
module OrderedMaps {
  import opened Wrappers

  function Keys<K, V>(m: seq<(K, V)>): (ks: seq<K>)
    ensures |ks| == |m|
    ensures forall i :: 0 <= i < |m| ==> ks[i] == m[i].0
  {
    if m == [] then [] else [m[0].0] + Keys(m[1..])
  }

  /** No key occurs twice. */
  predicate DistinctKeys<K(==), V>(m: seq<(K, V)>) {
    forall i, j :: 0 <= i < j < |m| ==> m[i].0 != m[j].0
  }

  /** `m.get(k)`. */
  function Lookup<K(==), V>(m: seq<(K, V)>, k: K): (r: Option<V>)
    ensures r.None? <==> k !in Keys(m)
    ensures r.Some? ==> (k, r.value) in m
  {
    if m == [] then None
    else if m[0].0 == k then Some(m[0].1)
    else Lookup(m[1..], k)
  }

  /** `m.set(k, v)`. */
  function Put<K(==), V>(m: seq<(K, V)>, k: K, v: V): (r: seq<(K, V)>)
    ensures k in Keys(m) ==> |r| == |m|
    ensures k !in Keys(m) ==> |r| == |m| + 1
  {
    if m == [] then [(k, v)]
    else if m[0].0 == k then [(k, v)] + m[1..]
    else [m[0]] + Put(m[1..], k, v)
  }

  /** After `set`, the key has the new value and every other key its old one. */
  lemma {:induction false} PutLookup<K, V>(m: seq<(K, V)>, k: K, v: V, j: K)
    ensures Lookup(Put(m, k, v), j) == if j == k then Some(v) else Lookup(m, j)
  {
    if m != [] && m[0].0 != k {
      PutLookup(m[1..], k, v, j);
      assert Put(m, k, v)[1..] == Put(m[1..], k, v);
    }
  }

  /** A present key keeps its place; a new one goes last. */
  lemma {:induction false} PutKeys<K, V>(m: seq<(K, V)>, k: K, v: V)
    ensures k in Keys(m) ==> Keys(Put(m, k, v)) == Keys(m)
    ensures k !in Keys(m) ==> Keys(Put(m, k, v)) == Keys(m) + [k]
  {
    if m != [] {
      var r := Put(m, k, v);
      assert Keys(r) == [r[0].0] + Keys(r[1..]);
      assert Keys(m) == [m[0].0] + Keys(m[1..]);
      if m[0].0 != k {
        PutKeys(m[1..], k, v);
        assert r[1..] == Put(m[1..], k, v);
      } else {
        assert r[1..] == m[1..];
      }
    }
  }

  /** `set` never duplicates a key. */
  lemma PutDistinct<K, V>(m: seq<(K, V)>, k: K, v: V)
    requires DistinctKeys(m)
    ensures DistinctKeys(Put(m, k, v))
  {
    PutKeys(m, k, v);
    var r := Put(m, k, v);
    var ks := Keys(r);
    if k !in Keys(m) {
      forall i, j | 0 <= i < j < |r| ensures r[i].0 != r[j].0 {
        assert ks[i] == r[i].0 && ks[j] == r[j].0;
        if j == |m| {
          assert Keys(m)[i] == r[i].0;
        } else {
          assert Keys(m)[i] == m[i].0 && Keys(m)[j] == m[j].0;
        }
      }
    } else {
      forall i, j | 0 <= i < j < |r| ensures r[i].0 != r[j].0 {
        assert ks[i] == r[i].0 && ks[j] == r[j].0;
        assert Keys(m)[i] == m[i].0 && Keys(m)[j] == m[j].0;
      }
    }
  }

  /** With distinct keys, a pair is in the list exactly when its key looks up
      to its value. */
  lemma {:induction false} LookupIn<K, V>(m: seq<(K, V)>, k: K, v: V)
    requires DistinctKeys(m)
    ensures (k, v) in m <==> Lookup(m, k) == Some(v)
  {
    if m != [] {
      assert DistinctKeys(m[1..]) by {
        forall i, j | 0 <= i < j < |m[1..]| ensures m[1..][i].0 != m[1..][j].0 {
          assert m[1..][i] == m[i + 1] && m[1..][j] == m[j + 1];
        }
      }
      LookupIn(m[1..], k, v);
      forall t | 0 <= t < |m[1..]| ensures m[1..][t].0 != m[0].0 {
        assert m[1..][t] == m[t + 1];
      }
    }
  }
}
