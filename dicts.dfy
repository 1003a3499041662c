/** Python's insertion-ordered `dict`, as a sequence of (key, value) entries. */
module Dicts {
  import opened Wrappers
  import opened Seqs

  type Dict<K, V> = seq<(K, V)>

  /** The keys in insertion order (`list(d.keys())`). */
  function Keys<K, V>(d: Dict<K, V>): (ks: seq<K>)
    ensures |ks| == |d| && forall i :: 0 <= i < |d| ==> ks[i] == d[i].0
  {
    seq(|d|, i requires 0 <= i < |d| => d[i].0)
  }

  /** The values in insertion order (`list(d.values())`). */
  function Vals<K, V>(d: Dict<K, V>): (vs: seq<V>)
    ensures |vs| == |d| && forall i :: 0 <= i < |d| ==> vs[i] == d[i].1
  {
    seq(|d|, i requires 0 <= i < |d| => d[i].1)
  }

  /** `d.get(k)`: the value of the entry holding `k`. */
  function Get<K(==), V>(d: Dict<K, V>, k: K): Option<V> {
    if k in Keys(d) then Some(d[FirstIndex(Keys(d), k)].1) else None
  }

  /** `d[k] = v`: an existing key keeps its position and takes the new value, a new
      key goes last; no other key changes. */
  function Put<K(==, !new), V>(d: Dict<K, V>, k: K, v: V): (r: Dict<K, V>)
    ensures Get(r, k) == Some(v)
    ensures forall k' :: k' != k ==> Get(r, k') == Get(d, k')
  {
    if k in Keys(d) then
      var j := FirstIndex(Keys(d), k);
      assert Keys(d[j := (k, v)]) == Keys(d);
      d[j := (k, v)]
    else
      assert Keys(d + [(k, v)]) == Keys(d) + [k];
      FirstIndexAppend(Keys(d), k);
      d + [(k, v)]
  }

  /** The keys after `d[k] = v`. */
  lemma PutKeys<K(!new), V>(d: Dict<K, V>, k: K, v: V)
    ensures Keys(Put(d, k, v)) == if k in Keys(d) then Keys(d) else Keys(d) + [k]
  {
    if k in Keys(d) {
      assert Keys(d[FirstIndex(Keys(d), k) := (k, v)]) == Keys(d);
    } else {
      assert Keys(d + [(k, v)]) == Keys(d) + [k];
    }
  }

  /** A second assignment to the same key overrides the first and leaves the key where
      the first one put it. */
  lemma PutPut<K(!new), V>(d: Dict<K, V>, k: K, v: V, w: V)
    ensures Put(Put(d, k, v), k, w) == Put(d, k, w)
  {
    if k in Keys(d) {
      var j := FirstIndex(Keys(d), k);
      assert Keys(d[j := (k, v)]) == Keys(d);
    } else {
      var e := d + [(k, v)];
      assert Keys(e) == Keys(d) + [k];
      assert FirstIndex(Keys(e), k) == |d| by {
        forall i | 0 <= i < |d| ensures Keys(e)[i] != k { assert Keys(e)[i] == Keys(d)[i]; }
      }
      assert e[|d| := (k, w)] == d + [(k, w)];
    }
  }

  /** Every entry after `d[k] = v` is the new one or an entry of `d`. */
  lemma PutEntry<K(!new), V>(d: Dict<K, V>, k: K, v: V, i: nat)
    requires i < |Put(d, k, v)|
    ensures Put(d, k, v)[i] == (k, v) || Put(d, k, v)[i] in d
  {
    if k in Keys(d) {
      var j := FirstIndex(Keys(d), k);
      if i != j { assert d[j := (k, v)][i] == d[i]; }
    } else if i < |d| {
      assert (d + [(k, v)])[i] == d[i];
    }
  }

  /** The value `d.get(k)` finds is that of an entry of `d` holding `k`. */
  lemma GetEntry<K, V>(d: Dict<K, V>, k: K)
    requires Get(d, k).Some?
    ensures (k, Get(d, k).value) in d
  {
    var j := FirstIndex(Keys(d), k);
    assert d[j] == (k, Get(d, k).value);
  }

  /** `d[k].append(x)` on a `defaultdict(list)`. */
  function Push<K(==, !new), V>(d: Dict<K, seq<V>>, k: K, x: V): (r: Dict<K, seq<V>>)
    ensures Get(r, k) == Some(Get(d, k).GetOr([]) + [x])
    ensures forall k' :: k' != k ==> Get(r, k') == Get(d, k')
  {
    Put(d, k, Get(d, k).GetOr([]) + [x])
  }

  /** The dict that the assignments `d[keys[0]] = vals[0]`, `d[keys[1]] = vals[1]`, ...
      build from an empty one: every key once, at its first assignment. */
  function Assigned<K(==, !new), V>(keys: seq<K>, vals: seq<V>): Dict<K, V>
    requires |keys| == |vals|
  {
    if keys == [] then []
    else
      var n := |keys| - 1;
      var prev := Assigned(keys[..n], vals[..n]);
      Put(prev, keys[n], vals[n])
  }

  /** The value a key ends with is the one given at its last assignment. */
  lemma {:induction false} AssignedGet<K(!new), V>(keys: seq<K>, vals: seq<V>, i: nat)
    requires |keys| == |vals| && i < |keys|
    requires forall j :: i < j < |keys| ==> keys[j] != keys[i]
    ensures Get(Assigned(keys, vals), keys[i]) == Some(vals[i])
  {
    var n := |keys| - 1;
    var ks, vs := keys[..n], vals[..n];
    assert Assigned(keys, vals) == Put(Assigned(ks, vs), keys[n], vals[n]);
    if i < n {
      assert ks[i] == keys[i] && vs[i] == vals[i];
      AssignedGet(ks, vs, i);
    }
  }

  /** Every assigned key occurs once, in the order of first assignment. */
  lemma {:induction false} AssignedKeys<K(!new), V>(keys: seq<K>, vals: seq<V>)
    requires |keys| == |vals|
    ensures Keys(Assigned(keys, vals)) == Unseen(keys, {})
  {
    if keys != [] {
      var n := |keys| - 1;
      AssignedKeys(keys[..n], vals[..n]);
      PutKeys(Assigned(keys[..n], vals[..n]), keys[n], vals[n]);
    }
  }

  /** A key never assigned is absent. */
  lemma {:induction false} AssignedAbsent<K(!new), V>(keys: seq<K>, vals: seq<V>, k: K)
    requires |keys| == |vals| && k !in keys
    ensures Get(Assigned(keys, vals), k) == None
  {
    if keys != [] {
      var n := |keys| - 1;
      assert k !in keys[..n];
      AssignedAbsent(keys[..n], vals[..n], k);
    }
  }

  /** Assignment never repeats a key. */
  lemma PutDistinct<K(!new), V>(d: Dict<K, V>, k: K, v: V)
    requires NoDuplicates(Keys(d))
    ensures NoDuplicates(Keys(Put(d, k, v)))
  {
    PutKeys(d, k, v);
  }
}
