/** An insertion-ordered map, the model of Kotlin's `LinkedHashMap` and of
    the maps Firebase hands back in a snapshot: a sequence of key/value
    pairs with pairwise distinct keys. Writing an existing key keeps its
    position; writing a new key appends it; removing a key keeps the
    relative order of the rest.
 */
module LinkedMap {
  import opened Wrappers

  type Entries<V> = seq<(string, V)>

  /** The keys in order; any sequence of pairs has them, not only a map. */
  function Keys<K, V>(m: seq<(K, V)>): (ks: seq<K>)
    ensures |ks| == |m|
    ensures forall i :: 0 <= i < |m| ==> ks[i] == m[i].0
  {
    if m == [] then [] else [m[0].0] + Keys(m[1..])
  }

  function Values<V>(m: Entries<V>): (vs: seq<V>)
    ensures |vs| == |m|
    ensures forall i :: 0 <= i < |m| ==> vs[i] == m[i].1
  {
    if m == [] then [] else [m[0].1] + Values(m[1..])
  }

  ghost predicate UniqueKeys<V>(m: Entries<V>) {
    forall i, j :: 0 <= i < j < |m| ==> m[i].0 != m[j].0
  }

  predicate HasKey<V>(m: Entries<V>, k: string) {
    exists i :: 0 <= i < |m| && m[i].0 == k
  }

  /** `m[k]`: the value of the first entry under `k`, or null. */
  function Get<V(==)>(m: Entries<V>, k: string): (r: Option<V>)
    ensures r.Some? <==> HasKey(m, k)
    ensures r.Some? ==> exists i :: 0 <= i < |m| && m[i] == (k, r.value)
  {
    if m == [] then None
    else if m[0].0 == k then Some(m[0].1)
    else
      var r := Get(m[1..], k);
      assert HasKey(m, k) <==> HasKey(m[1..], k) by {
        if HasKey(m, k) {
          var i :| 0 <= i < |m| && m[i].0 == k;
          assert m[1..][i - 1].0 == k;
        }
        if HasKey(m[1..], k) {
          var i :| 0 <= i < |m[1..]| && m[1..][i].0 == k;
          assert m[i + 1].0 == k;
        }
      }
      if r.Some? then
        var i :| 0 <= i < |m[1..]| && m[1..][i] == (k, r.value);
        assert m[i + 1] == (k, r.value);
        r
      else r
  }

  /** With distinct keys, the entry at index `i` is what a lookup of its key returns. */
  lemma GetAt<V>(m: Entries<V>, i: nat)
    requires UniqueKeys(m) && i < |m|
    ensures Get(m, m[i].0) == Some(m[i].1)
  {
    if i > 0 {
      GetAt(m[1..], i - 1);
    }
  }

  lemma HasKeyTail<V>(m: Entries<V>, k: string)
    requires m != []
    ensures HasKey(m, k) <==> m[0].0 == k || HasKey(m[1..], k)
  {
    if HasKey(m, k) {
      var i :| 0 <= i < |m| && m[i].0 == k;
      if i > 0 { assert m[1..][i - 1].0 == k; }
    }
    if HasKey(m[1..], k) {
      var i :| 0 <= i < |m[1..]| && m[1..][i].0 == k;
      assert m[i + 1].0 == k;
    }
  }

  /** `m[k] = v`: afterwards `k` maps to `v` and every other key keeps its value. */
  function Put<V(==)>(m: Entries<V>, k: string, v: V): (r: Entries<V>)
    ensures Get(r, k) == Some(v)
    ensures forall k' :: k' != k ==> Get(r, k') == Get(m, k')
  {
    if m == [] then [(k, v)]
    else if m[0].0 == k then [(k, v)] + m[1..]
    else
      var r := [m[0]] + Put(m[1..], k, v);
      assert r[1..] == Put(m[1..], k, v);
      r
  }

  lemma KeysCons<V>(m: Entries<V>)
    requires m != []
    ensures Keys(m) == [m[0].0] + Keys(m[1..])
  {
  }

  /** Insertion order under `Put`: an existing key keeps its position, a new
      key goes to the end. */
  lemma {:induction false} PutKeys<V>(m: Entries<V>, k: string, v: V)
    ensures HasKey(m, k) ==> Keys(Put(m, k, v)) == Keys(m)
    ensures !HasKey(m, k) ==> Keys(Put(m, k, v)) == Keys(m) + [k]
  {
    if m == [] {
      assert Keys(Put(m, k, v)) == Keys([(k, v)]) == [k];
    } else {
      HasKeyTail(m, k);
      KeysCons(m);
      if m[0].0 != k {
        var rest := Put(m[1..], k, v);
        PutKeys(m[1..], k, v);
        assert Put(m, k, v) == [m[0]] + rest;
        KeysCons([m[0]] + rest);
        assert ([m[0]] + rest)[1..] == rest;
      } else {
        assert Put(m, k, v) == [(k, v)] + m[1..];
        KeysCons([(k, v)] + m[1..]);
        assert ([(k, v)] + m[1..])[1..] == m[1..];
      }
    }
  }

  ghost predicate Distinct(ks: seq<string>) {
    forall i, j :: 0 <= i < j < |ks| ==> ks[i] != ks[j]
  }

  lemma UniqueIffDistinct<V>(m: Entries<V>)
    ensures UniqueKeys(m) <==> Distinct(Keys(m))
  {
    var ks := Keys(m);
    assert forall i :: 0 <= i < |m| ==> ks[i] == m[i].0;
  }

  /** `Put` keeps keys distinct, and its entries are the old ones with the
      binding of `k` replaced or appended. */
  lemma {:induction false} PutUnique<V>(m: Entries<V>, k: string, v: V)
    requires UniqueKeys(m)
    ensures UniqueKeys(Put(m, k, v))
    ensures |Put(m, k, v)| == if HasKey(m, k) then |m| else |m| + 1
  {
    var r := Put(m, k, v);
    PutKeys(m, k, v);
    UniqueIffDistinct(m);
    UniqueIffDistinct(r);
    if !HasKey(m, k) {
      var km := Keys(m);
      forall i, j | 0 <= i < j < |km + [k]| ensures (km + [k])[i] != (km + [k])[j] {
        if j == |km| {
          assert km[i] == m[i].0;
        }
      }
    }
  }

  /** `remove(k)`: afterwards `k` is absent and every other key keeps its value. */
  function Remove<V(==)>(m: Entries<V>, k: string): (r: Entries<V>)
    ensures !HasKey(r, k)
    ensures forall k' :: k' != k ==> Get(r, k') == Get(m, k')
  {
    if m == [] then []
    else
      var rest := Remove(m[1..], k);
      var r := if m[0].0 == k then rest else [m[0]] + rest;
      assert r != [] ==> r[1..] == rest || r == rest;
      HasKeyTail(m, k);
      if r != [] then HasKeyTail(r, k); r else r
  }

  /** `Remove` keeps the other entries, in their order, and nothing else. */
  lemma {:induction false} RemoveEntries<V>(m: Entries<V>, k: string)
    ensures forall i :: 0 <= i < |Remove(m, k)| ==> Remove(m, k)[i] in m && Remove(m, k)[i].0 != k
    ensures forall i :: 0 <= i < |m| && m[i].0 != k ==> m[i] in Remove(m, k)
    ensures !HasKey(m, k) ==> Remove(m, k) == m
  {
    if m != [] {
      RemoveEntries(m[1..], k);
      HasKeyTail(m, k);
      var rest := Remove(m[1..], k);
      if m[0].0 != k {
        assert Remove(m, k) == [m[0]] + rest;
        forall i | 0 < i < |m| && m[i].0 != k ensures m[i] in Remove(m, k) {
          assert m[1..][i - 1] == m[i];
        }
        if !HasKey(m, k) { assert m == [m[0]] + m[1..]; }
      } else {
        forall i | 0 < i < |m| && m[i].0 != k ensures m[i] in Remove(m, k) {
          assert m[1..][i - 1] == m[i];
        }
      }
    }
  }

  /** `Remove` keeps keys distinct and shrinks the map by exactly one when
      the key was present. */
  lemma {:induction false} RemoveUnique<V>(m: Entries<V>, k: string)
    requires UniqueKeys(m)
    ensures UniqueKeys(Remove(m, k))
    ensures HasKey(m, k) ==> |Remove(m, k)| == |m| - 1
  {
    if m != [] {
      RemoveUnique(m[1..], k);
      RemoveEntries(m[1..], k);
      RemoveEntries(m, k);
      HasKeyTail(m, k);
      var rest := Remove(m[1..], k);
      if m[0].0 != k {
        var r := Remove(m, k);
        assert r == [m[0]] + rest;
        forall j | 0 < j < |r| ensures r[j].0 != m[0].0 {
          assert r[j] == rest[j - 1];
          assert rest[j - 1] in m[1..];
          var q :| 0 <= q < |m[1..]| && m[1..][q] == r[j];
          assert m[q + 1] == r[j];
        }
      }
    }
  }

  /** With distinct keys, an entry whose key is present is that key's binding. */
  lemma EntryIsBinding<V>(m: Entries<V>, p: (string, V))
    requires UniqueKeys(m) && p in m
    ensures Get(m, p.0) == Some(p.1)
  {
    var i :| 0 <= i < |m| && m[i] == p;
    GetAt(m, i);
  }

  /** Putting the binding a key already has changes nothing. */
  lemma {:induction false} PutSame<V>(m: Entries<V>, k: string, v: V)
    requires Get(m, k) == Some(v)
    ensures Put(m, k, v) == m
  {
    if m != [] && m[0].0 != k {
      PutSame(m[1..], k, v);
    }
  }
}
