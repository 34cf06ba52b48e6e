/** JavaScript `Map`s with string keys. An ordered map keeps its entries in
    insertion order; `set` on a present key overwrites that entry where it
    stands, `set` on a new key appends, `delete` removes the entry. Maps that
    are only ever looked up are plain Dafny maps, filled by `LastWins`. */
module OrderedMaps {
  import opened Wrappers

  /** One entry of an ordered map. */
  datatype KV<V> = KV(key: string, value: V)

  type OrderedMap<V> = seq<KV<V>>

  function Keys<V>(m: OrderedMap<V>): (ks: seq<string>)
    ensures |ks| == |m|
    ensures forall i :: 0 <= i < |m| ==> ks[i] == m[i].key
  {
    if |m| == 0 then [] else Keys(m[..|m| - 1]) + [m[|m| - 1].key]
  }

  function Values<V>(m: OrderedMap<V>): (vs: seq<V>)
    ensures |vs| == |m|
    ensures forall i :: 0 <= i < |m| ==> vs[i] == m[i].value
  {
    if |m| == 0 then [] else Values(m[..|m| - 1]) + [m[|m| - 1].value]
  }

  predicate DistinctKeys<V>(m: OrderedMap<V>)
  {
    forall i, j :: 0 <= i < j < |m| ==> m[i].key != m[j].key
  }

  /** Position of the entry with key `k`, or -1. */
  function IndexOfKey<V>(m: OrderedMap<V>, k: string): (r: int)
    ensures -1 <= r < |m|
    ensures r >= 0 ==> m[r].key == k && forall i :: 0 <= i < r ==> m[i].key != k
    ensures r == -1 ==> forall i :: 0 <= i < |m| ==> m[i].key != k
  {
    if |m| == 0 then -1
    else if m[0].key == k then 0
    else
      var r := IndexOfKey(m[1..], k);
      if r < 0 then -1 else r + 1
  }

  /** `m.get(k)` */
  function Get<V>(m: OrderedMap<V>, k: string): Option<V>
  {
    var i := IndexOfKey(m, k);
    if i < 0 then None else Some(m[i].value)
  }

  /** `m.set(k, v)` */
  function MapSet<V>(m: OrderedMap<V>, k: string, v: V): OrderedMap<V>
  {
    var i := IndexOfKey(m, k);
    if i < 0 then m + [KV(k, v)] else m[i := KV(k, v)]
  }

  /** `m.delete(k)` */
  function MapDelete<V>(m: OrderedMap<V>, k: string): OrderedMap<V>
  {
    var i := IndexOfKey(m, k);
    if i < 0 then m else m[..i] + m[i + 1..]
  }

  /** After `set`, the key maps to the new value ... */
  lemma MapSetGetSame<V>(m: OrderedMap<V>, k: string, v: V)
    ensures Get(MapSet(m, k, v), k) == Some(v)
  {
    var i := IndexOfKey(m, k);
    if i < 0 {
      var r := m + [KV(k, v)];
      assert r[|m|].key == k;
      var j := IndexOfKey(r, k);
      assert j >= 0;
      assert j == |m|;
    } else {
      var r := m[i := KV(k, v)];
      assert r[i].key == k;
      var j := IndexOfKey(r, k);
      assert j >= 0 && j <= i;
      assert j == i;
    }
  }

  /** ... every other key keeps its value ... */
  lemma MapSetGetOther<V>(m: OrderedMap<V>, k: string, v: V, k': string)
    requires k' != k
    ensures Get(MapSet(m, k, v), k') == Get(m, k')
  {
    var r := MapSet(m, k, v);
    var a := IndexOfKey(m, k');
    if a >= 0 {
      assert r[a].key == k';
      assert IndexOfKey(r, k') == a;
    } else {
      assert IndexOfKey(r, k') == -1;
    }
  }

  /** ... keys stay distinct, and the key order changes only by appending a
      new key. */
  lemma MapSetKeys<V>(m: OrderedMap<V>, k: string, v: V)
    requires DistinctKeys(m)
    ensures DistinctKeys(MapSet(m, k, v))
    ensures Keys(MapSet(m, k, v)) == if k in Keys(m) then Keys(m) else Keys(m) + [k]
  {
    var i := IndexOfKey(m, k);
    if i < 0 {
      assert forall j :: 0 <= j < |m| ==> Keys(m)[j] != k;
      assert k !in Keys(m);
    } else {
      assert Keys(m)[i] == k;
    }
  }

  /** `set` on the key that sits at position `i` overwrites position `i`. */
  lemma MapSetAt<V>(m: OrderedMap<V>, i: nat, v: V)
    requires DistinctKeys(m) && i < |m|
    ensures MapSet(m, m[i].key, v) == m[i := KV(m[i].key, v)]
  {
    assert IndexOfKey(m, m[i].key) == i;
  }

  /** `delete` of the key at position `i` removes exactly that entry. */
  lemma MapDeleteAt<V>(m: OrderedMap<V>, i: nat)
    requires DistinctKeys(m) && i < |m|
    ensures MapDelete(m, m[i].key) == m[..i] + m[i + 1..]
    ensures DistinctKeys(MapDelete(m, m[i].key))
  {
    assert IndexOfKey(m, m[i].key) == i;
    var r := m[..i] + m[i + 1..];
    forall a, b | 0 <= a < b < |r| ensures r[a].key != r[b].key {
      var a' := if a < i then a else a + 1;
      var b' := if b < i then b else b + 1;
      assert r[a] == m[a'] && r[b] == m[b'];
    }
  }

  /** In a map with distinct keys, the lookup finds the entry holding the key. */
  lemma GetAt<V>(m: OrderedMap<V>, t: nat)
    requires DistinctKeys(m) && t < |m|
    ensures Get(m, m[t].key) == Some(m[t].value)
  {
    assert IndexOfKey(m, m[t].key) == t;
  }

  /** After `delete`, the key is gone ... */
  lemma MapDeleteGetSame<V>(m: OrderedMap<V>, k: string)
    requires DistinctKeys(m)
    ensures Get(MapDelete(m, k), k) == None
  {
    var i := IndexOfKey(m, k);
    if i >= 0 {
      MapDeleteAt(m, i);
      var r := MapDelete(m, k);
      forall t | 0 <= t < |r| ensures r[t].key != k {
        var t' := if t < i then t else t + 1;
        assert r[t] == m[t'];
      }
    }
  }

  /** ... and every other key keeps its value. */
  lemma MapDeleteGetOther<V>(m: OrderedMap<V>, k: string, k': string)
    requires DistinctKeys(m) && k' != k
    ensures Get(MapDelete(m, k), k') == Get(m, k')
  {
    var i := IndexOfKey(m, k);
    if i >= 0 {
      MapDeleteAt(m, i);
      var r := MapDelete(m, k);
      var a := IndexOfKey(m, k');
      if a >= 0 {
        var a' := if a < i then a else a - 1;
        assert r[a'] == m[a];
        GetAt(r, a');
      } else {
        forall t | 0 <= t < |r| ensures r[t].key != k' {
          var t' := if t < i then t else t + 1;
          assert r[t] == m[t'];
        }
      }
    }
  }

  /** `set` on a key not yet present appends. */
  lemma MapSetNew<V>(m: OrderedMap<V>, k: string, v: V)
    requires forall i :: 0 <= i < |m| ==> m[i].key != k
    ensures MapSet(m, k, v) == m + [KV(k, v)]
  {
  }

  /** A second `set` on the same key overrides the first and leaves the key
      where the first put it. */
  lemma MapSetTwice<V>(m: OrderedMap<V>, k: string, a: V, b: V)
    ensures MapSet(MapSet(m, k, a), k, b) == MapSet(m, k, b)
  {
    var i := IndexOfKey(m, k);
    var m1 := MapSet(m, k, a);
    if i < 0 {
      assert m1[|m|].key == k;
      assert IndexOfKey(m1, k) == |m|;
    } else {
      assert m1[i].key == k;
      assert IndexOfKey(m1, k) == i;
    }
  }

  /** A lookup-only map filled by successive `set` calls: every key of
      `pairs`, each bound to the value of its LAST occurrence. */
  function LastWins<V>(pairs: seq<(string, V)>): map<string, V>
  {
    if |pairs| == 0 then map[]
    else LastWins(pairs[..|pairs| - 1])[pairs[|pairs| - 1].0 := pairs[|pairs| - 1].1]
  }

  lemma {:induction false} LastWinsDomain<V>(pairs: seq<(string, V)>, k: string)
    ensures k in LastWins(pairs) <==> exists i :: 0 <= i < |pairs| && pairs[i].0 == k
  {
    if |pairs| > 0 {
      var init := pairs[..|pairs| - 1];
      LastWinsDomain(init, k);
      if k in LastWins(init) {
        var i :| 0 <= i < |init| && init[i].0 == k;
        assert pairs[i].0 == k;
      }
      if exists i :: 0 <= i < |pairs| && pairs[i].0 == k {
        var i :| 0 <= i < |pairs| && pairs[i].0 == k;
        if i < |init| { assert init[i].0 == k; }
      }
    }
  }

  lemma {:induction false} LastWinsValue<V>(pairs: seq<(string, V)>, i: nat)
    requires i < |pairs|
    requires forall j :: i < j < |pairs| ==> pairs[j].0 != pairs[i].0
    ensures pairs[i].0 in LastWins(pairs) && LastWins(pairs)[pairs[i].0] == pairs[i].1
  {
    if i < |pairs| - 1 {
      var init := pairs[..|pairs| - 1];
      LastWinsValue(init, i);
    }
  }
}
