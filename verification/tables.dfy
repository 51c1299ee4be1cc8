/** The two ways the commands fill a Java `HashMap` in a loop:
    `put` in iteration order (the last writer wins), and
    `putIfAbsent(k, new HashSet<>())` followed by `get(k).add(v)`
    (grouping values into sets). */
module Tables {

  /** The keys a pair list mentions. */
  function KeysOf<K, V>(kvs: seq<(K, V)>): set<K>
  {
    set i | 0 <= i < |kvs| :: kvs[i].0
  }

  /** The values a pair list associates with `k`. */
  function ValuesOf<K(==), V>(kvs: seq<(K, V)>, k: K): set<V>
  {
    set i | 0 <= i < |kvs| && kvs[i].0 == k :: kvs[i].1
  }

  /** `i` is the last position holding key `k`. */
  predicate IsLastWith<K(==), V>(kvs: seq<(K, V)>, k: K, i: int)
  {
    0 <= i < |kvs| && kvs[i].0 == k && forall j :: i < j < |kvs| ==> kvs[j].0 != k
  }

  /** `m.put(k, v)` for every pair, in order. */
  function PutAll<K, V>(m: map<K, V>, kvs: seq<(K, V)>): (r: map<K, V>)
    ensures r.Keys == m.Keys + KeysOf(kvs)
    decreases |kvs|
  {
    if |kvs| == 0 then m
    else
      var n := |kvs| - 1;
      KeysOfSnoc(kvs);
      PutAll(m, kvs[..n])[kvs[n].0 := kvs[n].1]
  }

  /** The value a key ends up with is the one of its last pair. */
  lemma {:induction false} PutAllLastWins<K, V>(m: map<K, V>, kvs: seq<(K, V)>, k: K, i: int)
    requires IsLastWith(kvs, k, i)
    ensures k in PutAll(m, kvs) && PutAll(m, kvs)[k] == kvs[i].1
    decreases |kvs|
  {
    var n := |kvs| - 1;
    if i < n {
      assert IsLastWith(kvs[..n], k, i);
      PutAllLastWins(m, kvs[..n], k, i);
    }
  }

  /** A key no pair mentions keeps its value. */
  lemma {:induction false} PutAllUntouched<K, V>(m: map<K, V>, kvs: seq<(K, V)>, k: K)
    requires k in m && k !in KeysOf(kvs)
    ensures PutAll(m, kvs)[k] == m[k]
    decreases |kvs|
  {
    if |kvs| > 0 {
      var n := |kvs| - 1;
      KeysOfSnoc(kvs);
      PutAllUntouched(m, kvs[..n], k);
    }
  }

  lemma KeysOfSnoc<K, V>(kvs: seq<(K, V)>)
    requires |kvs| > 0
    ensures KeysOf(kvs) == KeysOf(kvs[..|kvs| - 1]) + {kvs[|kvs| - 1].0}
  {
    var n := |kvs| - 1;
    forall k | k in KeysOf(kvs) ensures k in KeysOf(kvs[..n]) + {kvs[n].0} {
      var i :| 0 <= i < |kvs| && kvs[i].0 == k;
      if i < n { assert kvs[..n][i].0 == k; }
    }
    forall k | k in KeysOf(kvs[..n]) ensures k in KeysOf(kvs) {
      var i :| 0 <= i < n && kvs[..n][i].0 == k;
      assert kvs[i].0 == k;
    }
  }

  lemma ValuesOfSnoc<K, V>(kvs: seq<(K, V)>, k: K)
    requires |kvs| > 0
    ensures var n := |kvs| - 1;
      ValuesOf(kvs, k) == ValuesOf(kvs[..n], k) + (if k == kvs[n].0 then {kvs[n].1} else {})
  {
    var n := |kvs| - 1;
    forall v | v in ValuesOf(kvs, k)
      ensures v in ValuesOf(kvs[..n], k) + (if k == kvs[n].0 then {kvs[n].1} else {})
    {
      var i :| 0 <= i < |kvs| && kvs[i].0 == k && kvs[i].1 == v;
      if i < n { assert kvs[..n][i] == kvs[i]; }
    }
    forall v | v in ValuesOf(kvs[..n], k)
      ensures v in ValuesOf(kvs, k)
    {
      var i :| 0 <= i < n && kvs[..n][i].0 == k && kvs[..n][i].1 == v;
      assert kvs[i] == kvs[..n][i];
    }
  }

  /** `m.putIfAbsent(k, new HashSet<>())` then `m.get(k).add(v)` for every pair, in order. */
  function AddAll<K, V>(m: map<K, set<V>>, kvs: seq<(K, V)>): (r: map<K, set<V>>)
    ensures r.Keys == m.Keys + KeysOf(kvs)
    ensures forall k :: k in r ==> r[k] == (if k in m then m[k] else {}) + ValuesOf(kvs, k)
    decreases |kvs|
  {
    if |kvs| == 0 then m
    else
      var n := |kvs| - 1;
      var g := AddAll(m, kvs[..n]);
      var k0 := kvs[n].0;
      var r := g[k0 := (if k0 in g then g[k0] else {}) + {kvs[n].1}];
      KeysOfSnoc(kvs);
      assert forall k :: k in r ==> r[k] == (if k in m then m[k] else {}) + ValuesOf(kvs, k) by {
        forall k | k in r
          ensures r[k] == (if k in m then m[k] else {}) + ValuesOf(kvs, k)
        {
          ValuesOfSnoc(kvs, k);
        }
      }
      r
  }

  /** A key's set is non-empty once some pair mentions it. */
  lemma AddAllNonEmpty<K, V>(m: map<K, set<V>>, kvs: seq<(K, V)>, i: int)
    requires 0 <= i < |kvs|
    ensures kvs[i].1 in AddAll(m, kvs)[kvs[i].0]
  {
    assert kvs[i].0 in KeysOf(kvs);
    assert kvs[i].1 in ValuesOf(kvs, kvs[i].0);
  }

  /** A key all of whose pairs carry the same value ends up with it. */
  lemma {:induction false} PutAllUniform<K, V>(m: map<K, V>, kvs: seq<(K, V)>, k: K, v: V)
    requires k in KeysOf(kvs)
    requires forall i :: 0 <= i < |kvs| && kvs[i].0 == k ==> kvs[i].1 == v
    ensures PutAll(m, kvs)[k] == v
    decreases |kvs|
  {
    var n := |kvs| - 1;
    if kvs[n].0 != k {
      KeysOfSnoc(kvs);
      PutAllUniform(m, kvs[..n], k, v);
    }
  }

  /** Putting two lists is putting their concatenation. */
  lemma {:induction false} PutAllAppend<K, V>(m: map<K, V>, a: seq<(K, V)>, b: seq<(K, V)>)
    ensures PutAll(m, a + b) == PutAll(PutAll(m, a), b)
    decreases |b|
  {
    if |b| == 0 {
      assert a + b == a;
    } else {
      var n := |b| - 1;
      assert (a + b)[..|a + b| - 1] == a + b[..n];
      PutAllAppend(m, a, b[..n]);
    }
  }
}
