/**
 Two views of one table: flat, keyed by pairs, and nested, with the values in another form. Generic
 in keys and value forms; the keystore uses it with (service, account) and base64.
 */
module NestedMap {
  import opened Common

  type Flat<!K(==), V> = map<(K, K), V>
  type Nested<!K(==), W> = map<K, map<K, W>>

  /** The nested table under `enc`: grouped by first key, no empty groups. */
  ghost predicate Nests<K(!new), V, W>(flat: Flat<K, V>, nested: Nested<K, W>, enc: V -> W) {
    && (forall s, a :: (s, a) in flat <==> s in nested && a in nested[s])
    && (forall s, a :: (s, a) in flat ==> nested[s][a] == enc(flat[(s, a)]))
    && (forall s :: s in nested ==> nested[s] != map[])
  }

  /** The flat table read back with `dec`. */
  ghost predicate FlattensTo<K(!new), V, W>(nested: Nested<K, W>, flat: Flat<K, V>, dec: W -> Option<V>) {
    && (forall s, a :: (s, a) in flat <==> s in nested && a in nested[s])
    && (forall s, a :: (s, a) in flat ==> dec(nested[s][a]) == Some(flat[(s, a)]))
  }

  ghost predicate AllDecode<K(!new), V, W>(nested: Nested<K, W>, dec: W -> Option<V>) {
    forall s, a :: s in nested && a in nested[s] ==> dec(nested[s][a]).Some?
  }

  lemma FlatEqual<K(!new), V>(f: Flat<K, V>, g: Flat<K, V>)
    requires forall s, a :: (s, a) in f <==> (s, a) in g
    requires forall s, a :: (s, a) in f ==> f[(s, a)] == g[(s, a)]
    ensures f == g
  {
    forall k: (K, K)
      ensures (k in f <==> k in g) && (k in f ==> f[k] == g[k])
    {
      var (s, a) := k;
      assert k == (s, a);
    }
  }

  /** A nested table determines its flat form. */
  lemma FlattensToUnique<K(!new), V, W>(nested: Nested<K, W>, f: Flat<K, V>, g: Flat<K, V>, dec: W -> Option<V>)
    requires FlattensTo(nested, f, dec) && FlattensTo(nested, g, dec)
    ensures f == g
  {
    forall s, a | (s, a) in f
      ensures f[(s, a)] == g[(s, a)]
    {
      assert dec(nested[s][a]) == Some(f[(s, a)]);
      assert dec(nested[s][a]) == Some(g[(s, a)]);
    }
    FlatEqual(f, g);
  }

  /** And a flat table determines its nested form. */
  lemma NestsUnique<K(!new), V, W>(flat: Flat<K, V>, m: Nested<K, W>, n: Nested<K, W>, enc: V -> W)
    requires Nests(flat, m, enc) && Nests(flat, n, enc)
    ensures m == n
  {
    forall s | s in m
      ensures s in n
    {
      var a :| a in m[s];
      assert (s, a) in flat;
    }
    forall s | s in n
      ensures s in m && m[s] == n[s]
    {
      var a :| a in n[s];
      assert (s, a) in flat;
      assert forall b :: b in m[s] <==> (s, b) in flat;
      assert forall b :: b in n[s] <==> (s, b) in flat;
    }
  }

  /** Reading back what was written gives the same table, when `dec` undoes `enc`. */
  lemma RoundTrip<K(!new), V, W>(flat: Flat<K, V>, nested: Nested<K, W>, enc: V -> W, dec: W -> Option<V>)
    requires Nests(flat, nested, enc) && forall v :: v in flat.Values ==> dec(enc(v)) == Some(v)
    ensures AllDecode(nested, dec) && FlattensTo(nested, flat, dec)
  {
    forall s, a | (s, a) in flat
      ensures dec(nested[s][a]) == Some(flat[(s, a)])
    {
      assert flat[(s, a)] in flat.Values;
    }
  }

  function Group<K, W>(nested: Nested<K, W>, s: K): map<K, W> {
    if s in nested then nested[s] else map[]
  }

  lemma InsertNests<K(!new), V, W>(flat: Flat<K, V>, nested: Nested<K, W>, s: K, a: K, v: V, enc: V -> W)
    requires Nests(flat, nested, enc)
    ensures Nests(flat[(s, a) := v], nested[s := Group(nested, s)[a := enc(v)]], enc)
  {
    var flat', nested' := flat[(s, a) := v], nested[s := Group(nested, s)[a := enc(v)]];
    assert a in nested'[s];
  }

  ghost function Without<K, V>(flat: Flat<K, V>, todo: set<(K, K)>): Flat<K, V> {
    map k | k in flat && k !in todo :: flat[k]
  }

  lemma WithoutOne<K, V>(flat: Flat<K, V>, todo: set<(K, K)>, k: (K, K))
    requires k in todo && k in flat
    ensures Without(flat, todo - {k}) == Without(flat, todo)[(k.0, k.1) := flat[k]]
  {
  }

  /** Build the nested form entry by entry, in whatever order the hash map yields them. */
  method BuildNested<K(==,!new), V, W>(flat: Flat<K, V>, enc: V -> W) returns (nested: Nested<K, W>)
    ensures Nests(flat, nested, enc)
  {
    nested := map[];
    var todo := flat.Keys;
    assert Without(flat, todo) == map[];
    while todo != {}
      invariant todo <= flat.Keys
      invariant Nests(Without(flat, todo), nested, enc)
      decreases |todo|
    {
      var k :| k in todo;
      InsertNests(Without(flat, todo), nested, k.0, k.1, flat[k], enc);
      WithoutOne(flat, todo, k);
      nested := nested[k.0 := Group(nested, k.0)[k.1 := enc(flat[k])]];
      todo := todo - {k};
    }
    assert Without(flat, {}) == flat;
  }

  lemma AddAccount<K(!new), V, W>(
    done: Nested<K, W>, all: map<K, W>, s: K, left: set<K>, a: K, flat: Flat<K, V>, v: V, dec: W -> Option<V>)
    requires s !in done && a in left && left <= all.Keys && dec(all[a]) == Some(v)
    requires FlattensTo(done[s := all - left], flat, dec)
    ensures FlattensTo(done[s := all - (left - {a})], flat[(s, a) := v], dec)
  {
    var before, after := done[s := all - left], done[s := all - (left - {a})];
    assert after[s].Keys == before[s].Keys + {a};
  }

  /** The inner loop of the load, over one group. */
  method FlattenGroup<K(==,!new), V, W>(
    ghost done: Nested<K, W>, s: K, all: map<K, W>, flat: Flat<K, V>, dec: W -> Option<V>)
    returns (r: Option<Flat<K, V>>)
    requires s !in done && FlattensTo(done, flat, dec)
    ensures r.Some? <==> forall a :: a in all ==> dec(all[a]).Some?
    ensures r.Some? ==> FlattensTo(done[s := all], r.value, dec)
  {
    var result := flat;
    var left := all.Keys;
    assert FlattensTo(done[s := all - left], result, dec);
    while left != {}
      invariant left <= all.Keys
      invariant FlattensTo(done[s := all - left], result, dec)
      invariant forall a :: a in all && a !in left ==> dec(all[a]).Some?
      decreases |left|
    {
      var a :| a in left;
      var v := dec(all[a]);
      if v.None? {
        return None;
      }
      AddAccount(done, all, s, left, a, result, v.value, dec);
      result := result[(s, a) := v.value];
      left := left - {a};
    }
    assert all - {} == all;
    r := Some(result);
  }

  lemma DecodeGroup<K(!new), V, W>(nested: Nested<K, W>, groups: set<K>, s: K, dec: W -> Option<V>)
    requires s in groups && groups <= nested.Keys && AllDecode(nested - groups, dec)
    ensures (nested - groups)[s := nested[s]] == nested - (groups - {s})
    ensures AllDecode(nested - (groups - {s}), dec) <==> forall a :: a in nested[s] ==> dec(nested[s][a]).Some?
    ensures AllDecode(nested, dec) ==> AllDecode(nested - (groups - {s}), dec)
  {
    var more := nested - (groups - {s});
    assert more[s] == nested[s];
    assert forall t :: t in more ==> more[t] == nested[t];
    forall t, a | t in more && a in more[t] && t != s
      ensures dec(more[t][a]).Some?
    {
      assert t in nested - groups && a in (nested - groups)[t];
    }
  }

  /** The outer loop of the load; the first value that does not decode fails it. */
  method Flatten<K(==,!new), V, W>(nested: Nested<K, W>, dec: W -> Option<V>) returns (r: Option<Flat<K, V>>)
    ensures r.Some? <==> AllDecode(nested, dec)
    ensures r.Some? ==> FlattensTo(nested, r.value, dec)
  {
    var flat: Flat<K, V> := map[];
    var groups := nested.Keys;
    while groups != {}
      invariant groups <= nested.Keys
      invariant FlattensTo(nested - groups, flat, dec)
      invariant AllDecode(nested - groups, dec)
      decreases |groups|
    {
      var s :| s in groups;
      var next := FlattenGroup(nested - groups, s, nested[s], flat, dec);
      DecodeGroup(nested, groups, s, dec);
      if next.None? {
        return None;
      }
      flat := next.value;
      groups := groups - {s};
    }
    assert nested - {} == nested;
    r := Some(flat);
  }
}
