/**
 * Finite maps stored as sequences of (key, value) pairs: the representation
 * `Conditions` keeps in its `pairs` field. A sequence describes the map that
 * inserting its pairs one by one, first to last, produces.
 */
module Pairs {

  /** No key occurs in two pairs. */
  predicate DistinctKeys<K(==), V>(s: seq<(K, V)>) {
    forall i, j | 0 <= i < j < |s| :: s[i].0 != s[j].0
  }

  /** The keys of the pairs. */
  function KeysOf<K, V>(s: seq<(K, V)>): set<K> {
    set i | 0 <= i < |s| :: s[i].0
  }

  /** The values of the pairs, in pair order. */
  function ValuesOf<K, V>(s: seq<(K, V)>): (vs: seq<V>)
    ensures |vs| == |s|
    ensures forall i | 0 <= i < |s| :: vs[i] == s[i].1
  {
    if s == [] then [] else ValuesOf(s[..|s| - 1]) + [s[|s| - 1].1]
  }

  /** The map obtained by inserting the pairs in order; a later pair overrides an earlier one. */
  function MapOf<K, V>(s: seq<(K, V)>): map<K, V> {
    if s == [] then map[] else MapOf(s[..|s| - 1])[s[|s| - 1].0 := s[|s| - 1].1]
  }

  /** Inserting one more pair extends the map by that pair. */
  lemma MapOfSnoc<K, V>(s: seq<(K, V)>, i: nat)
    requires i < |s|
    ensures MapOf(s[..i + 1]) == MapOf(s[..i])[s[i].0 := s[i].1]
  {
    assert s[..i + 1][..i] == s[..i];
  }

  /** Appending a pair adds its key. */
  lemma KeysOfAppend<K, V>(s: seq<(K, V)>, p: (K, V))
    ensures KeysOf(s + [p]) == KeysOf(s) + {p.0}
  {
    var t := s + [p];
    assert t[|s|] == p;
    forall k | k in KeysOf(s) ensures k in KeysOf(t) {
      var i :| 0 <= i < |s| && s[i].0 == k;
      assert t[i] == s[i];
    }
  }

  /** Appending a pair with a new key keeps the keys distinct. */
  lemma DistinctAppend<K, V>(s: seq<(K, V)>, p: (K, V))
    requires DistinctKeys(s)
    requires p.0 !in KeysOf(s)
    ensures DistinctKeys(s + [p])
  {
    var t := s + [p];
    forall i, j | 0 <= i < j < |t| ensures t[i].0 != t[j].0 {
      assert t[i] == s[i];
      if j < |s| {
        assert t[j] == s[j];
      }
    }
  }

  /** The keys of the map are exactly the keys of the pairs. */
  lemma {:induction false} MapOfKeys<K, V>(s: seq<(K, V)>)
    ensures MapOf(s).Keys == KeysOf(s)
  {
    if s != [] {
      var init := s[..|s| - 1];
      MapOfKeys(init);
      assert KeysOf(s) == KeysOf(init) + {s[|s| - 1].0} by {
        forall k | k in KeysOf(s) ensures k in KeysOf(init) + {s[|s| - 1].0} {
          var i :| 0 <= i < |s| && s[i].0 == k;
          if i < |s| - 1 { assert init[i].0 == k; }
        }
        forall k | k in KeysOf(init) ensures k in KeysOf(s) {
          var i :| 0 <= i < |init| && init[i].0 == k;
          assert s[i].0 == k;
        }
      }
    }
  }

  /** With distinct keys, every pair survives in the map. */
  lemma {:induction false} MapOfAt<K, V>(s: seq<(K, V)>, i: nat)
    requires DistinctKeys(s)
    requires i < |s|
    ensures s[i].0 in MapOf(s) && MapOf(s)[s[i].0] == s[i].1
  {
    if i < |s| - 1 {
      var init := s[..|s| - 1];
      assert DistinctKeys(init) by {
        forall a, b | 0 <= a < b < |init| ensures init[a].0 != init[b].0 {
          assert init[a] == s[a] && init[b] == s[b];
        }
      }
      MapOfAt(init, i);
      assert init[i] == s[i];
      assert s[|s| - 1].0 != s[i].0;
    }
  }

  /** With distinct keys, the map has exactly as many entries as there are pairs. */
  lemma {:induction false} MapOfSize<K, V>(s: seq<(K, V)>)
    requires DistinctKeys(s)
    ensures |MapOf(s)| == |s|
  {
    if s != [] {
      var init := s[..|s| - 1];
      var last := s[|s| - 1];
      assert DistinctKeys(init) by {
        forall a, b | 0 <= a < b < |init| ensures init[a].0 != init[b].0 {
          assert init[a] == s[a] && init[b] == s[b];
        }
      }
      MapOfSize(init);
      MapOfKeys(init);
      assert last.0 !in KeysOf(init) by {
        forall a | 0 <= a < |init| ensures init[a].0 != last.0 {
          assert init[a] == s[a];
        }
      }
      assert MapOf(s).Keys == MapOf(init).Keys + {last.0};
    }
  }

  /** With distinct keys, a key maps to a value exactly when some pair holds both. */
  lemma MapOfHas<K, V>(s: seq<(K, V)>, k: K, v: V)
    requires DistinctKeys(s)
    ensures (k in MapOf(s) && MapOf(s)[k] == v) <==> (exists i | 0 <= i < |s| :: s[i] == (k, v))
  {
    MapOfKeys(s);
    if k in MapOf(s) {
      var i :| 0 <= i < |s| && s[i].0 == k;
      MapOfAt(s, i);
      if MapOf(s)[k] == v {
        assert s[i] == (k, v);
      }
    }
    if exists i | 0 <= i < |s| :: s[i] == (k, v) {
      var i :| 0 <= i < |s| && s[i] == (k, v);
      MapOfAt(s, i);
    }
  }

  /** With distinct keys, the values of the map are the values of the pairs. */
  lemma MapOfValues<K, V>(s: seq<(K, V)>, v: V)
    requires DistinctKeys(s)
    ensures v in MapOf(s).Values <==> v in ValuesOf(s)
  {
    if v in MapOf(s).Values {
      var k :| k in MapOf(s) && MapOf(s)[k] == v;
      MapOfHas(s, k, v);
      var i :| 0 <= i < |s| && s[i] == (k, v);
      assert ValuesOf(s)[i] == v;
    }
    if v in ValuesOf(s) {
      var i :| 0 <= i < |s| && ValuesOf(s)[i] == v;
      MapOfAt(s, i);
    }
  }

  /**
   * A sequence with distinct keys that agrees with a map on every key, and has
   * the same keys, describes exactly that map.
   */
  lemma MapOfExact<K, V>(s: seq<(K, V)>, m: map<K, V>)
    requires DistinctKeys(s)
    requires KeysOf(s) == m.Keys
    requires forall i | 0 <= i < |s| :: s[i].0 in m && m[s[i].0] == s[i].1
    ensures MapOf(s) == m
  {
    MapOfKeys(s);
    forall k | k in m ensures MapOf(s)[k] == m[k] {
      var i :| 0 <= i < |s| && s[i].0 == k;
      MapOfAt(s, i);
    }
  }

  /**
   * The order of the pairs does not matter to the map: two sequences with
   * distinct keys holding the same pairs describe the same map, even though
   * the sequences themselves differ.
   */
  lemma PermutedSameMap<K, V>(s: seq<(K, V)>, t: seq<(K, V)>)
    requires DistinctKeys(s) && DistinctKeys(t)
    requires multiset(s) == multiset(t)
    ensures MapOf(s) == MapOf(t)
  {
    forall i | 0 <= i < |s| ensures s[i].0 in MapOf(t) && MapOf(t)[s[i].0] == s[i].1 {
      assert s[i] in multiset(t);
      var j :| 0 <= j < |t| && t[j] == s[i];
      MapOfAt(t, j);
    }
    assert KeysOf(s) == KeysOf(t) by {
      forall k | k in KeysOf(s) ensures k in KeysOf(t) {
        var i :| 0 <= i < |s| && s[i].0 == k;
        assert s[i] in multiset(t);
        var j :| 0 <= j < |t| && t[j] == s[i];
      }
      forall k | k in KeysOf(t) ensures k in KeysOf(s) {
        var j :| 0 <= j < |t| && t[j].0 == k;
        assert t[j] in multiset(s);
        var i :| 0 <= i < |s| && s[i] == t[j];
      }
    }
    MapOfKeys(t);
    MapOfExact(s, MapOf(t));
  }

  /** Updating a map adds an entry exactly when the key was absent. */
  lemma UpdateSize<K, V>(m: map<K, V>, k: K, v: V)
    ensures |m[k := v]| == if k in m then |m| else |m| + 1
  {
    if k in m {
      assert m[k := v].Keys == m.Keys;
    } else {
      assert m[k := v].Keys == m.Keys + {k};
    }
  }

  /** Merging maps adds one entry per key new to the first map. */
  lemma MergeSize<K, V>(m: map<K, V>, c: map<K, V>)
    ensures |m + c| == |m| + |c.Keys - m.Keys|
  {
    var fresh_keys := c.Keys - m.Keys;
    assert (m + c).Keys == m.Keys + fresh_keys;
    assert m.Keys !! fresh_keys;
  }
}
