/**
 A JavaScript `Map`: the entries together with the insertion order of their keys.
 Setting a present key keeps its place, setting an absent key appends it, and
 deleting and setting again moves the key to the end.
 */
module JsMaps {

  datatype RawMap<K(==), V> = RawMap(keys: seq<K>, vals: map<K, V>)

  ghost predicate Distinct<K>(s: seq<K>) {
    forall i, j :: 0 <= i < j < |s| ==> s[i] != s[j]
  }

  ghost predicate WellFormed<K, V>(m: RawMap<K, V>) {
    && Distinct(m.keys)
    && (forall k | k in m.keys :: k in m.vals)
    && (forall k | k in m.vals :: k in m.keys)
  }

  type JsMap<K(==), V> = m: RawMap<K, V> | WellFormed(m) witness RawMap([], map[])

  function Empty<K(==), V>(): JsMap<K, V> {
    RawMap([], map[])
  }

  function Put<K(==), V>(m: JsMap<K, V>, k: K, v: V): JsMap<K, V> {
    if k in m.vals then RawMap(m.keys, m.vals[k := v]) else RawMap(m.keys + [k], m.vals[k := v])
  }

  function Elements<K(==)>(s: seq<K>): set<K> {
    set k | k in s
  }

  /** The elements of `s` that lie in `keep`, in order. */
  function Only<K(==)>(s: seq<K>, keep: set<K>): seq<K> {
    if s == [] then [] else Only(s[..|s| - 1], keep) + (if s[|s| - 1] in keep then [s[|s| - 1]] else [])
  }

  lemma {:induction false} OnlyElements<K>(s: seq<K>, keep: set<K>)
    ensures forall k | k in Only(s, keep) :: k in s && k in keep
    ensures forall k | k in s && k in keep :: k in Only(s, keep)
    ensures Distinct(s) ==> Distinct(Only(s, keep))
    ensures |Only(s, keep)| <= |s|
  {
    if s != [] {
      var init, last := s[..|s| - 1], s[|s| - 1];
      assert s == init + [last];
      OnlyElements(init, keep);
    }
  }

  function Restrict<K(==), V>(m: JsMap<K, V>, keep: set<K>): JsMap<K, V> {
    OnlyElements(m.keys, keep);
    RawMap(Only(m.keys, keep), map k | k in m.vals && k in keep :: m.vals[k])
  }

  /** The entries of `a` overlaid with those of `b`: new keys come last. */
  function Merge<K(==), V>(a: JsMap<K, V>, b: JsMap<K, V>): JsMap<K, V> {
    var added := Only(b.keys, b.vals.Keys - a.vals.Keys);
    MergeWellFormed(a, b);
    RawMap(a.keys + added, a.vals + b.vals)
  }

  lemma MergeWellFormed<K, V>(a: JsMap<K, V>, b: JsMap<K, V>)
    ensures var added := Only(b.keys, b.vals.Keys - a.vals.Keys);
            WellFormed(RawMap(a.keys + added, a.vals + b.vals))
  {
    var added := Only(b.keys, b.vals.Keys - a.vals.Keys);
    OnlyElements(b.keys, b.vals.Keys - a.vals.Keys);
    var keys := a.keys + added;
    forall i, j | 0 <= i < j < |keys| ensures keys[i] != keys[j] {
      if i < |a.keys| <= j {
        assert keys[i] in a.keys && keys[j] in added;
      }
    }
    forall k | k in (a.vals + b.vals) ensures k in keys {
      if k !in a.vals {
        assert k in added;
      }
    }
  }

  function Delete<K(==), V>(m: JsMap<K, V>, k: K): JsMap<K, V> {
    Restrict(m, m.vals.Keys - {k})
  }

  /** What is left after the `n` oldest keys are gone. */
  function DropOldest<K(==), V>(m: JsMap<K, V>, n: nat): JsMap<K, V>
    requires n <= |m.keys|
  {
    RawMap(m.keys[n..], map k | k in m.vals && k in m.keys[n..] :: m.vals[k])
  }

  /** Bringing the elements of `first` to the front loses none and repeats none. */
  lemma FrontFirst<K>(s: seq<K>, first: set<K>)
    requires Distinct(s)
    ensures var r := Only(s, first) + Only(s, Elements(s) - first);
            Distinct(r) && Elements(r) == Elements(s)
  {
    var a, b := Only(s, first), Only(s, Elements(s) - first);
    OnlyElements(s, first);
    OnlyElements(s, Elements(s) - first);
    var r := a + b;
    forall i, j | 0 <= i < j < |r| ensures r[i] != r[j] {
      if i < |a| <= j {
        assert r[i] in a && r[j] in b;
      }
    }
    forall k | k in s ensures k in r {
      assert k in a || k in b;
    }
  }

  lemma {:induction false} OnlyAll<K>(s: seq<K>, keep: set<K>)
    requires forall k | k in s :: k in keep
    ensures Only(s, keep) == s
  {
    if s != [] {
      OnlyAll(s[..|s| - 1], keep);
    }
  }

  lemma {:induction false} OnlyTwice<K>(s: seq<K>, a: set<K>, b: set<K>)
    ensures Only(Only(s, a), b) == Only(s, a * b)
  {
    if s == [] {
    } else {
      var init, last := s[..|s| - 1], s[|s| - 1];
      OnlyTwice(init, a, b);
      var tail := if last in a * b then [last] else [];
      assert Only(s, a * b) == Only(init, a * b) + tail;
      if last in a {
        OnlyAppend(Only(init, a), last, b);
        assert Only(s, a) == Only(init, a) + [last];
      } else {
        assert Only(s, a) == Only(init, a) + [];
        assert Only(init, a) + [] == Only(init, a);
      }
    }
  }

  lemma {:induction false} OnlyAppend<K>(s: seq<K>, x: K, keep: set<K>)
    ensures Only(s + [x], keep) == Only(s, keep) + (if x in keep then [x] else [])
  {
    assert (s + [x])[..|s|] == s;
  }

  lemma {:induction false} OnlyTail<K>(s: seq<K>, keep: set<K>)
    requires s != [] && s[0] !in keep
    requires forall k | k in s[1..] :: k in keep
    ensures Only(s, keep) == s[1..]
  {
    if |s| > 1 {
      var init := s[..|s| - 1];
      assert init[1..] == s[1..][..|s| - 2];
      OnlyTail(init, keep);
      assert s[|s| - 1] == s[1..][|s| - 2];
    }
  }

  lemma RestrictTwice<K, V>(m: JsMap<K, V>, a: set<K>, b: set<K>)
    ensures Restrict(Restrict(m, a), b) == Restrict(m, a * b)
  {
    OnlyTwice(m.keys, a, b);
  }

  lemma RestrictAll<K, V>(m: JsMap<K, V>, keep: set<K>)
    requires m.vals.Keys <= keep
    ensures Restrict(m, keep) == m
  {
    OnlyAll(m.keys, keep);
  }

  lemma DeleteRestricted<K, V>(m: JsMap<K, V>, keep: set<K>, k: K)
    requires keep <= m.vals.Keys
    ensures Delete(Restrict(m, keep), k) == Restrict(m, keep - {k})
  {
    RestrictTwice(m, keep, keep - {k});
    assert keep * (keep - {k}) == keep - {k};
    assert Restrict(m, keep).vals.Keys == keep;
  }

  lemma PutTwice<K, V>(m: JsMap<K, V>, k: K, v: V, w: V)
    ensures Put(Put(m, k, v), k, w) == Put(m, k, w)
  {
  }

  lemma PutSame<K, V>(m: JsMap<K, V>, k: K)
    requires k in m.vals
    ensures Put(m, k, m.vals[k]) == m
  {
  }

  /** Deleting the key at the front of the order. */
  lemma DeleteOldest<K, V>(m: JsMap<K, V>)
    requires m.keys != []
    ensures Delete(m, m.keys[0]) == DropOldest(m, 1)
  {
    OnlyTail(m.keys, m.vals.Keys - {m.keys[0]});
  }

  lemma DropOldestTwice<K, V>(m: JsMap<K, V>, n: nat)
    requires n < |m.keys|
    ensures Delete(DropOldest(m, n), m.keys[n]) == DropOldest(m, n + 1)
  {
    DeleteOldest(DropOldest(m, n));
    assert m.keys[n..][1..] == m.keys[n + 1..];
  }

  /** The number of keys listed is the number of entries. */
  lemma SizeIsCardinality<K, V>(m: JsMap<K, V>)
    ensures |m.keys| == |m.vals.Keys|
  {
    DistinctCount(m.keys, m.vals.Keys);
  }

  lemma {:induction false} DistinctCount<K>(s: seq<K>, elems: set<K>)
    requires Distinct(s)
    requires (forall k | k in s :: k in elems) && (forall k | k in elems :: k in s)
    ensures |s| == |elems|
  {
    if s == [] {
      assert elems == {};
    } else {
      var init, last := s[..|s| - 1], s[|s| - 1];
      assert s == init + [last];
      DistinctCount(init, elems - {last});
    }
  }
}
