/** The model of `maps.Values` from golang.org/x/exp/maps: the values of a
    map, one per key, in an order the language leaves unspecified. Because
    the order is not fixed, results are stated as multisets. */
module Collections {

  /** The multiset of the values bound in `m`, one occurrence per key. */
  ghost function MultisetOfValues<K, V>(m: map<K, V>): multiset<V>
    decreases m.Keys
  {
    if m == map[] then multiset{}
    else
      var k :| k in m;
      multiset{m[k]} + MultisetOfValues(m - {k})
  }

  /** Any key may be taken out first: the multiset does not depend on the
      key the definition happens to choose. */
  lemma {:induction false} MultisetOfValuesRemove<K, V>(m: map<K, V>, k: K)
    requires k in m
    ensures MultisetOfValues(m) == multiset{m[k]} + MultisetOfValues(m - {k})
    decreases m.Keys
  {
    var j :| j in m && MultisetOfValues(m) == multiset{m[j]} + MultisetOfValues(m - {j});
    if j != k {
      assert m - {j} - {k} == m - {k} - {j};
      MultisetOfValuesRemove(m - {j}, k);
      MultisetOfValuesRemove(m - {k}, j);
      assert (m - {j})[k] == m[k];
      assert (m - {k})[j] == m[j];
    }
  }

  /** One value per key. */
  lemma {:induction false} MultisetOfValuesSize<K, V>(m: map<K, V>)
    ensures |MultisetOfValues(m)| == |m|
    decreases m.Keys
  {
    if m != map[] {
      var k :| k in m;
      MultisetOfValuesRemove(m, k);
      MultisetOfValuesSize(m - {k});
      assert (m - {k}).Keys == m.Keys - {k};
    }
  }

  /** A value occurs in the multiset exactly when some key is bound to it. */
  lemma {:induction false} MultisetOfValuesMembership<K, V>(m: map<K, V>, v: V)
    ensures v in MultisetOfValues(m) <==> v in m.Values
    decreases m.Keys
  {
    if m != map[] {
      var k :| k in m;
      MultisetOfValuesRemove(m, k);
      MultisetOfValuesMembership(m - {k}, v);
      if v in m.Values && v != m[k] {
        var j :| j in m && m[j] == v;
        assert j in m - {k};
      }
    }
  }

  /** When no two keys share a value, every value occurs at most once. */
  lemma {:induction false} MultisetOfValuesInjective<K, V>(m: map<K, V>, v: V)
    requires forall k1, k2 :: k1 in m && k2 in m && k1 != k2 ==> m[k1] != m[k2]
    ensures MultisetOfValues(m)[v] <= 1
    decreases m.Keys
  {
    if m != map[] {
      var k :| k in m;
      MultisetOfValuesRemove(m, k);
      MultisetOfValuesInjective(m - {k}, v);
      MultisetOfValuesMembership(m - {k}, m[k]);
    }
  }

  /** `maps.Values(m)`: a slice holding one value per key of `m`. */
  method Values<K, V>(m: map<K, V>) returns (vs: seq<V>)
    ensures multiset(vs) == MultisetOfValues(m)
    ensures |vs| == |m|
  {
    vs := [];
    var rest := m;
    while rest != map[]
      invariant multiset(vs) + MultisetOfValues(rest) == MultisetOfValues(m)
      decreases rest.Keys
    {
      var k :| k in rest;
      MultisetOfValuesRemove(rest, k);
      vs := vs + [rest[k]];
      rest := rest - {k};
    }
    MultisetOfValuesSize(m);
  }

  /** Two equal elements at distinct positions occur twice in the multiset. */
  lemma Occurrences<T>(s: seq<T>, i: nat, j: nat)
    requires i < j < |s|
    ensures s[i] == s[j] ==> multiset(s)[s[i]] >= 2
  {
    assert s == s[..i] + [s[i]] + s[i + 1..j] + [s[j]] + s[j + 1..];
  }

  /** A sequence whose multiset holds every element at most once has no
      repeated element. */
  lemma NoRepeats<T>(s: seq<T>)
    requires forall v :: multiset(s)[v] <= 1
    ensures forall i, j :: 0 <= i < j < |s| ==> s[i] != s[j]
  {
    forall i, j | 0 <= i < j < |s|
      ensures s[i] != s[j]
    {
      Occurrences(s, i, j);
    }
  }
}
