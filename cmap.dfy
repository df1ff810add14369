/** `CMap` from utils/map.go: a key/value store guarded by a reader/writer
    lock. The lock is left out (every method is modelled as one atomic
    step). Go's nil map is `None`: the zero value of a `CMap` holds no map,
    and `Store`/`LoadOrStore` allocate it on first use. */
module Utils {
  import opened Wrappers
  import Collections

  class CMap<K(==), V(0)> {
    var storage: Option<map<K, V>>

    /** The bindings the map holds; a nil map holds none. */
    function Contents(): (m: map<K, V>)
      reads this
      ensures storage.None? ==> m == map[]
    {
      storage.GetOr(map[])
    }

    /** The zero value `CMap{}`: no storage allocated yet. */
    constructor ()
      ensures storage == None
      ensures Contents() == map[]
    {
      storage := None;
    }

    method Store(key: K, value: V)
      modifies this
      ensures storage.Some?
      ensures Contents() == old(Contents())[key := value]
    {
      if storage.None? {
        storage := Some(map[]);
      }
      storage := Some(storage.value[key := value]);
    }

    method Load(key: K) returns (value: V, ok: bool)
      ensures ok <==> key in Contents()
      ensures ok ==> value == Contents()[key]
    {
      ok := storage.Some? && key in storage.value;
      // Go returns the zero value here; the model leaves it unspecified
      value := *;
      if ok {
        value := storage.value[key];
      }
    }

    method LoadOrStore(key: K, value: V) returns (actual: V, loaded: bool)
      modifies this
      ensures storage.Some?
      ensures loaded <==> key in old(Contents())
      ensures loaded ==> actual == old(Contents())[key] && Contents() == old(Contents())
      ensures !loaded ==> actual == value && Contents() == old(Contents())[key := value]
    {
      if storage.None? {
        storage := Some(map[]);
      }
      loaded := key in storage.value;
      if loaded {
        actual := storage.value[key];
      } else {
        storage := Some(storage.value[key := value]);
        actual := value;
      }
    }

    /** Deleting from a nil map is a no-op and does not allocate it. */
    method Delete(key: K)
      modifies this
      ensures storage.None? <==> old(storage).None?
      ensures Contents() == old(Contents()) - {key}
    {
      if storage.Some? {
        storage := Some(storage.value - {key});
      }
    }

    /** One value per key, in unspecified order; the loop over the storage
        is the one `maps.Values` performs, modelled once in Collections. */
    method AllValues() returns (values: seq<V>)
      ensures multiset(values) == Collections.MultisetOfValues(Contents())
      ensures |values| == |Contents()|
    {
      values := Collections.Values(Contents());
    }

    /** Calls `f` on the entries, in unspecified order, until `f` first
        returns false. `visited` is the sequence of calls made. */
    method Range(f: (K, V) -> bool) returns (visited: seq<(K, V)>)
      ensures forall i :: 0 <= i < |visited| ==>
        visited[i].0 in Contents() && Contents()[visited[i].0] == visited[i].1
      ensures forall i, j :: 0 <= i < j < |visited| ==> visited[i].0 != visited[j].0
      ensures forall i :: 0 <= i < |visited| - 1 ==> f(visited[i].0, visited[i].1)
      ensures |visited| == |Contents()| || (visited != [] && !f(visited[|visited| - 1].0, visited[|visited| - 1].1))
    {
      visited := [];
      var rest := Contents();
      while rest != map[]
        invariant rest.Keys <= Contents().Keys
        invariant forall k :: k in rest ==> rest[k] == Contents()[k]
        invariant forall i :: 0 <= i < |visited| ==>
          visited[i].0 in Contents() && visited[i].0 !in rest && Contents()[visited[i].0] == visited[i].1
        invariant forall i, j :: 0 <= i < j < |visited| ==> visited[i].0 != visited[j].0
        invariant forall i :: 0 <= i < |visited| ==> f(visited[i].0, visited[i].1)
        invariant |visited| + |rest.Keys| == |Contents().Keys|
        decreases rest.Keys
      {
        var k :| k in rest;
        visited := visited + [(k, rest[k])];
        var goOn := f(k, rest[k]);
        rest := rest - {k};
        if !goOn {
          break;
        }
      }
    }

    /** A fresh map holding the current bindings. A Dafny `map` is a value,
        so later `Store`/`Delete` calls cannot change the copy. */
    method EntireMap() returns (copy: map<K, V>)
      ensures copy == Contents()
    {
      copy := map[];
      var rest := Contents();
      while rest != map[]
        invariant rest.Keys !! copy.Keys
        invariant rest.Keys + copy.Keys == Contents().Keys
        invariant forall k :: k in rest ==> rest[k] == Contents()[k]
        invariant forall k :: k in copy ==> copy[k] == Contents()[k]
        decreases rest.Keys
      {
        var k :| k in rest;
        copy := copy[k := rest[k]];
        rest := rest - {k};
      }
    }
  }

  /** A `Load` after a `Store` finds the stored value, and every other key
      keeps its binding. */
  method StoreThenLoad<K(==), V(0)>(m: CMap<K, V>, k: K, v: V) returns (value: V, ok: bool)
    modifies m
    ensures ok && value == v
    ensures forall j :: j != k ==> (j in m.Contents() <==> j in old(m.Contents()))
    ensures forall j :: j != k && j in m.Contents() ==> m.Contents()[j] == old(m.Contents())[j]
  {
    m.Store(k, v);
    value, ok := m.Load(k);
  }
}
