/**
 * Python dictionaries with their insertion order, as far as the font tables
 * need them: iteration in key order, `update`, and the inverted dictionary
 * `{v: k for k, v in d.items()}`.
 */
module Dicts {

  datatype Dict<K(==, !new), V> = Dict(keys: seq<K>, entries: map<K, V>)

  /** Every key occurs once in the order, and the order lists exactly the mapped keys. */
  ghost predicate Valid<K(!new), V>(d: Dict<K, V>) {
    (forall i, j :: 0 <= i < j < |d.keys| ==> d.keys[i] != d.keys[j]) &&
    (forall k :: k in d.entries <==> k in d.keys)
  }

  function Empty<K(==, !new), V>(): (r: Dict<K, V>)
    ensures Valid(r) && r.entries == map[]
  {
    Dict([], map[])
  }

  /** The keys of ks, in order, that the map does not have yet. */
  function NewKeys<K(==, !new), V>(ks: seq<K>, existing: map<K, V>): (r: seq<K>)
    ensures forall k :: k in r <==> k in ks && k !in existing
    ensures (forall i, j :: 0 <= i < j < |ks| ==> ks[i] != ks[j]) ==>
      forall i, j :: 0 <= i < j < |r| ==> r[i] != r[j]
    decreases |ks|
  {
    if ks == [] then []
    else
      var rest := NewKeys(ks[1..], existing);
      assert forall i, j :: 0 <= i < j < |ks[1..]| ==> ks[1..][i] == ks[i + 1] && ks[1..][j] == ks[j + 1];
      if ks[0] in existing then rest else [ks[0]] + rest
  }

  /**
   * `d.update(u)`: keys already present keep their place and take u's value;
   * the others are appended in u's order.
   */
  function Update<K(==, !new), V>(d: Dict<K, V>, u: Dict<K, V>): (r: Dict<K, V>)
    ensures forall k :: k in r.entries <==> k in d.entries || k in u.entries
    ensures forall k :: k in u.entries ==> r.entries[k] == u.entries[k]
    ensures forall k :: k in d.entries && k !in u.entries ==> r.entries[k] == d.entries[k]
    ensures |d.keys| <= |r.keys| && r.keys[..|d.keys|] == d.keys
  {
    var added := NewKeys(u.keys, d.entries);
    assert (d.keys + added)[..|d.keys|] == d.keys;
    Dict(d.keys + added, d.entries + u.entries)
  }

  /** Updating a dictionary keeps it well formed. */
  lemma UpdateValid<K(!new), V>(d: Dict<K, V>, u: Dict<K, V>)
    requires Valid(d) && Valid(u)
    ensures Valid(Update(d, u))
  {
    DistinctConcat(d.keys, NewKeys(u.keys, d.entries));
  }

  lemma DistinctConcat<K(!new)>(a: seq<K>, b: seq<K>)
    requires forall i, j :: 0 <= i < j < |a| ==> a[i] != a[j]
    requires forall i, j :: 0 <= i < j < |b| ==> b[i] != b[j]
    requires forall k :: k in b ==> k !in a
    ensures forall i, j :: 0 <= i < j < |a + b| ==> (a + b)[i] != (a + b)[j]
  {
    forall i, j | 0 <= i < j < |a + b|
      ensures (a + b)[i] != (a + b)[j]
    {
      if j < |a| {
      } else if i < |a| {
        assert (a + b)[j] == b[j - |a|] && (a + b)[i] == a[i];
        assert b[j - |a|] in b;
      } else {
        assert (a + b)[j] == b[j - |a|] && (a + b)[i] == b[i - |a|];
      }
    }
  }

  /** `{v: k for k, v in d.items()}`: each value is sent to the last key, in order, that maps to it. */
  function Invert<K(==, !new), V(==, !new)>(d: Dict<K, V>): map<V, K> {
    InvertKeys(d.keys, d.entries)
  }

  function InvertKeys<K(==, !new), V(==, !new)>(ks: seq<K>, entries: map<K, V>): map<V, K>
    decreases |ks|
  {
    if ks == [] then map[]
    else
      var last := ks[|ks| - 1];
      var before := InvertKeys(ks[..|ks| - 1], entries);
      if last in entries then before[entries[last] := last] else before
  }

  /**
   * The inverted dictionary has exactly the values as keys, and sends each of
   * them back to a key that maps to it (which one: InvertKeysLastWins).
   */
  lemma {:induction false} InvertKeysSpec<K(!new), V(!new)>(ks: seq<K>, entries: map<K, V>)
    ensures forall v :: v in InvertKeys(ks, entries) <==> exists k :: k in ks && k in entries && entries[k] == v
    ensures forall v :: v in InvertKeys(ks, entries) ==>
      InvertKeys(ks, entries)[v] in ks && InvertKeys(ks, entries)[v] in entries &&
      entries[InvertKeys(ks, entries)[v]] == v
    decreases |ks|
  {
    if ks != [] {
      var init := ks[..|ks| - 1];
      var last := ks[|ks| - 1];
      InvertKeysSpec(init, entries);
      var m := InvertKeys(init, entries);
      forall v | exists k :: k in ks && k in entries && entries[k] == v
        ensures v in InvertKeys(ks, entries)
      {
        var k :| k in ks && k in entries && entries[k] == v;
        if k != last {
          assert k in init;
        }
      }
      forall v | v in InvertKeys(ks, entries)
        ensures InvertKeys(ks, entries)[v] in ks && InvertKeys(ks, entries)[v] in entries
      {
        if last !in entries || v != entries[last] {
          assert m[v] in init;
        }
      }
    }
  }

  /** The i-th key maps to a value that no later key maps to. */
  predicate LastWithValue<K(==), V(==)>(ks: seq<K>, entries: map<K, V>, i: nat) {
    i < |ks| && ks[i] in entries &&
    forall j :: i < j < |ks| && ks[j] in entries ==> entries[ks[j]] != entries[ks[i]]
  }

  /** The inverted dictionary sends a value to the last key with that value. */
  lemma {:induction false} InvertKeysLastWins<K(!new), V(!new)>(ks: seq<K>, entries: map<K, V>, i: nat)
    requires LastWithValue(ks, entries, i)
    ensures entries[ks[i]] in InvertKeys(ks, entries) && InvertKeys(ks, entries)[entries[ks[i]]] == ks[i]
    decreases |ks|
  {
    var init := ks[..|ks| - 1];
    if i < |ks| - 1 {
      assert init[i] == ks[i];
      forall j | i < j < |init| && init[j] in entries
        ensures entries[init[j]] != entries[init[i]]
      {
        assert init[j] == ks[j];
      }
      assert LastWithValue(init, entries, i);
      InvertKeysLastWins(init, entries, i);
    }
  }

  /**
   * `{v: k for k, v in d.items()}` on a well-formed dictionary: exactly its
   * values become keys, each is sent back to a key mapping to it, and that
   * key is the last one, in insertion order, that maps to it.
   */
  lemma InvertSpec<K(!new), V(!new)>(d: Dict<K, V>)
    requires Valid(d)
    ensures forall v :: v in Invert(d) <==> exists k :: k in d.entries && d.entries[k] == v
    ensures forall v :: v in Invert(d) ==> Invert(d)[v] in d.entries && d.entries[Invert(d)[v]] == v
    ensures forall i: nat :: LastWithValue(d.keys, d.entries, i) ==>
      d.entries[d.keys[i]] in Invert(d) && Invert(d)[d.entries[d.keys[i]]] == d.keys[i]
  {
    InvertKeysSpec(d.keys, d.entries);
    forall i: nat | LastWithValue(d.keys, d.entries, i)
      ensures d.entries[d.keys[i]] in Invert(d) && Invert(d)[d.entries[d.keys[i]]] == d.keys[i]
    {
      InvertKeysLastWins(d.keys, d.entries, i);
    }
  }
}
