/**
 * A JavaScript `Map`: a finite map that remembers the order in which keys were
 * first inserted. Both the module table of the build and every module's
 * dependency map are values of this type.
 */
module OrderedMaps {

  /** `keys` is the insertion order, `entries` the key/value association. */
  datatype OrderedMap<K, V> = OrderedMap(keys: seq<K>, entries: map<K, V>) {

    /** The keys are listed once each, and exactly the keys of `entries` are listed. */
    ghost predicate Valid() {
      && (forall i, j :: 0 <= i < j < |keys| ==> keys[i] != keys[j])
      && entries.Keys == set k | k in keys
    }

    /**
     * `map.set(k, v)`: a key not yet present is appended to the insertion
     * order; a key already present keeps its place and takes the new value.
     */
    function Set(k: K, v: V): (m: OrderedMap<K, V>)
      requires Valid()
      ensures m.Valid()
      ensures m.entries == entries[k := v]
      ensures keys <= m.keys
      ensures k !in entries ==> |m.keys| == |keys| + 1 && m.keys[|keys|] == k
      ensures k in entries ==> m.keys == keys
    {
      if k in entries then OrderedMap(keys, entries[k := v]) else OrderedMap(keys + [k], entries[k := v])
    }

    /** `map.values()`, in insertion order. */
    function Values(): seq<V>
      requires Valid()
    {
      seq(|keys|, i requires 0 <= i < |keys| => entries[keys[i]])
    }
  }

  function Empty<K, V>(): (m: OrderedMap<K, V>)
    ensures m.Valid() && m.keys == []
  {
    OrderedMap([], map[])
  }

  /** Every value stored under a key is one of `values()`. */
  lemma ValuesContain<K, V>(m: OrderedMap<K, V>, k: K)
    requires m.Valid() && k in m.entries
    ensures m.entries[k] in m.Values()
  {
    var j :| 0 <= j < |m.keys| && m.keys[j] == k;
    assert m.Values()[j] == m.entries[k];
  }

  /** The first components of a list of pairs. */
  function Firsts<K, V>(ps: seq<(K, V)>): (r: seq<K>)
    ensures |r| == |ps| && forall i :: 0 <= i < |ps| ==> r[i] == ps[i].0
  {
    seq(|ps|, i requires 0 <= i < |ps| => ps[i].0)
  }

  /** The elements of `s`, each once, in the order of their first occurrence. */
  function Dedup<T(==)>(s: seq<T>): (d: seq<T>)
    ensures forall i :: 0 <= i < |d| ==> d[i] in s
    ensures forall i :: 0 <= i < |s| ==> s[i] in d
    ensures forall i, j :: 0 <= i < j < |d| ==> d[i] != d[j]
  {
    if s == [] then []
    else
      var d := Dedup(s[..|s| - 1]);
      if s[|s| - 1] in d then d else d + [s[|s| - 1]]
  }

  /**
   * `Dedup` keeps the order of first occurrence: of two kept elements, the
   * earlier one occurs in `s` before the later one first does.
   */
  lemma {:induction false} DedupOrder<T>(s: seq<T>, i: nat, j: nat)
    requires i < j < |Dedup(s)|
    ensures exists k :: 0 <= k < |s| && s[k] == Dedup(s)[i] && Dedup(s)[j] !in s[..k + 1]
  {
    var init := s[..|s| - 1];
    var x := s[|s| - 1];
    var d := Dedup(init);
    if x in d || j < |d| {
      DedupOrder(init, i, j);
      var k :| 0 <= k < |init| && init[k] == d[i] && d[j] !in init[..k + 1];
      assert s[..k + 1] == init[..k + 1];
    } else {
      assert Dedup(s) == d + [x];
      var k :| 0 <= k < |init| && init[k] == d[i];
      assert x !in init;
      assert s[..k + 1] == init[..k + 1];
    }
  }

  /** A list without repetitions is its own deduplication. */
  lemma {:induction false} DedupOfDistinct<T>(s: seq<T>)
    requires forall i, j :: 0 <= i < j < |s| ==> s[i] != s[j]
    ensures Dedup(s) == s
  {
    if s != [] {
      var init := s[..|s| - 1];
      DedupOfDistinct(init);
      assert s[|s| - 1] !in init;
      assert s == init + [s[|s| - 1]];
    }
  }

  /**
   * `new Map(pairs)`: the pairs are `set` one after another, so the keys come
   * in the order of their first occurrence and a repeated key keeps the value
   * of its last pair (see the lemmas below).
   */
  function FromEntries<K, V>(ps: seq<(K, V)>): (m: OrderedMap<K, V>)
    ensures m.Valid()
  {
    if ps == [] then Empty()
    else FromEntries(ps[..|ps| - 1]).Set(ps[|ps| - 1].0, ps[|ps| - 1].1)
  }

  /** One key per distinct first component, in order of first occurrence. */
  lemma {:induction false} FromEntriesKeys<K, V>(ps: seq<(K, V)>)
    ensures FromEntries(ps).keys == Dedup(Firsts(ps))
  {
    if ps != [] {
      var init := ps[..|ps| - 1];
      FromEntriesKeys(init);
      assert Firsts(ps)[..|ps| - 1] == Firsts(init);
    }
  }

  /** Every stored association is one of the pairs. */
  lemma {:induction false} FromEntriesFromPairs<K, V>(ps: seq<(K, V)>)
    ensures forall k :: k in FromEntries(ps).entries ==> (k, FromEntries(ps).entries[k]) in ps
  {
    if ps != [] {
      var init := ps[..|ps| - 1];
      FromEntriesFromPairs(init);
      assert ps == init + [ps[|ps| - 1]];
    }
  }

  /** A pair whose key does not occur again later determines that key's value. */
  lemma {:induction false} FromEntriesLastWins<K, V>(ps: seq<(K, V)>, i: nat)
    requires i < |ps|
    requires forall j :: i < j < |ps| ==> ps[j].0 != ps[i].0
    ensures ps[i].0 in FromEntries(ps).entries && FromEntries(ps).entries[ps[i].0] == ps[i].1
  {
    if i < |ps| - 1 {
      FromEntriesLastWins(ps[..|ps| - 1], i);
    }
  }
}
