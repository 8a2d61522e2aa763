/** The insertion order of a Python dict: a sequence of distinct keys, to
    which a new key is appended and from which a deleted key is removed
    without disturbing the others. */
module KeyOrder {

  /** No key occurs twice. */
  predicate Distinct(keys: seq<string>) {
    forall i, j :: 0 <= i < j < |keys| ==> keys[i] != keys[j]
  }

  /** The keys list every name of `names` exactly once, and nothing else. */
  predicate ListsExactly(keys: seq<string>, names: set<string>) {
    && Distinct(keys)
    && (forall k :: 0 <= k < |keys| ==> keys[k] in names)
    && (forall n :: n in names ==> n in keys)
  }

  /** `keys` with every occurrence of `x` removed, the rest in order. */
  function Without(keys: seq<string>, x: string): (r: seq<string>)
    ensures forall y :: y in r <==> y in keys && y != x
  {
    if keys == [] then []
    else
      var last := keys[|keys| - 1];
      Without(keys[..|keys| - 1], x) + (if last == x then [] else [last])
  }

  /** Removing a key that occurs once, at index `i`, closes the gap. */
  lemma {:induction false} WithoutAt(keys: seq<string>, x: string, i: int)
    requires Distinct(keys) && 0 <= i < |keys| && keys[i] == x
    ensures Without(keys, x) == keys[..i] + keys[i + 1..]
  {
    var init := keys[..|keys| - 1];
    if i == |keys| - 1 {
      WithoutAbsent(init, x);
    } else {
      WithoutAt(init, x, i);
      assert keys[i + 1..] == init[i + 1..] + [keys[|keys| - 1]];
    }
  }

  /** Removing a key that does not occur changes nothing. */
  lemma {:induction false} WithoutAbsent(keys: seq<string>, x: string)
    requires x !in keys
    ensures Without(keys, x) == keys
  {
    if keys != [] {
      WithoutAbsent(keys[..|keys| - 1], x);
    }
  }

  /** Removal keeps the keys distinct. */
  lemma WithoutDistinct(keys: seq<string>, x: string)
    requires Distinct(keys)
    ensures Distinct(Without(keys, x))
  {
    if i :| 0 <= i < |keys| && keys[i] == x {
      WithoutAt(keys, x, i);
      var r := Without(keys, x);
      forall a, b | 0 <= a < b < |r| ensures r[a] != r[b] {
        var a', b' := if a < i then a else a + 1, if b < i then b else b + 1;
        assert r[a] == keys[a'] && r[b] == keys[b'];
      }
    } else {
      WithoutAbsent(keys, x);
    }
  }

  /** Appending a new key keeps the keys distinct. */
  lemma AppendDistinct(keys: seq<string>, x: string)
    requires Distinct(keys) && x !in keys
    ensures Distinct(keys + [x])
  {
  }

  /** The set of keys of a sequence of distinct keys has as many elements
      as the sequence. */
  lemma {:induction false} DistinctCardinality(keys: seq<string>)
    requires Distinct(keys)
    ensures |set k | k in keys| == |keys|
  {
    if keys != [] {
      var init := keys[..|keys| - 1];
      DistinctCardinality(init);
      assert (set k | k in keys) == (set k | k in init) + {keys[|keys| - 1]};
    }
  }

  /** A sequence of distinct keys that lists exactly the keys of a map is as
      long as the map is large. */
  lemma KeysCardinality<V>(keys: seq<string>, m: map<string, V>)
    requires ListsExactly(keys, m.Keys)
    ensures |keys| == |m|
  {
    DistinctCardinality(keys);
    assert m.Keys == set k | k in keys;
  }
}
