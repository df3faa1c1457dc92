/** Python dictionaries keyed by strings, which iterate in insertion order. */
module OrderedDicts {
  import opened Collections

  /** The key/value mapping together with the order in which the keys were first inserted. */
  datatype Dict<V> = Dict(items: map<string, V>, keys: seq<string>) {

    ghost predicate Valid() {
      NoDuplicates(keys) && (forall k :: k in items <==> k in keys)
    }

    /** `d.values()`, in insertion order. */
    function Values(): (vs: seq<V>)
      requires Valid()
      ensures |vs| == |keys|
      ensures forall i :: 0 <= i < |keys| ==> vs[i] == items[keys[i]]
    {
      seq(|keys|, i requires 0 <= i < |keys| => items[keys[i]])
    }

    /** `d[k] = v`: a new key goes last, an existing key keeps its place and takes the new
        value. */
    function Put(k: string, v: V): (d: Dict<V>)
      requires Valid()
      ensures d.Valid()
      ensures d.items == items[k := v]
      ensures d.keys == if k in items then keys else keys + [k]
    {
      if k in items then Dict(items[k := v], keys) else Dict(items[k := v], keys + [k])
    }
  }

  /** Storing under the same key twice keeps only the second value. */
  lemma PutPut<V>(d: Dict<V>, k: string, v1: V, v2: V)
    requires d.Valid()
    ensures d.Put(k, v1).Put(k, v2) == d.Put(k, v2)
  {
    assert d.Put(k, v1).items[k := v2] == d.items[k := v2];
  }

  /** Storing a key's own value under it again changes nothing. */
  lemma PutSame<V>(d: Dict<V>, k: string)
    requires d.Valid() && k in d.items
    ensures d.Put(k, d.items[k]) == d
  {
    assert d.items[k := d.items[k]] == d.items;
  }

  /** `{}` */
  function EmptyDict<V>(): (d: Dict<V>)
    ensures d.Valid() && d.items == map[]
  {
    Dict(map[], [])
  }

  /** `d = {}; for v in vs: d[key(v)] = v`. Every value ends up under its own key; a later value
      with a key already seen replaces the earlier one in the earlier one's place. */
  function FromSeq<V>(vs: seq<V>, key: V -> string): (d: Dict<V>)
    ensures d.Valid()
    ensures forall k :: k in d.items ==> key(d.items[k]) == k
    ensures forall i :: 0 <= i < |vs| ==> key(vs[i]) in d.items
  {
    if vs == [] then EmptyDict()
    else
      var d := FromSeq(vs[..|vs| - 1], key);
      assert forall i :: 0 <= i < |vs| - 1 ==> vs[..|vs| - 1][i] == vs[i];
      d.Put(key(vs[|vs| - 1]), vs[|vs| - 1])
  }

  /** The keys of the built dict are the values' keys in the order each was first seen. */
  lemma {:induction false} FromSeqKeys<V>(vs: seq<V>, key: V -> string)
    ensures FromSeq(vs, key).keys == Distinct(MapSeq(vs, key))
  {
    if vs != [] {
      var n := |vs| - 1;
      FromSeqKeys(vs[..n], key);
      assert MapSeq(vs, key)[..n] == MapSeq(vs[..n], key);
    }
  }

  /** Only keys some value carries are present. */
  lemma {:induction false} FromSeqOnlyGivenKeys<V>(vs: seq<V>, key: V -> string)
    ensures forall k :: k in FromSeq(vs, key).items ==> exists i :: 0 <= i < |vs| && key(vs[i]) == k
  {
    if vs != [] {
      var n := |vs| - 1;
      FromSeqOnlyGivenKeys(vs[..n], key);
      assert FromSeq(vs, key) == FromSeq(vs[..n], key).Put(key(vs[n]), vs[n]);
      forall k | k in FromSeq(vs, key).items
        ensures exists i :: 0 <= i < |vs| && key(vs[i]) == k
      {
        if k != key(vs[n]) {
          var i :| 0 <= i < n && key(vs[..n][i]) == k;
          assert key(vs[i]) == k;
        }
      }
    }
  }

  /** The value filed under a key is the last value carrying that key. */
  lemma FromSeqLastWins<V>(vs: seq<V>, key: V -> string, i: int)
    requires 0 <= i < |vs|
    requires forall j :: i < j < |vs| ==> key(vs[j]) != key(vs[i])
    ensures FromSeq(vs, key).items[key(vs[i])] == vs[i]
  {
    assert vs[..|vs|] == vs;
    PrefixLastWins(vs, key, i, |vs|);
  }

  lemma {:induction false} PrefixLastWins<V>(vs: seq<V>, key: V -> string, i: int, m: int)
    requires 0 <= i < m <= |vs|
    requires forall j :: i < j < m ==> key(vs[j]) != key(vs[i])
    ensures FromSeq(vs[..m], key).items[key(vs[i])] == vs[i]
  {
    assert vs[..m][..m - 1] == vs[..m - 1];
    assert FromSeq(vs[..m], key).items == FromSeq(vs[..m - 1], key).items[key(vs[m - 1]) := vs[m - 1]];
    if i < m - 1 {
      PrefixLastWins(vs, key, i, m - 1);
    }
  }

  /** Rebuilding a dict from its values, when each value carries its own key, gives back the
      same dict, keys in the same order. */
  lemma FromSeqValues<V>(d: Dict<V>, key: V -> string)
    requires d.Valid()
    requires forall k :: k in d.items ==> key(d.items[k]) == k
    ensures FromSeq(d.Values(), key) == d
  {
    var n := |d.keys|;
    FromSeqValuesPrefix(d, key, n);
    assert d.Values()[..n] == d.Values();
    PrefixAll(d);
  }

  lemma PrefixAll<V>(d: Dict<V>)
    requires d.Valid()
    ensures Prefix(d, |d.keys|) == d
  {
    assert d.keys[..|d.keys|] == d.keys;
    assert Prefix(d, |d.keys|).items == d.items;
  }

  lemma {:induction false} FromSeqValuesPrefix<V>(d: Dict<V>, key: V -> string, n: nat)
    requires d.Valid()
    requires forall k :: k in d.items ==> key(d.items[k]) == k
    requires n <= |d.keys|
    ensures FromSeq(d.Values()[..n], key) == Prefix(d, n)
  {
    var vs := d.Values();
    if n == 0 {
      assert vs[..0] == [];
    } else {
      FromSeqValuesPrefix(d, key, n - 1);
      var k := d.keys[n - 1];
      assert vs[..n][..n - 1] == vs[..n - 1];
      assert vs[..n][n - 1] == d.items[k];
      PrefixStep(d, n);
    }
  }

  /** The first `n` keys of `d` with their values. */
  function Prefix<V>(d: Dict<V>, n: nat): Dict<V>
    requires d.Valid() && n <= |d.keys|
  {
    Dict(map k | k in d.keys[..n] :: d.items[k], d.keys[..n])
  }

  lemma PrefixStep<V>(d: Dict<V>, n: nat)
    requires d.Valid() && 0 < n <= |d.keys|
    ensures Prefix(d, n - 1).Valid()
    ensures Prefix(d, n) == Prefix(d, n - 1).Put(d.keys[n - 1], d.items[d.keys[n - 1]])
  {
    var k := d.keys[n - 1];
    assert k !in d.keys[..n - 1];
    assert d.keys[..n] == d.keys[..n - 1] + [k];
  }
}
