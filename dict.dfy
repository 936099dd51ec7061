/**
 * A Python `dict` with string keys, as the converter page uses it: assignment `d[k] = v` and
 * iteration in insertion order.  Re-assigning an existing key replaces its
 * value and keeps its original position.
 */
module OrderedDict {

  datatype Dict<V> = Dict(keys: seq<string>, entries: map<string, V>)
  {
    /** The keys are listed once each, in insertion order, and are exactly the mapped keys. */
    ghost predicate Valid()
    {
      && (forall i, j :: 0 <= i < j < |keys| ==> keys[i] != keys[j])
      && (forall k :: k in entries <==> k in keys)
    }

    /** `d[k] = v`. */
    function Put(k: string, v: V): (d: Dict<V>)
      ensures d.entries == entries[k := v]
      ensures d.keys == if k in entries then keys else keys + [k]
      ensures |d.entries| == if k in entries then |entries| else |entries| + 1
    {
      if k in entries then Dict(keys, entries[k := v]) else Dict(keys + [k], entries[k := v])
    }
  }

  /** Assignment keeps a dict well formed. */
  lemma PutValid<V>(d: Dict<V>, k: string, v: V)
    requires d.Valid()
    ensures d.Put(k, v).Valid()
  {
  }

  /** `{}`. */
  function Empty<V>(): (d: Dict<V>)
    ensures d.Valid() && d.keys == [] && d.entries == map[]
  {
    Dict([], map[])
  }

  /** A list without repeats has as many distinct elements as positions. */
  lemma {:induction false} DistinctCount(s: seq<string>)
    requires forall i, j :: 0 <= i < j < |s| ==> s[i] != s[j]
    ensures |(set k | k in s)| == |s|
  {
    if s != [] {
      var front, last := s[..|s| - 1], s[|s| - 1];
      DistinctCount(front);
      assert (set k | k in s) == (set k | k in front) + {last};
      assert last !in (set k | k in front);
    }
  }

  /** In a valid dict the number of keys listed is the number of entries. */
  lemma ValidSize<V>(d: Dict<V>)
    requires d.Valid()
    ensures |d.keys| == |d.entries|
  {
    assert d.entries.Keys == set k | k in d.keys;
    DistinctCount(d.keys);
  }
}
