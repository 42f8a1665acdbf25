/** The endpoint registry: a Python dict from endpoint id to descriptor.
    A dict remembers insertion order (the report walks it in that order)
    but `==` on dicts ignores order, so the registry is an association list
    together with the map it stands for. */
module Registry {
  import opened Results

  /** One endpoint: the `details` dict. `params` is `None` when the dict
      has no `params` key; `description` is `None` when it holds `None`. */
  datatype Descriptor = Descriptor(params: Option<map<string, string>>, description: Option<string>, url: string)

  /** A dict as its `items()`, in insertion order. */
  type Dict<V> = seq<(string, V)>

  predicate DistinctKeys<V>(d: Dict<V>)
  {
    forall j, k :: 0 <= j < k < |d| ==> d[j].0 != d[k].0
  }

  /** `key in d`. */
  predicate HasKey<V>(d: Dict<V>, key: string)
  {
    |d| > 0 && (d[0].0 == key || HasKey(d[1..], key))
  }

  /** A dict has a key exactly when some item carries it. */
  lemma {:induction false} HasKeyIndex<V>(d: Dict<V>, key: string)
    ensures HasKey(d, key) <==> exists k :: 0 <= k < |d| && d[k].0 == key
  {
    if |d| > 0 {
      HasKeyIndex(d[1..], key);
      if exists k :: 0 <= k < |d| && d[k].0 == key {
        var k :| 0 <= k < |d| && d[k].0 == key;
        if k > 0 {
          assert d[1..][k - 1].0 == key;
        }
      }
      if HasKey(d[1..], key) {
        var k :| 0 <= k < |d| - 1 && d[1..][k].0 == key;
        assert d[k + 1].0 == key;
      }
    }
  }

  /** The dict's contents without their order: what `==` compares. When a
      key occurs twice the first item wins (a `Put` never lets that happen). */
  function AsMap<V>(d: Dict<V>): map<string, V>
  {
    if |d| == 0 then map[] else AsMap(d[1..])[d[0].0 := d[0].1]
  }

  /** The map has exactly the dict's keys. */
  lemma {:induction false} AsMapKeys<V>(d: Dict<V>)
    ensures forall key :: key in AsMap(d) <==> HasKey(d, key)
  {
    if |d| > 0 {
      AsMapKeys(d[1..]);
    }
  }

  /** In a dict with distinct keys every item is what its key looks up. */
  lemma {:induction false} AsMapLookup<V>(d: Dict<V>, k: int)
    requires DistinctKeys(d) && 0 <= k < |d|
    ensures d[k].0 in AsMap(d) && AsMap(d)[d[k].0] == d[k].1
  {
    if k > 0 {
      assert d[k] == d[1..][k - 1];
      AsMapLookup(d[1..], k - 1);
    }
  }

  /** `d[key] = v`: an existing key keeps its place and gets the new value;
      a new key is appended at the end. */
  function Put<V>(d: Dict<V>, key: string, v: V): (r: Dict<V>)
    ensures HasKey(d, key) ==> |r| == |d| && forall k :: 0 <= k < |d| ==> r[k].0 == d[k].0
    ensures !HasKey(d, key) ==> r == d + [(key, v)]
  {
    if |d| == 0 then [(key, v)]
    else if d[0].0 == key then [(key, v)] + d[1..]
    else [d[0]] + Put(d[1..], key, v)
  }

  /** Writing a key is a map update of what the dict stands for. */
  lemma {:induction false} PutAsMap<V>(d: Dict<V>, key: string, v: V)
    ensures AsMap(Put(d, key, v)) == AsMap(d)[key := v]
  {
    if |d| > 0 {
      var r := Put(d, key, v);
      if d[0].0 == key {
        assert r[1..] == d[1..];
      } else {
        PutAsMap(d[1..], key, v);
        assert r[1..] == Put(d[1..], key, v);
        assert AsMap(r) == AsMap(d[1..])[key := v][d[0].0 := d[0].1];
      }
    }
  }

  /** Writing to a dict never duplicates a key. */
  lemma PutDistinct<V>(d: Dict<V>, key: string, v: V)
    requires DistinctKeys(d)
    ensures DistinctKeys(Put(d, key, v))
  {
    var r := Put(d, key, v);
    if HasKey(d, key) {
      forall j, k | 0 <= j < k < |r| ensures r[j].0 != r[k].0 {
        assert r[j].0 == d[j].0 && r[k].0 == d[k].0;
      }
    } else {
      HasKeyIndex(d, key);
      forall j, k | 0 <= j < k < |r| ensures r[j].0 != r[k].0 {
        assert r[j] == d[j];
        if k < |d| {
          assert r[k] == d[k];
        }
      }
    }
  }
}
