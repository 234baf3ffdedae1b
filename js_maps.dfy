/** A JavaScript `Map`: entries in insertion order, one per key. `set` on a present key
    replaces its value where it stands; on a new key it appends. `delete` removes the key. */
module JsMaps {
  import opened Wrappers

  predicate DistinctKeys<K(==), V>(es: seq<(K, V)>)
  {
    forall i, j :: 0 <= i < j < |es| ==> es[i].0 != es[j].0
  }

  /** No key twice, stated entry by entry from the front. */
  predicate UniqueKeys<K(==), V>(es: seq<(K, V)>)
    decreases |es|
  {
    |es| == 0 || (es[0].0 !in Keys(es[1..]) && UniqueKeys(es[1..]))
  }

  /** The entries of a `Map` keyed by text: never two with the same key. */
  type StringMap<V> = es: seq<(string, V)> | UniqueKeys(es) witness []

  function Keys<K, V>(es: seq<(K, V)>): (r: seq<K>)
    ensures |r| == |es| && forall k :: 0 <= k < |es| ==> r[k] == es[k].0
  {
    seq(|es|, k requires 0 <= k < |es| => es[k].0)
  }

  function Values<K, V>(es: seq<(K, V)>): (r: seq<V>)
    ensures |r| == |es| && forall k :: 0 <= k < |es| ==> r[k] == es[k].1
  {
    seq(|es|, k requires 0 <= k < |es| => es[k].1)
  }

  /** `map.get(key)`: the value of the first entry with that key. */
  function Get<K(==), V>(es: seq<(K, V)>, key: K): Option<V>
    decreases |es|
  {
    if |es| == 0 then None
    else if es[0].0 == key then Some(es[0].1)
    else Get(es[1..], key)
  }

  /** `map.set(key, value)`. */
  function Set<K(==), V>(es: seq<(K, V)>, key: K, value: V): seq<(K, V)>
    decreases |es|
  {
    if |es| == 0 then [(key, value)]
    else if es[0].0 == key then [(key, value)] + es[1..]
    else [es[0]] + Set(es[1..], key, value)
  }

  /** `map.delete(key)`. */
  function Delete<K(==), V>(es: seq<(K, V)>, key: K): seq<(K, V)>
    decreases |es|
  {
    if |es| == 0 then []
    else (if es[0].0 == key then [] else [es[0]]) + Delete(es[1..], key)
  }

  /** A key is found exactly when some entry carries it, and then with that entry's value. */
  lemma {:induction false} GetFinds<K, V>(es: seq<(K, V)>, key: K)
    ensures Get(es, key).Some? <==> key in Keys(es)
    ensures Get(es, key).Some? ==> exists k :: 0 <= k < |es| && es[k] == (key, Get(es, key).value)
    ensures DistinctKeys(es) ==> forall k :: 0 <= k < |es| && es[k].0 == key ==> Get(es, key) == Some(es[k].1)
    decreases |es|
  {
    if |es| > 0 {
      GetFinds(es[1..], key);
      assert Keys(es) == [es[0].0] + Keys(es[1..]);
      if es[0].0 != key && Get(es, key).Some? {
        var k :| 0 <= k < |es[1..]| && es[1..][k] == (key, Get(es, key).value);
        assert es[k + 1] == es[1..][k];
      }
      if DistinctKeys(es) {
        forall k | 0 <= k < |es| && es[k].0 == key ensures Get(es, key) == Some(es[k].1) {
          if k > 0 {
            assert es[1..][k - 1] == es[k];
          }
        }
      }
    }
  }

  /** After `set`, the key holds the new value and every other key keeps its value; a present
      key stays where it was and the size is unchanged, a new key goes last. */
  lemma SetSpec<K, V>(es: seq<(K, V)>, key: K, value: V)
    requires DistinctKeys(es)
    ensures DistinctKeys(Set(es, key, value))
    ensures Get(Set(es, key, value), key) == Some(value)
    ensures forall other :: other != key ==> Get(Set(es, key, value), other) == Get(es, other)
    ensures key in Keys(es) ==> Keys(Set(es, key, value)) == Keys(es)
    ensures key !in Keys(es) ==> Set(es, key, value) == es + [(key, value)]
  {
  }

  /** `get` after `set`: the new value under the key, the old values elsewhere. */
  lemma {:induction false} SetGet<K, V>(es: seq<(K, V)>, key: K, value: V)
    ensures Get(Set(es, key, value), key) == Some(value)
    ensures forall other :: other != key ==> Get(Set(es, key, value), other) == Get(es, other)
    decreases |es|
  {
    if |es| > 0 && es[0].0 != key {
      SetGet(es[1..], key, value);
      assert Set(es, key, value)[1..] == Set(es[1..], key, value);
    }
  }

  /** `set` on a present key keeps the key list; on a new key it appends. */
  lemma {:induction false} SetKeys<K, V>(es: seq<(K, V)>, key: K, value: V)
    ensures key in Keys(es) ==> Keys(Set(es, key, value)) == Keys(es)
    ensures key !in Keys(es) ==> Set(es, key, value) == es + [(key, value)]
    decreases |es|
  {
    if |es| > 0 {
      var rest := es[1..];
      SetKeys(rest, key, value);
      assert Keys(es) == [es[0].0] + Keys(rest);
      if es[0].0 == key {
        assert Keys(Set(es, key, value)) == [key] + Keys(rest);
      } else {
        assert Keys(Set(es, key, value)) == [es[0].0] + Keys(Set(rest, key, value));
        assert es == [es[0]] + rest;
      }
    }
  }

  /** After `set` the keys are the old ones and the key set. */
  lemma SetHasKey<K, V>(es: seq<(K, V)>, key: K, value: V, x: K)
    ensures x in Keys(Set(es, key, value)) <==> x in Keys(es) || x == key
  {
    SetKeys(es, key, value);
    if key !in Keys(es) {
      assert Keys(es + [(key, value)]) == Keys(es) + [key];
    }
  }

  /** `set` keeps a map a map. */
  lemma {:induction false} SetUnique<K, V>(es: seq<(K, V)>, key: K, value: V)
    requires UniqueKeys(es)
    ensures UniqueKeys(Set(es, key, value))
    decreases |es|
  {
    if |es| > 0 {
      var rest := es[1..];
      var r := Set(es, key, value);
      if es[0].0 == key {
        assert r[1..] == rest;
      } else {
        SetUnique(rest, key, value);
        SetKeys(rest, key, value);
        assert r[1..] == Set(rest, key, value);
        assert es[0].0 !in Keys(Set(rest, key, value)) by {
          if key !in Keys(rest) {
            assert Keys(Set(rest, key, value)) == Keys(rest) + [key];
          }
        }
      }
    }
  }

  /** After `delete`, the key is gone, every other key keeps its value, and the remaining
      entries keep their order. */
  lemma DeleteSpec<K, V>(es: seq<(K, V)>, key: K)
    requires DistinctKeys(es)
    ensures DistinctKeys(Delete(es, key))
    ensures Get(Delete(es, key), key).None?
    ensures forall other :: other != key ==> Get(Delete(es, key), other) == Get(es, other)
    ensures key !in Keys(es) ==> Delete(es, key) == es
    ensures key in Keys(es) ==> |Delete(es, key)| == |es| - 1
  {
    DeleteGet(es, key);
    UniqueKeysDistinct(es);
    DeleteUnique(es, key);
    UniqueKeysDistinct(Delete(es, key));
    if key in Keys(es) {
      DeleteLength(es, key);
    } else {
      DeleteAbsent(es, key);
    }
  }

  /** `get` after `delete`: nothing under the key, the old values elsewhere. */
  lemma {:induction false} DeleteGet<K, V>(es: seq<(K, V)>, key: K)
    ensures Get(Delete(es, key), key).None?
    ensures forall other :: other != key ==> Get(Delete(es, key), other) == Get(es, other)
    decreases |es|
  {
    if |es| > 0 {
      DeleteGet(es[1..], key);
      if es[0].0 != key {
        assert Delete(es, key)[1..] == Delete(es[1..], key);
      } else {
        assert Delete(es, key) == Delete(es[1..], key);
      }
    }
  }

  /** In a map, deleting a present key removes exactly one entry. */
  lemma {:induction false} DeleteLength<K, V>(es: seq<(K, V)>, key: K)
    requires UniqueKeys(es) && key in Keys(es)
    ensures |Delete(es, key)| == |es| - 1
    decreases |es|
  {
    var rest := es[1..];
    assert Keys(es) == [es[0].0] + Keys(rest);
    if es[0].0 == key {
      DeleteAbsent(rest, key);
      assert Delete(es, key) == rest;
    } else {
      DeleteLength(rest, key);
      assert Delete(es, key) == [es[0]] + Delete(rest, key);
    }
  }

  lemma {:induction false} UniqueKeysDistinct<K, V>(es: seq<(K, V)>)
    ensures UniqueKeys(es) <==> DistinctKeys(es)
    decreases |es|
  {
    if |es| > 0 {
      var rest := es[1..];
      UniqueKeysDistinct(rest);
      if DistinctKeys(es) {
        forall i, j | 0 <= i < j < |rest| ensures rest[i].0 != rest[j].0 {
          assert rest[i] == es[i + 1] && rest[j] == es[j + 1];
        }
        forall j | 0 <= j < |rest| ensures Keys(rest)[j] != es[0].0 {
          assert rest[j] == es[j + 1];
        }
      }
      if UniqueKeys(es) {
        forall i, j | 0 <= i < j < |es| ensures es[i].0 != es[j].0 {
          assert es[j] == rest[j - 1];
          if i > 0 {
            assert es[i] == rest[i - 1];
          } else {
            assert Keys(rest)[j - 1] == es[j].0;
          }
        }
      }
    }
  }

  /** `delete` adds no key. */
  lemma {:induction false} DeleteKeys<K, V>(es: seq<(K, V)>, key: K)
    ensures forall x :: x in Keys(Delete(es, key)) ==> x in Keys(es)
    decreases |es|
  {
    if |es| > 0 {
      DeleteKeys(es[1..], key);
      assert Keys(es) == [es[0].0] + Keys(es[1..]);
      assert Keys(Delete(es, key)) == (if es[0].0 == key then [] else [es[0].0]) + Keys(Delete(es[1..], key));
    }
  }

  /** `delete` keeps a map a map. */
  lemma {:induction false} DeleteUnique<K, V>(es: seq<(K, V)>, key: K)
    requires UniqueKeys(es)
    ensures UniqueKeys(Delete(es, key))
    decreases |es|
  {
    if |es| > 0 {
      var rest := es[1..];
      DeleteUnique(rest, key);
      DeleteKeys(rest, key);
      var tail := Delete(rest, key);
      if es[0].0 != key {
        var r := Delete(es, key);
        assert r == [es[0]] + tail;
        assert r[1..] == tail;
      } else {
        assert Delete(es, key) == tail;
      }
    }
  }

  lemma {:induction false} DeleteAbsent<K, V>(es: seq<(K, V)>, key: K)
    requires key !in Keys(es)
    ensures Delete(es, key) == es
    decreases |es|
  {
    if |es| > 0 {
      assert Keys(es) == [es[0].0] + Keys(es[1..]);
      DeleteAbsent(es[1..], key);
      assert es == [es[0]] + es[1..];
    }
  }
}
