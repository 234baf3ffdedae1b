/** `associate_by`: a list of records indexed by one of their fields. */
module Helpers {

  /** `{item[key]: item for item in items}`, with the field read by `key`; a later item
      replaces an earlier one with the same key. */
  function AssociateBy<K, V>(items: seq<V>, key: V -> K): (r: map<K, V>)
    decreases |items|
  {
    if |items| == 0 then map[]
    else AssociateBy(items[..|items| - 1], key)[key(items[|items| - 1]) := items[|items| - 1]]
  }

  /** The keys are exactly the items' keys, and each key holds the last item carrying it. */
  lemma {:induction false} AssociateByEntries<K, V>(items: seq<V>, key: V -> K)
    ensures forall x :: x in AssociateBy(items, key) ==> exists k :: 0 <= k < |items| && key(items[k]) == x
    ensures forall x :: x in AssociateBy(items, key) ==> key(AssociateBy(items, key)[x]) == x
    ensures forall k :: 0 <= k < |items| ==> key(items[k]) in AssociateBy(items, key)
    ensures forall k :: 0 <= k < |items| ==>
      (forall j :: k < j < |items| ==> key(items[j]) != key(items[k])) ==>
        AssociateBy(items, key)[key(items[k])] == items[k]
    decreases |items|
  {
    if |items| > 0 {
      var init := items[..|items| - 1];
      AssociateByEntries(init, key);
      forall k | 0 <= k < |items| ensures key(items[k]) in AssociateBy(items, key) {
        if k < |init| { assert key(init[k]) in AssociateBy(init, key); }
      }
      forall x | x in AssociateBy(items, key)
        ensures exists k :: 0 <= k < |items| && key(items[k]) == x
      {
        if x != key(items[|items| - 1]) {
          assert x in AssociateBy(init, key);
          var k :| 0 <= k < |init| && key(init[k]) == x;
          assert items[k] == init[k];
        }
      }
    }
  }

  /** The map has at most as many entries as there are items, and exactly as many if and
      only if the keys are pairwise distinct. */
  lemma {:induction false} AssociateBySize<K, V>(items: seq<V>, key: V -> K)
    ensures |AssociateBy(items, key)| <= |items|
    ensures (forall i, j :: 0 <= i < j < |items| ==> key(items[i]) != key(items[j])) ==>
      |AssociateBy(items, key)| == |items|
    ensures |AssociateBy(items, key)| == |items| ==>
      forall i, j :: 0 <= i < j < |items| ==> key(items[i]) != key(items[j])
    decreases |items|
  {
    if |items| > 0 {
      var init := items[..|items| - 1];
      AssociateBySize(init, key);
      var last := items[|items| - 1];
      var m := AssociateBy(init, key);
      if key(last) in m {
        assert |m[key(last) := last]| == |m|;
      } else {
        assert |m[key(last) := last]| == |m| + 1;
      }
      if forall i, j :: 0 <= i < j < |items| ==> key(items[i]) != key(items[j]) {
        AssociateByEntries(init, key);
        assert key(last) !in m;
      }
      if |AssociateBy(items, key)| == |items| {
        // No entry was overwritten, neither by the last item nor before it.
        assert key(last) !in m && |m| == |init|;
        AssociateByEntries(init, key);
        forall i, j | 0 <= i < j < |items| ensures key(items[i]) != key(items[j]) {
          assert items[i] == init[i];
          if j < |init| {
            assert items[j] == init[j];
          } else {
            assert key(init[i]) in m;
          }
        }
      }
    }
  }
}
