/** JavaScript's `Map` as book.js builds it: from a list of key/value pairs, in order. */
module Maps {

  /** `new Map(pairs)`: the pairs are inserted in order, so a later pair overwrites an earlier one with the same key. */
  function MapFromPairs<K(==), V>(pairs: seq<(K, V)>): (m: map<K, V>)
    ensures forall i :: 0 <= i < |pairs| ==> pairs[i].0 in m
    ensures forall k :: k in m ==> exists i :: 0 <= i < |pairs| && pairs[i] == (k, m[k])
    ensures forall i :: 0 <= i < |pairs| && IsLastOfKey(pairs, i) ==> m[pairs[i].0] == pairs[i].1
  {
    if |pairs| == 0 then map[]
    else
      var init, last := pairs[..|pairs| - 1], pairs[|pairs| - 1];
      assert forall i :: 0 <= i < |init| ==> init[i] == pairs[i];
      MapFromPairs(init)[last.0 := last.1]
  }

  /** No pair after index `i` has the key of pair `i`. */
  predicate IsLastOfKey<K(==), V>(pairs: seq<(K, V)>, i: nat)
    requires i < |pairs|
  {
    forall j :: i < j < |pairs| ==> pairs[j].0 != pairs[i].0
  }
}
