/** Python's `dict(zip(keys, values))`. */
module Dicts {

  /**
   * The dictionary built from the pairs of `keys` and `vals`, stopping at the
   * shorter of the two; a repeated key keeps the value of its last pair.
   */
  function ZipDict<K(==), V>(keys: seq<K>, vals: seq<V>): (m: map<K, V>)
    ensures m.Keys == set i | 0 <= i < |keys| && i < |vals| :: keys[i]
    decreases |keys|
  {
    var n := if |keys| < |vals| then |keys| else |vals|;
    if n == 0 then map[]
    else
      var init := ZipDict(keys[..n - 1], vals[..n - 1]);
      assert forall i :: 0 <= i < n - 1 ==> keys[..n - 1][i] == keys[i];
      init[keys[n - 1] := vals[n - 1]]
  }

  /** A key maps to the value paired with its last occurrence. */
  lemma {:induction false} ZipDictLast<K, V>(keys: seq<K>, vals: seq<V>, i: nat)
    requires i < |keys| && i < |vals|
    requires forall j :: i < j < |keys| && j < |vals| ==> keys[j] != keys[i]
    ensures keys[i] in ZipDict(keys, vals) && ZipDict(keys, vals)[keys[i]] == vals[i]
    decreases |keys|
  {
    var n := if |keys| < |vals| then |keys| else |vals|;
    if i < n - 1 {
      ZipDictLast(keys[..n - 1], vals[..n - 1], i);
    }
  }

  /** With distinct keys every key maps to its own value. */
  lemma ZipDictDistinct<K, V>(keys: seq<K>, vals: seq<V>)
    requires |keys| <= |vals|
    requires forall i, j :: 0 <= i < j < |keys| ==> keys[i] != keys[j]
    ensures forall i :: 0 <= i < |keys| ==> keys[i] in ZipDict(keys, vals) && ZipDict(keys, vals)[keys[i]] == vals[i]
  {
    forall i | 0 <= i < |keys|
      ensures keys[i] in ZipDict(keys, vals) && ZipDict(keys, vals)[keys[i]] == vals[i]
    {
      ZipDictLast(keys, vals, i);
    }
  }
}
