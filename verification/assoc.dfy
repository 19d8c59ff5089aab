/** Python dictionaries built from a sequence of (key, value) pairs, as a dict
    display, a dict comprehension or repeated `d[k] = v` build them: a later pair
    with the same key overwrites the earlier one. */
module Assoc {

  /** No pair after position `i` has the key of the pair at `i`. */
  ghost predicate IsLast<K, V>(ps: seq<(K, V)>, i: int)
  {
    0 <= i < |ps| && forall j | i < j < |ps| :: ps[j].0 != ps[i].0
  }

  /** `{k: v for k, v in ps}`: the keys are exactly the pairs' keys. Which
      value each key holds is stated by `DictOfLast` and `DictOfValue`. */
  function DictOf<K(==), V>(ps: seq<(K, V)>): (m: map<K, V>)
    ensures forall i | 0 <= i < |ps| :: ps[i].0 in m
    ensures forall k | k in m :: exists i | 0 <= i < |ps| :: ps[i].0 == k
  {
    if |ps| == 0 then map[]
    else
      var init := ps[..|ps| - 1];
      var last := ps[|ps| - 1];
      var m := DictOf(init);
      assert forall i | 0 <= i < |init| :: init[i] == ps[i];
      m[last.0 := last.1]
  }

  /** Each key holds the value of the last pair carrying it. */
  lemma {:induction false} DictOfLast<K, V>(ps: seq<(K, V)>, i: int)
    requires IsLast(ps, i)
    ensures ps[i].0 in DictOf(ps) && DictOf(ps)[ps[i].0] == ps[i].1
    decreases |ps|
  {
    var init := ps[..|ps| - 1];
    if i < |init| {
      assert forall j | 0 <= j < |init| :: init[j] == ps[j];
      assert IsLast(init, i);
      DictOfLast(init, i);
    }
  }

  /** `{keys[i]: i for i in range(len(keys))}`: every key present, each sent to
      the LAST position carrying it. */
  function EnumerateDict<K(==)>(keys: seq<K>): (m: map<K, nat>)
    ensures forall k | k in m :: k in keys
    ensures forall i | 0 <= i < |keys| :: keys[i] in m
    ensures forall k | k in m :: m[k] < |keys| && keys[m[k]] == k
    ensures forall k | k in m :: forall j | m[k] < j < |keys| :: keys[j] != k
  {
    if |keys| == 0 then map[]
    else
      var init := keys[..|keys| - 1];
      var m := EnumerateDict(init);
      EnumerateStep(keys, init, m);
      m[keys[|keys| - 1] := |keys| - 1]
  }

  /** One step of `EnumerateDict`: entering the last position into the
      dictionary of the others keeps its four properties. */
  lemma EnumerateStep<K>(keys: seq<K>, init: seq<K>, m: map<K, nat>)
    requires |keys| > 0 && init == keys[..|keys| - 1]
    requires forall k | k in m :: k in init
    requires forall i | 0 <= i < |init| :: init[i] in m
    requires forall k | k in m :: m[k] < |init| && init[m[k]] == k
    requires forall k | k in m :: forall j | m[k] < j < |init| :: init[j] != k
    ensures var r := m[keys[|keys| - 1] := |keys| - 1];
      && (forall k | k in r :: k in keys)
      && (forall i | 0 <= i < |keys| :: keys[i] in r)
      && (forall k | k in r :: r[k] < |keys| && keys[r[k]] == k)
      && (forall k | k in r :: forall j | r[k] < j < |keys| :: keys[j] != k)
  {
    assert forall i | 0 <= i < |init| :: init[i] == keys[i];
  }

  /** A key that occurs at one position only is sent to that position. */
  lemma EnumerateUnique<K>(keys: seq<K>, i: nat)
    requires i < |keys|
    requires forall j | 0 <= j < |keys| && j != i :: keys[j] != keys[i]
    ensures keys[i] in EnumerateDict(keys) && EnumerateDict(keys)[keys[i]] == i
  {
  }

  /** `DictOfLast` for every last pair with key `k` at once. */
  lemma DictOfLastOf<K, V>(ps: seq<(K, V)>, k: K)
    ensures forall i | IsLast(ps, i) && ps[i].0 == k :: k in DictOf(ps) && DictOf(ps)[k] == ps[i].1
  {
    forall i | IsLast(ps, i) && ps[i].0 == k
      ensures k in DictOf(ps) && DictOf(ps)[k] == ps[i].1
    {
      DictOfLast(ps, i);
    }
  }

  /** Every key of the dictionary holds the value of some pair carrying it. */
  lemma {:induction false} DictOfValue<K, V>(ps: seq<(K, V)>, k: K)
    requires k in DictOf(ps)
    ensures exists i | 0 <= i < |ps| :: ps[i].0 == k && DictOf(ps)[k] == ps[i].1
    decreases |ps|
  {
    var init := ps[..|ps| - 1];
    var last := ps[|ps| - 1];
    if last.0 != k {
      DictOfValue(init, k);
      var i :| 0 <= i < |init| && init[i].0 == k && DictOf(init)[k] == init[i].1;
      assert ps[i] == init[i];
    }
  }

  /** When all pairs carrying a key agree on its value, the dictionary holds
      that value, whichever of them comes last. */
  lemma {:induction false} DictOfAgrees<K, V>(ps: seq<(K, V)>, i: nat)
    requires i < |ps|
    requires forall j | 0 <= j < |ps| && ps[j].0 == ps[i].0 :: ps[j].1 == ps[i].1
    ensures ps[i].0 in DictOf(ps) && DictOf(ps)[ps[i].0] == ps[i].1
    decreases |ps|
  {
    var init := ps[..|ps| - 1];
    var last := ps[|ps| - 1];
    if i < |ps| - 1 && last.0 != ps[i].0 {
      assert forall j | 0 <= j < |init| :: init[j] == ps[j];
      DictOfAgrees(init, i);
    }
  }
}
