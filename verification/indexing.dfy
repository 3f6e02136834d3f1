/** Filling a dictionary in a loop: starting from an empty one, every element
    that passes a filter is stored under its key, and a later element with
    the same key overwrites an earlier one. Used for the thread and reply maps and for the media
    file catalog. */
module Indexing {

  function Index<T, K(==), V>(xs: seq<T>, keep: T -> bool, key: T -> K, val: T -> V): (m: map<K, V>)
    ensures forall i :: 0 <= i < |xs| && keep(xs[i]) ==> key(xs[i]) in m
    ensures forall k :: k in m ==>
      exists i :: && 0 <= i < |xs| && keep(xs[i]) && key(xs[i]) == k && m[k] == val(xs[i])
                  && forall j :: i < j < |xs| && keep(xs[j]) ==> key(xs[j]) != k
    decreases |xs|
  {
    if |xs| == 0 then map[]
    else
      var m := Index(xs[..|xs| - 1], keep, key, val);
      var x := xs[|xs| - 1];
      if keep(x) then m[key(x) := val(x)] else m
  }

  /** The keys of the dictionary are exactly the keys of the kept elements. */
  lemma IndexKeys<T, K, V>(xs: seq<T>, keep: T -> bool, key: T -> K, val: T -> V)
    ensures Index(xs, keep, key, val).Keys == set i | 0 <= i < |xs| && keep(xs[i]) :: key(xs[i])
  {
    var m := Index(xs, keep, key, val);
    var s := set i | 0 <= i < |xs| && keep(xs[i]) :: key(xs[i]);
    forall k | k in m ensures k in s {
      var i :| 0 <= i < |xs| && keep(xs[i]) && key(xs[i]) == k;
    }
  }

  /** The position whose write a key's entry holds: the last kept element
      with that key. */
  lemma IndexSource<T, K, V>(xs: seq<T>, keep: T -> bool, key: T -> K, val: T -> V, k: K) returns (i: nat)
    requires k in Index(xs, keep, key, val)
    ensures i < |xs| && keep(xs[i]) && key(xs[i]) == k && Index(xs, keep, key, val)[k] == val(xs[i])
    ensures forall j :: i < j < |xs| && keep(xs[j]) ==> key(xs[j]) != k
  {
    var m := Index(xs, keep, key, val);
    i :| && 0 <= i < |xs| && keep(xs[i]) && key(xs[i]) == k && m[k] == val(xs[i])
         && forall j :: i < j < |xs| && keep(xs[j]) ==> key(xs[j]) != k;
  }

  /** No two positions of `xs` carry the same value. */
  ghost predicate ValuesApart<T, V>(xs: seq<T>, val: T -> V) {
    forall i, j :: 0 <= i < |xs| && 0 <= j < |xs| && i != j ==> val(xs[i]) != val(xs[j])
  }

  /** When no two positions carry the same value, no two keys share a value. */
  lemma IndexInjective<T, K, V>(xs: seq<T>, keep: T -> bool, key: T -> K, val: T -> V)
    requires ValuesApart(xs, val)
    ensures var m := Index(xs, keep, key, val);
      forall k1, k2 :: k1 in m && k2 in m && k1 != k2 ==> m[k1] != m[k2]
  {
    var m := Index(xs, keep, key, val);
    forall k1, k2 | k1 in m && k2 in m && k1 != k2 ensures m[k1] != m[k2] {
      var i1 :| 0 <= i1 < |xs| && key(xs[i1]) == k1 && m[k1] == val(xs[i1]);
      var i2 :| 0 <= i2 < |xs| && key(xs[i2]) == k2 && m[k2] == val(xs[i2]);
    }
  }
}
