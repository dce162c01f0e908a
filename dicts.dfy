/** Python dictionaries as the uploader uses them: insertion-ordered, each key
    at most once, an assignment to a present key overwriting its value in
    place and an assignment to a new key appending it at the end. */
module Dicts {

  datatype Option<+T> = None | Some(value: T)

  /** A dict as the list `d.items()` would give. */
  type Dict<K, V> = seq<(K, V)>

  /** `list(d.keys())`. */
  function Keys<K, V>(d: Dict<K, V>): (ks: seq<K>)
    ensures |ks| == |d|
    ensures forall i :: 0 <= i < |d| ==> ks[i] == d[i].0
  {
    seq(|d|, i requires 0 <= i < |d| => d[i].0)
  }

  predicate DistinctKeys<K(==), V>(d: Dict<K, V>)
  {
    forall i, j :: 0 <= i < j < |d| ==> d[i].0 != d[j].0
  }

  /** Where `k` sits in `d`: its first position, or None when absent. */
  function IndexOf<K(==), V>(d: Dict<K, V>, k: K): (r: Option<nat>)
    ensures r.None? <==> k !in Keys(d)
    ensures r.Some? ==> r.value < |d| && d[r.value].0 == k
    ensures r.Some? ==> forall j :: 0 <= j < r.value ==> d[j].0 != k
  {
    if d == [] then None
    else if d[0].0 == k then Some(0)
    else
      var r := IndexOf(d[1..], k);
      assert Keys(d) == [d[0].0] + Keys(d[1..]);
      match r
      case None => None
      case Some(i) => Some(i + 1)
  }

  /** `d.get(k)`: the value stored under `k`, if any. */
  function Lookup<K(==), V>(d: Dict<K, V>, k: K): (r: Option<V>)
    ensures r.None? <==> k !in Keys(d)
    ensures DistinctKeys(d) ==> forall i :: 0 <= i < |d| && d[i].0 == k ==> r == Some(d[i].1)
  {
    match IndexOf(d, k)
    case None => None
    case Some(i) => Some(d[i].1)
  }

  /** `d.get(k, default)`. */
  function Get<K(==), V>(d: Dict<K, V>, k: K, default: V): (r: V)
    ensures k !in Keys(d) ==> r == default
    ensures DistinctKeys(d) ==> forall i :: 0 <= i < |d| && d[i].0 == k ==> r == d[i].1
  {
    match Lookup(d, k)
    case None => default
    case Some(v) => v
  }

  /** `d[k] = v`: overwrites in place when `k` is present, appends otherwise. */
  function Put<K(==, !new), V>(d: Dict<K, V>, k: K, v: V): (r: Dict<K, V>)
    ensures Keys(r) == if k in Keys(d) then Keys(d) else Keys(d) + [k]
    ensures DistinctKeys(d) ==> DistinctKeys(r)
    ensures Lookup(r, k) == Some(v)
    ensures forall k' :: k' != k ==> Lookup(r, k') == Lookup(d, k')
    ensures forall i :: 0 <= i < |d| && d[i].0 != k ==> r[i] == d[i]
  {
    match IndexOf(d, k)
    case Some(i) =>
      var r := d[i := (k, v)];
      assert Keys(r) == Keys(d);
      LookupOthers(d, r, k);
      r
    case None =>
      var r := d + [(k, v)];
      assert Keys(r) == Keys(d) + [k];
      LookupOthers(d, r, k);
      r
  }

  /** Replacing or appending the entry of `k` leaves every other key's value as it was. */
  lemma LookupOthers<K(!new), V>(d: Dict<K, V>, r: Dict<K, V>, k: K)
    requires |d| <= |r|
    requires forall i :: 0 <= i < |d| && d[i].0 != k ==> r[i] == d[i]
    requires forall i :: 0 <= i < |r| && (i >= |d| || d[i].0 == k) ==> r[i].0 == k
    ensures forall k' :: k' != k ==> Lookup(r, k') == Lookup(d, k')
  {
    forall k' | k' != k
      ensures Lookup(r, k') == Lookup(d, k')
    {
      if k' in Keys(d) {
        var i := IndexOf(d, k').value;
        assert r[i] == d[i];
      } else {
        assert k' !in Keys(r);
      }
    }
  }

  /** Some element of `s` satisfies `p`. */
  predicate Any<T>(s: seq<T>, p: T -> bool)
  {
    exists i :: 0 <= i < |s| && p(s[i])
  }

  /** An element satisfying `p` is in the prefix or is the last one. */
  lemma AnySnoc<T>(s: seq<T>, p: T -> bool)
    requires s != []
    ensures Any(s, p) <==> Any(s[..|s| - 1], p) || p(s[|s| - 1])
  {
    var init := s[..|s| - 1];
    if Any(s, p) {
      var i :| 0 <= i < |s| && p(s[i]);
      if i < |init| {
        assert init[i] == s[i];
      }
    }
    if Any(init, p) {
      var i :| 0 <= i < |init| && p(init[i]);
      assert init[i] == s[i];
    }
  }

  /** How many elements of `s` satisfy `p`. */
  function Count<T>(s: seq<T>, p: T -> bool): nat
  {
    if s == [] then 0
    else Count(s[..|s| - 1], p) + (if p(s[|s| - 1]) then 1 else 0)
  }

  lemma {:induction false} CountConcat<T>(x: seq<T>, y: seq<T>, p: T -> bool)
    ensures Count(x + y, p) == Count(x, p) + Count(y, p)
  {
    if y == [] {
      assert x + y == x;
    } else {
      assert (x + y)[..|x + y| - 1] == x + y[..|y| - 1];
      CountConcat(x, y[..|y| - 1], p);
    }
  }

  lemma {:induction false} CountNone<T>(x: seq<T>, p: T -> bool)
    requires forall a :: a in x ==> !p(a)
    ensures Count(x, p) == 0
  {
    if x != [] {
      CountNone(x[..|x| - 1], p);
    }
  }

  lemma {:induction false} CountAll<T>(x: seq<T>, p: T -> bool)
    requires forall a :: a in x ==> p(a)
    ensures Count(x, p) == |x|
  {
    if x != [] {
      CountAll(x[..|x| - 1], p);
    }
  }

  /** An element that satisfies `p`, when some element does. */
  lemma {:induction false} CountWitness<T>(x: seq<T>, p: T -> bool) returns (i: nat)
    requires Count(x, p) > 0
    ensures i < |x| && p(x[i])
  {
    var n := |x| - 1;
    if p(x[n]) {
      i := n;
    } else {
      i := CountWitness(x[..n], p);
      assert x[..n][i] == x[i];
    }
  }

  lemma {:induction false} CountOne<T>(x: seq<T>, p: T -> bool, i: nat)
    requires i < |x| && p(x[i])
    ensures Count(x, p) >= 1
  {
    var n := |x| - 1;
    if i < n {
      assert x[..n][i] == x[i];
      CountOne(x[..n], p, i);
    }
  }

  lemma {:induction false} CountTwo<T>(x: seq<T>, p: T -> bool, i: nat, j: nat)
    requires i < j < |x| && p(x[i]) && p(x[j])
    ensures Count(x, p) >= 2
  {
    var n := |x| - 1;
    assert x[..n][i] == x[i];
    if j < n {
      assert x[..n][j] == x[j];
      CountTwo(x[..n], p, i, j);
    } else {
      CountOne(x[..n], p, i);
    }
  }
}
