/**
 * The part of Ruby's insertion-ordered Hash (and of Array#index) that the
 * tour constants and the weekday catalogue rely on.
 *
 * A Hash is modelled by its entries in insertion order; `nil` is `None`.
 * Ruby symbols are modelled by their names.
 */
module RubyHash {

  /** `nil` or a value. */
  datatype Option<T> = None | Some(value: T)

  /** A Ruby symbol, identified by its name (`:monday` is "monday"). */
  type Symbol = string

  /** A Hash: its key/value entries in insertion order. */
  type Hash<K, V> = seq<(K, V)>

  /** No element occurs twice. */
  predicate Distinct<T(==)>(s: seq<T>)
  {
    forall i, j :: 0 <= i < j < |s| ==> s[i] != s[j]
  }

  /** Hash#keys: the keys in insertion order. */
  function Keys<K, V>(h: Hash<K, V>): (ks: seq<K>)
    ensures |ks| == |h|
    ensures forall i :: 0 <= i < |h| ==> ks[i] == h[i].0
  {
    if h == [] then [] else [h[0].0] + Keys(h[1..])
  }

  /** Hash#values: the values in insertion order. */
  function Values<K, V>(h: Hash<K, V>): (vs: seq<V>)
    ensures |vs| == |h|
    ensures forall i :: 0 <= i < |h| ==> vs[i] == h[i].1
  {
    if h == [] then [] else [h[0].1] + Values(h[1..])
  }

  /** Hash#[]: the value stored under `k`, or nil when `k` is not a key. */
  function Get<K(==), V>(h: Hash<K, V>, k: K): (r: Option<V>)
    ensures r.None? <==> k !in Keys(h)
    ensures r.Some? ==> (k, r.value) in h
  {
    if h == [] then None
    else if h[0].0 == k then Some(h[0].1)
    else Get(h[1..], k)
  }

  /** Hash#key: the key of the first entry whose value is `v`, or nil when no key has it. */
  function Key<K, V(==)>(h: Hash<K, V>, v: V): (r: Option<K>)
    ensures r.None? <==> v !in Values(h)
    ensures r.Some? ==> h[IndexOf(Values(h), v).value] == (r.value, v)
  {
    if h == [] then None
    else if h[0].1 == v then Some(h[0].0)
    else
      assert Values(h)[1..] == Values(h[1..]);
      Key(h[1..], v)
  }

  /**
   * Hash#[]=: an existing key keeps its position and takes the new value;
   * a new key is appended at the end.
   */
  function Store<K(==,!new), V>(h: Hash<K, V>, k: K, v: V): (r: Hash<K, V>)
    ensures Keys(r) == if k in Keys(h) then Keys(h) else Keys(h) + [k]
  {
    if h == [] then [(k, v)]
    else if h[0].0 == k then [(k, v)] + h[1..]
    else
      var rest := Store(h[1..], k, v);
      assert ([h[0]] + rest)[1..] == rest;
      [h[0]] + rest
  }

  /**
   * Array#to_h on an array of pairs: the pairs are stored one after the
   * other, so a repeated key keeps its first position (ToHKeyOrder) and its
   * last value (ToHLastValueWins).
   */
  function ToH<K(==,!new), V>(pairs: seq<(K, V)>): (h: Hash<K, V>)
    ensures Distinct(Keys(h))
  {
    if pairs == [] then []
    else
      var last := pairs[|pairs| - 1];
      var prefix := pairs[..|pairs| - 1];
      StoreKeepsDistinct(ToH(prefix), last.0, last.1);
      Store(ToH(prefix), last.0, last.1)
  }

  /**
   * Splitting off the last pair: the keys of the other pairs are the keys
   * without the last one.
   */
  lemma KeysOfInit<K, V>(pairs: seq<(K, V)>)
    requires pairs != []
    ensures Keys(pairs[..|pairs| - 1]) == Keys(pairs)[..|pairs| - 1]
    ensures Keys(pairs) == Keys(pairs[..|pairs| - 1]) + [pairs[|pairs| - 1].0]
  {
    var n := |pairs|;
    var ks, initKeys := Keys(pairs), Keys(pairs[..n - 1]);
    assert |initKeys| == |ks[..n - 1]| == n - 1;
    forall i | 0 <= i < n - 1 ensures initKeys[i] == ks[..n - 1][i] {
      assert pairs[..n - 1][i] == pairs[i];
    }
    assert initKeys == ks[..n - 1];
    assert ks == ks[..n - 1] + [ks[n - 1]];
  }

  /** `to_h` stores the last pair after all the others. */
  lemma ToHOfInit<K(!new), V>(pairs: seq<(K, V)>)
    requires pairs != []
    ensures ToH(pairs) == Store(ToH(pairs[..|pairs| - 1]), pairs[|pairs| - 1].0, pairs[|pairs| - 1].1)
  {
  }

  /** The keys of `pairs.to_h` are exactly the keys of the pairs. */
  lemma {:induction false} ToHKeySet<K(!new), V>(pairs: seq<(K, V)>, k: K)
    ensures k in Keys(ToH(pairs)) <==> k in Keys(pairs)
  {
    if pairs != [] {
      var n := |pairs|;
      var prefix := pairs[..n - 1];
      KeysOfInit(pairs);
      ToHOfInit(pairs);
      ToHKeySet(prefix, k);
    }
  }

  /** Array#index: the position of the first occurrence of `x`, or nil. */
  function IndexOf<T(==)>(s: seq<T>, x: T): (r: Option<nat>)
    ensures r.None? <==> x !in s
    ensures r.Some? ==> r.value < |s| && s[r.value] == x && x !in s[..r.value]
  {
    if s == [] then None
    else if s[0] == x then Some(0)
    else match IndexOf(s[1..], x)
      case None => None
      case Some(i) =>
        assert s[..i + 1] == [s[0]] + s[1..][..i];
        Some(i + 1)
  }

  /** Storing never introduces a second copy of a key. */
  lemma StoreKeepsDistinct<K(!new), V>(h: Hash<K, V>, k: K, v: V)
    requires Distinct(Keys(h))
    ensures Distinct(Keys(Store(h, k, v)))
  {
    var ks := Keys(h);
    if k !in ks {
      forall i, j | 0 <= i < j < |ks + [k]| ensures (ks + [k])[i] != (ks + [k])[j] {
        if j == |ks| {
          assert (ks + [k])[i] == ks[i];
        }
      }
    }
  }

  /** After `h[k] = v`, `k` looks up `v` and every other key looks up what it did before. */
  lemma {:induction false} StoreThenGet<K(!new), V>(h: Hash<K, V>, k: K, v: V, k': K)
    ensures Get(Store(h, k, v), k') == if k' == k then Some(v) else Get(h, k')
  {
    if h != [] && h[0].0 != k {
      StoreThenGet(h[1..], k, v, k');
      assert Store(h, k, v)[1..] == Store(h[1..], k, v);
    }
  }

  /** Storing a key the hash does not have appends exactly that entry. */
  lemma {:induction false} StoreNewKey<K(!new), V>(h: Hash<K, V>, k: K, v: V)
    requires k !in Keys(h)
    ensures Store(h, k, v) == h + [(k, v)]
  {
    if h != [] {
      assert Keys(h) == [h[0].0] + Keys(h[1..]);
      StoreNewKey(h[1..], k, v);
      assert [h[0]] + (h[1..] + [(k, v)]) == h + [(k, v)];
    }
  }

  /** Without repetitions, the last element does not occur before it, and the rest has no repetitions either. */
  lemma DistinctInit<T>(s: seq<T>)
    requires Distinct(s) && s != []
    ensures Distinct(s[..|s| - 1])
    ensures s[|s| - 1] !in s[..|s| - 1]
  {
    var init := s[..|s| - 1];
    forall i | 0 <= i < |init| ensures init[i] != s[|s| - 1] {
      assert init[i] == s[i];
    }
  }

  /** With pairwise distinct keys, Array#to_h keeps every pair, in order. */
  lemma {:induction false} ToHOfDistinctKeys<K(!new), V>(pairs: seq<(K, V)>)
    requires Distinct(Keys(pairs))
    ensures ToH(pairs) == pairs
  {
    if pairs != [] {
      var last := pairs[|pairs| - 1];
      var prefix := pairs[..|pairs| - 1];
      KeysOfInit(pairs);
      ToHOfInit(pairs);
      DistinctInit(Keys(pairs));
      ToHOfDistinctKeys(prefix);
      StoreNewKey(prefix, last.0, last.1);
      assert prefix + [last] == pairs;
    }
  }

  /** With pairwise distinct keys, each key looks up its own entry's value. */
  lemma {:induction false} GetOfDistinctKeys<K, V>(h: Hash<K, V>, i: nat)
    requires Distinct(Keys(h)) && i < |h|
    ensures Get(h, h[i].0) == Some(h[i].1)
  {
  }

  /** With pairwise distinct values, Hash#key inverts each entry. */
  lemma {:induction false} KeyOfDistinctValues<K, V>(h: Hash<K, V>, i: nat)
    requires Distinct(Values(h)) && i < |h|
    ensures Key(h, h[i].1) == Some(h[i].0)
  {
  }

  /** Appending an element does not move the first occurrence of an element already present. */
  lemma {:induction false} IndexOfAppend<T>(s: seq<T>, y: T, x: T)
    requires x in s
    ensures IndexOf(s + [y], x) == IndexOf(s, x)
  {
    if s[0] != x {
      assert (s + [y])[1..] == s[1..] + [y];
      IndexOfAppend(s[1..], y, x);
    }
  }

  /** The position of the last occurrence of `x`, or nil. */
  function LastIndexOf<T(==)>(s: seq<T>, x: T): (r: Option<nat>)
    ensures r.None? <==> x !in s
    ensures r.Some? ==> r.value < |s| && s[r.value] == x && x !in s[r.value + 1..]
  {
    if s == [] then None
    else if s[|s| - 1] == x then Some(|s| - 1)
    else
      assert s == s[..|s| - 1] + [s[|s| - 1]];
      LastIndexOf(s[..|s| - 1], x)
  }

  /** Dropping a last element other than `x` does not change the last occurrence of `x`. */
  lemma LastIndexOfDropLast<T>(s: seq<T>, x: T)
    requires x in s && s[|s| - 1] != x
    ensures x in s[..|s| - 1]
    ensures LastIndexOf(s, x) == LastIndexOf(s[..|s| - 1], x)
  {
    var j := LastIndexOf(s, x).value;
    assert s[..|s| - 1][j] == x;
  }

  /** Array#to_h lets the last pair with a key win: the key looks up the value of that pair. */
  lemma {:induction false} ToHLastValueWins<K(!new), V>(pairs: seq<(K, V)>, k: K)
    requires k in Keys(pairs)
    ensures Get(ToH(pairs), k) == Some(pairs[LastIndexOf(Keys(pairs), k).value].1)
  {
    var n := |pairs|;
    var last := pairs[n - 1];
    var prefix := pairs[..n - 1];
    KeysOfInit(pairs);
    ToHOfInit(pairs);
    StoreThenGet(ToH(prefix), last.0, last.1, k);
    if last.0 != k {
      LastIndexOfDropLast(Keys(pairs), k);
      ToHLastValueWins(prefix, k);
      assert pairs[LastIndexOf(Keys(prefix), k).value] == prefix[LastIndexOf(Keys(prefix), k).value];
    }
  }

  /**
   * The elements of `ks` all occur in `s`, and their first occurrences in `s`
   * come in the order of `ks` (each one after the one before it).
   */
  ghost predicate InFirstOccurrenceOrder<T>(ks: seq<T>, s: seq<T>)
  {
    && (forall i :: 0 <= i < |ks| ==> ks[i] in s)
    && forall i :: 0 <= i < |ks| - 1 ==> IndexOf(s, ks[i]).value < IndexOf(s, ks[i + 1]).value
  }

  /**
   * Appending `k` to `s` keeps `ks` in first-occurrence order, and so does
   * appending `k` to `ks` as well when `k` is new.
   */
  lemma AppendKeepsFirstOccurrenceOrder<T>(ks: seq<T>, s: seq<T>, k: T)
    requires InFirstOccurrenceOrder(ks, s)
    requires k in ks <==> k in s
    ensures InFirstOccurrenceOrder(if k in ks then ks else ks + [k], s + [k])
  {
    forall i | 0 <= i < |ks| ensures IndexOf(s + [k], ks[i]) == IndexOf(s, ks[i]) {
      IndexOfAppend(s, k, ks[i]);
    }
    if k !in ks {
      var ks2 := ks + [k];
      assert (s + [k])[..|s|] == s;
      assert IndexOf(s + [k], k) == Some(|s|);
      forall i | 0 <= i < |ks2| - 1
        ensures IndexOf(s + [k], ks2[i]).value < IndexOf(s + [k], ks2[i + 1]).value
      {
        assert ks2[i] == ks[i];
        if i + 1 < |ks| {
          assert ks2[i + 1] == ks[i + 1];
        }
      }
      assert forall i :: 0 <= i < |ks2| ==> ks2[i] in s + [k];
    }
  }

  /** Array#to_h keeps the keys in the order of their first occurrence among the pairs. */
  lemma {:induction false} ToHKeyOrder<K(!new), V>(pairs: seq<(K, V)>)
    ensures InFirstOccurrenceOrder(Keys(ToH(pairs)), Keys(pairs))
  {
    if pairs != [] {
      var n := |pairs|;
      var last := pairs[n - 1];
      var prefix := pairs[..n - 1];
      KeysOfInit(pairs);
      ToHOfInit(pairs);
      ToHKeyOrder(prefix);
      ToHKeySet(prefix, last.0);
      AppendKeepsFirstOccurrenceOrder(Keys(ToH(prefix)), Keys(prefix), last.0);
    }
  }

  /** In a sequence without repetitions, Array#index finds each element at its own position. */
  lemma IndexOfDistinct<T>(s: seq<T>, i: nat)
    requires Distinct(s) && i < |s|
    ensures IndexOf(s, s[i]) == Some(i)
  {
  }
}
