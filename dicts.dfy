/**
 * Python dictionaries as the tool uses them: an insertion-ordered list of
 * entries with distinct keys. Assigning to a present key keeps its position;
 * assigning to a new key appends it.
 */
module Dicts {

  datatype Option<T> = None | Some(value: T)

  type Dict<K, V> = seq<(K, V)>

  function Keys<K, V>(d: Dict<K, V>): (ks: seq<K>)
    ensures |ks| == |d| && forall i :: 0 <= i < |d| ==> ks[i] == d[i].0
  {
    if d == [] then [] else [d[0].0] + Keys(d[1..])
  }

  ghost predicate Distinct<K>(ks: seq<K>) {
    forall i, j :: 0 <= i < j < |ks| ==> ks[i] != ks[j]
  }

  ghost predicate UniqueKeys<K, V>(d: Dict<K, V>) {
    Distinct(Keys(d))
  }

  /** `d.get(k)`: the value of the entry with key `k`. */
  function Lookup<K(==,!new), V>(d: Dict<K, V>, k: K): (r: Option<V>)
    ensures r.None? <==> k !in Keys(d)
  {
    if d == [] then None
    else if d[0].0 == k then Some(d[0].1)
    else
      KeysCons(d);
      Lookup(d[1..], k)
  }

  /** The entry a lookup finds is the first one with the key. */
  lemma {:induction false} LookupFirst<K(!new), V>(d: Dict<K, V>, k: K, i: nat)
    requires i < |d| && d[i].0 == k && forall j :: 0 <= j < i ==> d[j].0 != k
    ensures Lookup(d, k) == Some(d[i].1)
  {
    if i > 0 {
      KeysCons(d);
      LookupFirst(d[1..], k, i - 1);
    }
  }

  /** In a dict with distinct keys, an entry's key looks up that entry's value. */
  lemma {:induction false} LookupAt<K(!new), V>(d: Dict<K, V>, i: nat)
    requires UniqueKeys(d) && i < |d|
    ensures Lookup(d, d[i].0) == Some(d[i].1)
  {
    KeysCons(d);
    if i > 0 {
      assert Keys(d)[0] != Keys(d)[i];
      assert Keys(d[1..]) == Keys(d)[1..];
      LookupAt(d[1..], i - 1);
    }
  }

  /** `d[k] = v` */
  function Set<K(==,!new), V>(d: Dict<K, V>, k: K, v: V): Dict<K, V> {
    if d == [] then [(k, v)]
    else if d[0].0 == k then [(k, v)] + d[1..]
    else [d[0]] + Set(d[1..], k, v)
  }

  /** After `d[k] = v`, `k` looks up `v` and every other key looks up what it did before. */
  lemma {:induction false} SetLookup<K(!new), V>(d: Dict<K, V>, k: K, v: V)
    ensures Lookup(Set(d, k, v), k) == Some(v)
    ensures forall k' :: k' != k ==> Lookup(Set(d, k, v), k') == Lookup(d, k')
  {
    if d != [] && d[0].0 != k {
      SetLookup(d[1..], k, v);
      assert Set(d, k, v)[1..] == Set(d[1..], k, v);
      KeysCons(d);
    }
  }

  /** Assigning to a present key keeps the keys in place; assigning to a new key appends it. */
  lemma {:induction false} SetKeys<K(!new), V>(d: Dict<K, V>, k: K, v: V)
    ensures Keys(Set(d, k, v)) == if k in Keys(d) then Keys(d) else Keys(d) + [k]
  {
    if d != [] {
      var r := Set(d, k, v);
      KeysCons(d);
      KeysCons(r);
      if d[0].0 == k {
        assert r[1..] == d[1..];
      } else {
        assert r[1..] == Set(d[1..], k, v);
        SetKeys(d[1..], k, v);
      }
    }
  }

  /** Assigning to a new key appends an entry. */
  lemma {:induction false} SetNewKey<K(!new), V>(d: Dict<K, V>, k: K, v: V)
    requires k !in Keys(d)
    ensures Set(d, k, v) == d + [(k, v)]
  {
    if d != [] {
      KeysCons(d);
      assert d[0].0 != k;
      SetNewKey(d[1..], k, v);
      calc {
        Set(d, k, v);
        [d[0]] + Set(d[1..], k, v);
        [d[0]] + (d[1..] + [(k, v)]);
        { assert d == [d[0]] + d[1..]; }
        d + [(k, v)];
      }
    }
  }

  /** Assignment keeps the keys of a dict distinct. */
  lemma SetUniqueKeys<K(!new), V>(d: Dict<K, V>, k: K, v: V)
    requires UniqueKeys(d)
    ensures UniqueKeys(Set(d, k, v))
  {
    SetKeys(d, k, v);
    DistinctAppend(Keys(d), k);
  }

  lemma DistinctAppend<K>(ks: seq<K>, k: K)
    ensures Distinct(ks) && k !in ks ==> Distinct(ks + [k])
  {
  }

  /** In a dict, the key of entry `i` is not among the keys before it. */
  lemma NewKeyAt<K, V>(d: Dict<K, V>, i: nat)
    requires UniqueKeys(d) && i < |d|
    ensures d[i].0 !in Keys(d[..i])
  {
    var ks := Keys(d);
    assert Keys(d[..i]) == ks[..i];
    assert forall j :: 0 <= j < i ==> ks[j] != ks[i];
  }

  lemma KeysCons<K, V>(d: Dict<K, V>)
    requires d != []
    ensures Keys(d) == [d[0].0] + Keys(d[1..])
  {
  }

  /** The value of the last pair with key `k`: the one a sequence of assignments leaves behind. */
  function LastValue<K(==,!new), V>(ps: seq<(K, V)>, k: K): Option<V> {
    if ps == [] then None
    else if ps[|ps| - 1].0 == k then Some(ps[|ps| - 1].1)
    else LastValue(ps[..|ps| - 1], k)
  }

  /** The value of the first pair with key `k`. */
  function FirstValue<K(==,!new), V>(ps: seq<(K, V)>, k: K): Option<V> {
    if ps == [] then None
    else if ps[0].0 == k then Some(ps[0].1)
    else FirstValue(ps[1..], k)
  }

  /**
   * `d.update(ps)` (and, from `{}`, the dict built by assigning the pairs in
   * order): each key ends up with the last value assigned to it, keys not
   * assigned keep their value.
   */
  function Update<K(==,!new), V>(d: Dict<K, V>, ps: seq<(K, V)>): Dict<K, V> {
    if ps == [] then d
    else
      var last := ps[|ps| - 1];
      Set(Update(d, ps[..|ps| - 1]), last.0, last.1)
  }

  /** After `d.update(ps)`, each key looks up the value of its last pair in `ps`, or its old value when it has none. */
  lemma {:induction false} UpdateLookup<K(!new), V>(d: Dict<K, V>, ps: seq<(K, V)>)
    ensures forall k :: Lookup(Update(d, ps), k) == if LastValue(ps, k).Some? then LastValue(ps, k) else Lookup(d, k)
  {
    if ps != [] {
      var last := ps[|ps| - 1];
      UpdateLookup(d, ps[..|ps| - 1]);
      SetLookup(Update(d, ps[..|ps| - 1]), last.0, last.1);
    }
  }

  /** Applying one more pair is one more assignment. */
  lemma UpdateSnoc<K(!new), V>(d: Dict<K, V>, ps: seq<(K, V)>, p: (K, V))
    ensures Update(d, ps + [p]) == Set(Update(d, ps), p.0, p.1)
  {
    assert (ps + [p])[..|ps|] == ps;
  }

  /** The last pair for `k` in `ps + qs` is the last one in `qs` if there is one. */
  lemma {:induction false} LastValueAppend<K(!new), V>(ps: seq<(K, V)>, qs: seq<(K, V)>, k: K)
    ensures LastValue(ps + qs, k) == if LastValue(qs, k).Some? then LastValue(qs, k) else LastValue(ps, k)
  {
    if qs == [] {
      assert ps + qs == ps;
    } else {
      var n := |qs| - 1;
      LastValueAppend(ps, qs[..n], k);
      assert (ps + qs)[..|ps + qs| - 1] == ps + qs[..n];
    }
  }

  /** A key no pair carries has no last value. */
  lemma {:induction false} LastValueAbsent<K(!new), V>(ps: seq<(K, V)>, k: K)
    requires forall i :: 0 <= i < |ps| ==> ps[i].0 != k
    ensures LastValue(ps, k) == None
  {
    if ps != [] {
      LastValueAbsent(ps[..|ps| - 1], k);
    }
  }

  /** `update` keeps the keys of a dict distinct. */
  lemma {:induction false} UpdateUniqueKeys<K(!new), V>(d: Dict<K, V>, ps: seq<(K, V)>)
    requires UniqueKeys(d)
    ensures UniqueKeys(Update(d, ps))
  {
    if ps != [] {
      var last := ps[|ps| - 1];
      UpdateUniqueKeys(d, ps[..|ps| - 1]);
      SetUniqueKeys(Update(d, ps[..|ps| - 1]), last.0, last.1);
    }
  }

  /** In a dict, the last pair for a key is the only one. */
  lemma {:induction false} LastValueOfDict<K(!new), V>(d: Dict<K, V>, k: K)
    requires UniqueKeys(d)
    ensures LastValue(d, k) == Lookup(d, k)
  {
    if d != [] {
      var n := |d| - 1;
      var init := d[..n];
      assert d == init + [d[n]];
      assert Lookup(d, k) == if k in Keys(init) then Lookup(init, k) else if d[n].0 == k then Some(d[n].1) else None by {
        LookupAppend(init, d[n], k);
      }
      if d[n].0 == k {
        NewKeyAt(d, n);
      } else {
        UniqueKeysPrefix(d, n);
        LastValueOfDict(init, k);
      }
    }
  }

  /** Assigning the entries of a dict, in order, to `{}` rebuilds that dict. */
  lemma {:induction false} UpdateOfDict<K(!new), V>(d: Dict<K, V>)
    requires UniqueKeys(d)
    ensures Update([], d) == d
  {
    if d != [] {
      var n := |d| - 1;
      UniqueKeysPrefix(d, n);
      UpdateOfDict(d[..n]);
      NewKeyAt(d, n);
      SetNewKey(d[..n], d[n].0, d[n].1);
      assert d[..n] + [d[n]] == d;
    }
  }

  lemma LastAndRest<T>(s: seq<T>)
    requires s != []
    ensures s[..|s| - 1] + [s[|s| - 1]] == s
  {
  }

  lemma UniqueKeysPrefix<K, V>(d: Dict<K, V>, n: nat)
    requires UniqueKeys(d) && n <= |d|
    ensures UniqueKeys(d[..n])
  {
    assert Keys(d[..n]) == Keys(d)[..n];
  }

  lemma {:induction false} LookupAppend<K(!new), V>(d: Dict<K, V>, e: (K, V), k: K)
    ensures Lookup(d + [e], k) == if k in Keys(d) then Lookup(d, k) else if e.0 == k then Some(e.1) else None
  {
    if d != [] {
      assert (d + [e])[1..] == d[1..] + [e];
      assert Keys(d) == [d[0].0] + Keys(d[1..]);
      LookupAppend(d[1..], e, k);
    }
  }
}
