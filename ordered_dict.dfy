/**
 * Python's insertion-ordered `dict`, as a sequence of (key, value) entries,
 * and `dict(pairs)`, which builds one from a list of pairs.
 */
module OrderedDict {
  import opened Results
  import opened Text

  /** The keys of a list of pairs, in order (repeats included). */
  function Keys<K, V>(d: seq<(K, V)>): (ks: seq<K>)
    ensures |ks| == |d|
    ensures forall i :: 0 <= i < |d| ==> ks[i] == d[i].0
  {
    seq(|d|, i requires 0 <= i < |d| => d[i].0)
  }

  /** `d.get(k)`. */
  function Get<K(==,!new), V>(d: seq<(K, V)>, k: K): (r: Option<V>)
    ensures r.Some? <==> k in Keys(d)
  {
    var i := Position(Keys(d), k);
    if i < |d| then Some(d[i].1) else None
  }

  /**
   * `d[k] = v`: a key already present keeps its place and takes the new value;
   * a new key goes last; every other key keeps its value.
   */
  function Insert<K(==,!new), V>(d: seq<(K, V)>, k: K, v: V): (r: seq<(K, V)>)
    ensures k in Keys(d) ==> Keys(r) == Keys(d)
    ensures k !in Keys(d) ==> Keys(r) == Keys(d) + [k]
    ensures Get(r, k) == Some(v)
    ensures forall k' :: k' != k ==> Get(r, k') == Get(d, k')
  {
    var i := Position(Keys(d), k);
    if i < |d| then
      var r := d[i := (k, v)];
      assert Keys(r) == Keys(d);
      r
    else
      var r := d + [(k, v)];
      assert Keys(r) == Keys(d) + [k];
      forall k' ensures Position(Keys(r), k') == Position(Keys(d) + [k], k') {}
      PositionSnoc(Keys(d), k, k);
      forall k' | k' != k ensures Get(r, k') == Get(d, k') {
        PositionSnoc(Keys(d), k, k');
      }
      r
  }

  /**
   * `dict(pairs)`: the pairs inserted one after the other. The dict is never
   * longer than the list, and it is empty only when the list is.
   */
  function FromPairs<K(==,!new), V>(ps: seq<(K, V)>): (d: seq<(K, V)>)
    ensures |d| <= |ps|
    ensures |d| == 0 <==> |ps| == 0
  {
    if ps == [] then []
    else
      var last := ps[|ps| - 1];
      Insert(FromPairs(ps[..|ps| - 1]), last.0, last.1)
  }

  /** Reference definition: the value paired with `k` by its last occurrence in `ps`. */
  function LastValue<K(==,!new), V>(ps: seq<(K, V)>, k: K): Option<V>
  {
    if ps == [] then None
    else if ps[|ps| - 1].0 == k then Some(ps[|ps| - 1].1)
    else LastValue(ps[..|ps| - 1], k)
  }

  /** No key occurs twice. */
  ghost predicate Distinct<T>(s: seq<T>)
  {
    forall i, j :: 0 <= i < j < |s| ==> s[i] != s[j]
  }

  /**
   * A key has a last value in `ps` exactly when it occurs in `ps`, and that
   * value is the one of an occurrence after which the key does not occur again.
   */
  lemma {:induction false} LastValueOccurs<K(!new), V>(ps: seq<(K, V)>, k: K)
    ensures LastValue(ps, k).Some? <==> k in Keys(ps)
    ensures LastValue(ps, k).Some? ==>
      exists j :: 0 <= j < |ps| && ps[j] == (k, LastValue(ps, k).value) &&
        forall j' :: j < j' < |ps| ==> ps[j'].0 != k
  {
    if ps != [] {
      var pre := ps[..|ps| - 1];
      assert Keys(ps) == Keys(pre) + [ps[|ps| - 1].0];
      LastValueOccurs(pre, k);
      if ps[|ps| - 1].0 == k {
        assert ps[|ps| - 1] == (k, LastValue(ps, k).value);
      } else if LastValue(pre, k).Some? {
        var j :| 0 <= j < |pre| && pre[j] == (k, LastValue(pre, k).value) &&
          forall j' :: j < j' < |pre| ==> pre[j'].0 != k;
        assert ps[j] == pre[j];
      }
    }
  }

  /**
   * Looking a key up in `dict(ps)` gives the value of its LAST occurrence in
   * `ps`, and nothing for a key that does not occur.
   */
  lemma {:induction false} FromPairsGet<K(!new), V>(ps: seq<(K, V)>, k: K)
    ensures Get(FromPairs(ps), k) == LastValue(ps, k)
  {
    if ps != [] {
      FromPairsGet(ps[..|ps| - 1], k);
    }
  }

  /** `dict(ps)` has as keys exactly the keys occurring in `ps`. */
  lemma {:induction false} FromPairsKeys<K(!new), V>(ps: seq<(K, V)>, k: K)
    ensures k in Keys(FromPairs(ps)) <==> k in Keys(ps)
  {
    FromPairsGet(ps, k);
    LastValueOccurs(ps, k);
  }

  /**
   * The keys of `dict(ps)` stand in the order of their FIRST occurrence in
   * `ps`; in particular no key occurs twice.
   */
  lemma FromPairsOrder<K(!new), V>(ps: seq<(K, V)>)
    ensures forall i, j :: 0 <= i < j < |FromPairs(ps)| ==>
      Position(Keys(ps), FromPairs(ps)[i].0) < Position(Keys(ps), FromPairs(ps)[j].0)
    ensures forall i :: 0 <= i < |FromPairs(ps)| ==> Position(Keys(ps), FromPairs(ps)[i].0) < |ps|
  {
    var d := FromPairs(ps);
    KeysInOrder(ps);
    assert forall i :: 0 <= i < |d| ==> Keys(d)[i] == d[i].0;
  }

  /** Every element of `ks` occurs in `xs`, and `ks` lists them by first occurrence in `xs`. */
  ghost predicate InOrder<T>(ks: seq<T>, xs: seq<T>)
  {
    && (forall i, j :: 0 <= i < j < |ks| ==> Position(xs, ks[i]) < Position(xs, ks[j]))
    && (forall i :: 0 <= i < |ks| ==> Position(xs, ks[i]) < |xs|)
  }

  lemma InOrderSnoc<T>(ks: seq<T>, xs: seq<T>, x: T)
    requires InOrder(ks, xs)
    ensures InOrder(ks, xs + [x])
  {
    forall i | 0 <= i < |ks| ensures Position(xs + [x], ks[i]) == Position(xs, ks[i]) {
      PositionSnoc(xs, x, ks[i]);
    }
  }

  lemma InOrderAppend<T>(ks: seq<T>, xs: seq<T>, x: T)
    requires InOrder(ks, xs)
    requires x !in xs
    ensures InOrder(ks + [x], xs + [x])
  {
    InOrderSnoc(ks, xs, x);
    PositionSnoc(xs, x, x);
    var ks' := ks + [x];
    forall i | 0 <= i < |ks| ensures ks'[i] == ks[i] && Position(xs + [x], ks'[i]) < |xs| {
      PositionSnoc(xs, x, ks[i]);
    }
  }

  lemma {:induction false} KeysInOrder<K(!new), V>(ps: seq<(K, V)>)
    ensures InOrder(Keys(FromPairs(ps)), Keys(ps))
  {
    if ps != [] {
      var pre := ps[..|ps| - 1];
      var last := ps[|ps| - 1];
      KeysInOrder(pre);
      assert Keys(ps) == Keys(pre) + [last.0];
      var k0 := Keys(FromPairs(pre));
      if last.0 in k0 {
        InOrderSnoc(k0, Keys(pre), last.0);
      } else {
        FromPairsKeys(pre, last.0);
        InOrderAppend(k0, Keys(pre), last.0);
      }
    }
  }

  /** No key occurs twice in `dict(ps)`. */
  lemma FromPairsDistinct<K(!new), V>(ps: seq<(K, V)>)
    ensures Distinct(Keys(FromPairs(ps)))
  {
    var d := FromPairs(ps);
    FromPairsOrder(ps);
    forall i, j | 0 <= i < j < |d| ensures Keys(d)[i] != Keys(d)[j] {
      assert Position(Keys(ps), d[i].0) < Position(Keys(ps), d[j].0);
    }
  }

  /** In a dict without repeated keys, every entry is what its key looks up. */
  lemma GetEntry<K(!new), V>(d: seq<(K, V)>, i: nat)
    requires Distinct(Keys(d))
    requires i < |d|
    ensures Get(d, d[i].0) == Some(d[i].1)
  {
    assert Keys(d)[i] == d[i].0;
  }

  /** A sequence without repeats has as many elements as its set. */
  lemma {:induction false} DistinctCard<T>(s: seq<T>)
    requires Distinct(s)
    ensures |set x | x in s| == |s|
  {
    if s != [] {
      var pre := s[..|s| - 1];
      assert (set x | x in s) == (set x | x in pre) + {s[|s| - 1]};
      assert s[|s| - 1] !in pre;
      DistinctCard(pre);
    }
  }

  /** `len(dict(ps))` is the number of distinct keys in `ps`. */
  lemma FromPairsSize<K(!new), V>(ps: seq<(K, V)>)
    ensures |FromPairs(ps)| == |set k | k in Keys(ps)|
  {
    var d := FromPairs(ps);
    FromPairsDistinct(ps);
    forall k ensures k in Keys(d) <==> k in Keys(ps) {
      FromPairsKeys(ps, k);
    }
    DistinctSameElements(Keys(d), Keys(ps));
  }

  /** A sequence without repeats is as long as the set of any sequence with the same elements. */
  lemma DistinctSameElements<T>(a: seq<T>, b: seq<T>)
    requires Distinct(a)
    requires forall x :: x in a <==> x in b
    ensures |a| == |set x | x in b|
  {
    DistinctCard(a);
    assert (set x | x in a) == (set x | x in b);
  }
}
