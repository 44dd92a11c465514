/**
 * Python's `dict` as the validators use it: insertion-ordered, built by
 * `dict(zip(keys, values))`, iterated with `items()`. A dict is the sequence
 * of its items in insertion order; its keys are pairwise distinct.
 */
module PyDict {
  import opened Wrappers

  /** The keys of an item sequence, in order. */
  function Keys<K, V>(items: seq<(K, V)>): seq<K>
  {
    seq(|items|, i requires 0 <= i < |items| => items[i].0)
  }

  lemma KeysAppend<K, V>(a: seq<(K, V)>, b: seq<(K, V)>)
    ensures Keys(a + b) == Keys(a) + Keys(b)
  {
    var ks, ks' := Keys(a + b), Keys(a) + Keys(b);
    forall i | 0 <= i < |ks| ensures ks[i] == ks'[i] {
      if i < |a| { assert (a + b)[i] == a[i]; } else { assert (a + b)[i] == b[i - |a|]; }
    }
  }

  predicate Distinct<K(==)>(ks: seq<K>)
  {
    forall i, j :: 0 <= i < j < |ks| ==> ks[i] != ks[j]
  }

  /** The value stored under `k`, if any (`d.get(k)`). */
  function Get<K(==), V>(items: seq<(K, V)>, k: K): Option<V>
  {
    if items == [] then None
    else if items[0].0 == k then Some(items[0].1)
    else Get(items[1..], k)
  }

  /**
   * `d[k] = v`: an existing key keeps its position and takes the new value;
   * a new key goes to the end.
   */
  function Put<K(==), V>(items: seq<(K, V)>, k: K, v: V): (r: seq<(K, V)>)
    ensures Keys(r) == if k in Keys(items) then Keys(items) else Keys(items) + [k]
  {
    if items == [] then [(k, v)]
    else if items[0].0 == k then
      assert Keys([(k, v)] + items[1..]) == Keys(items) by {
        KeysAppend([(k, v)], items[1..]);
        KeysAppend([items[0]], items[1..]);
        assert [items[0]] + items[1..] == items;
      }
      assert Keys(items)[0] == k;
      [(k, v)] + items[1..]
    else
      var rest := Put(items[1..], k, v);
      assert Keys([items[0]] + rest) == [items[0].0] + Keys(rest) by { KeysAppend([items[0]], rest); }
      assert Keys(items) == [items[0].0] + Keys(items[1..]) by {
        KeysAppend([items[0]], items[1..]);
        assert [items[0]] + items[1..] == items;
      }
      assert k in Keys(items) <==> k in Keys(items[1..]);
      assert [items[0].0] + (Keys(items[1..]) + [k]) == Keys(items) + [k];
      [items[0]] + rest
  }

  /** `dict(pairs)`: the pairs stored one after the other, later values overwriting earlier ones. */
  function FromPairs<K(==), V>(pairs: seq<(K, V)>): seq<(K, V)>
  {
    if pairs == [] then []
    else
      var last := pairs[|pairs| - 1];
      Put(FromPairs(pairs[..|pairs| - 1]), last.0, last.1)
  }

  /** The value of the last pair whose key is `k`. */
  function LastValue<K(==), V>(pairs: seq<(K, V)>, k: K): Option<V>
  {
    if pairs == [] then None
    else if pairs[|pairs| - 1].0 == k then Some(pairs[|pairs| - 1].1)
    else LastValue(pairs[..|pairs| - 1], k)
  }

  /** `zip(a, b)`: pairs up to the length of the shorter argument. */
  function Zip<A, B>(a: seq<A>, b: seq<B>): (r: seq<(A, B)>)
    ensures |r| == if |a| <= |b| then |a| else |b|
    ensures forall i :: 0 <= i < |r| ==> r[i] == (a[i], b[i])
  {
    seq(if |a| <= |b| then |a| else |b|, i requires 0 <= i < |a| && i < |b| => (a[i], b[i]))
  }

  /** After `d[k] = v`, `k` maps to `v` and every other key keeps its value. */
  lemma {:induction false} PutGet<K, V>(items: seq<(K, V)>, k: K, v: V, k': K)
    ensures Get(Put(items, k, v), k') == if k' == k then Some(v) else Get(items, k')
  {
    if items != [] && items[0].0 != k {
      PutGet(items[1..], k, v, k');
    }
  }

  lemma {:induction false} PutKeepsDistinct<K, V>(items: seq<(K, V)>, k: K, v: V)
    requires Distinct(Keys(items))
    ensures Distinct(Keys(Put(items, k, v)))
  {
    var ks := Keys(items);
    if k !in ks {
      var ks' := ks + [k];
      forall i, j | 0 <= i < j < |ks'| ensures ks'[i] != ks'[j] {
        if j < |ks| { assert ks'[i] == ks[i] && ks'[j] == ks[j]; }
      }
    }
  }

  /** A dict built from pairs has distinct keys, and exactly the keys of the pairs. */
  lemma {:induction false} FromPairsKeys<K, V>(pairs: seq<(K, V)>)
    ensures Distinct(Keys(FromPairs(pairs)))
    ensures forall k :: k in Keys(FromPairs(pairs)) <==> k in Keys(pairs)
  {
    if pairs != [] {
      var init := pairs[..|pairs| - 1];
      var last := pairs[|pairs| - 1];
      FromPairsKeys(init);
      PutKeepsDistinct(FromPairs(init), last.0, last.1);
      var ks, ks' := Keys(pairs), Keys(init) + [last.0];
      forall i | 0 <= i < |ks| ensures ks[i] == ks'[i] {
        if i < |init| { assert ks'[i] == Keys(init)[i] && pairs[i] == init[i]; }
      }
      assert ks == ks';
    }
  }

  /** Looking a key up in `dict(pairs)` finds the value of the last pair with that key. */
  lemma {:induction false} FromPairsGet<K, V>(pairs: seq<(K, V)>, k: K)
    ensures Get(FromPairs(pairs), k) == LastValue(pairs, k)
  {
    if pairs != [] {
      var last := pairs[|pairs| - 1];
      FromPairsGet(pairs[..|pairs| - 1], k);
      PutGet(FromPairs(pairs[..|pairs| - 1]), last.0, last.1, k);
    }
  }

  lemma {:induction false} PutFresh<K, V>(items: seq<(K, V)>, k: K, v: V)
    requires k !in Keys(items)
    ensures Put(items, k, v) == items + [(k, v)]
  {
    if items != [] {
      assert k !in Keys(items[1..]) by {
        forall i | 0 <= i < |items| - 1 ensures Keys(items[1..])[i] != k {
          assert Keys(items[1..])[i] == Keys(items)[i + 1];
        }
      }
      PutFresh(items[1..], k, v);
      assert [items[0]] + (items[1..] + [(k, v)]) == items + [(k, v)];
    }
  }

  /** Dropping the last pair keeps the keys distinct, and the dropped key is not among the others. */
  lemma DistinctInit<K, V>(pairs: seq<(K, V)>)
    requires pairs != [] && Distinct(Keys(pairs))
    ensures Distinct(Keys(pairs[..|pairs| - 1]))
    ensures pairs[|pairs| - 1].0 !in Keys(pairs[..|pairs| - 1])
  {
    var n := |pairs| - 1;
    var ks, ks' := Keys(pairs), Keys(pairs[..n]);
    forall i | 0 <= i < n ensures ks'[i] == ks[i] {
      assert pairs[..n][i] == pairs[i];
    }
    forall i, j | 0 <= i < j < n ensures ks'[i] != ks'[j] {
      assert ks[i] != ks[j];
    }
    forall i | 0 <= i < n ensures ks'[i] != pairs[n].0 {
      assert ks[i] != ks[n];
    }
  }

  /** With pairwise distinct keys, `dict(pairs).items()` is the pairs themselves, in order. */
  lemma {:induction false} FromDistinctPairs<K, V>(pairs: seq<(K, V)>)
    requires Distinct(Keys(pairs))
    ensures FromPairs(pairs) == pairs
  {
    if pairs != [] {
      var n := |pairs| - 1;
      var init := pairs[..n];
      DistinctInit(pairs);
      FromDistinctPairs(init);
      PutFresh(init, pairs[n].0, pairs[n].1);
      assert init + [pairs[n]] == pairs;
    }
  }
}
