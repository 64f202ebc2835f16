/** A Python `dict`: key/value pairs in insertion order. Assigning to a
    present key replaces its value where it stands, assigning to a new key
    appends it, and `del` removes the pair and keeps the order of the rest. */
module OrderedDict {
  import opened Wrappers
  import opened Sequences

  type Dict<K, V> = seq<(K, V)>

  /** The keys in iteration order (`d.keys()`). */
  function Keys<K, V>(d: Dict<K, V>): (ks: seq<K>)
    ensures |ks| == |d|
  {
    if d == [] then [] else [d[0].0] + Keys(d[1..])
  }

  /** The values in iteration order (`d.values()`). */
  function Values<K, V>(d: Dict<K, V>): (vs: seq<V>)
    ensures |vs| == |d|
  {
    if d == [] then [] else [d[0].1] + Values(d[1..])
  }

  /** Every key occurs once: the invariant of a dict. */
  predicate Valid<K(==), V>(d: Dict<K, V>) {
    d == [] || (d[0].0 !in Keys(d[1..]) && Valid(d[1..]))
  }

  /** `d.get(k)`. */
  function Get<K(==), V>(d: Dict<K, V>, k: K): (r: Option<V>)
    ensures r.Some? <==> k in Keys(d)
    ensures r.Some? ==> (k, r.value) in d
  {
    if d == [] then None
    else if d[0].0 == k then Some(d[0].1)
    else Get(d[1..], k)
  }

  /** `d[k] = v`. */
  function Put<K(==,!new), V>(d: Dict<K, V>, k: K, v: V): (r: Dict<K, V>)
    ensures Keys(r) == if k in Keys(d) then Keys(d) else Keys(d) + [k]
    ensures Valid(d) ==> Valid(r)
  {
    if d == [] then [(k, v)]
    else if d[0].0 == k then [(k, v)] + d[1..]
    else [d[0]] + Put(d[1..], k, v)
  }

  /** `del d[k]` when `k` is present; nothing when it is not. */
  function Remove<K(==,!new), V>(d: Dict<K, V>, k: K): (r: Dict<K, V>)
    ensures k !in Keys(d) ==> r == d
    ensures forall x :: x in Keys(r) ==> x in Keys(d)
    ensures Valid(d) ==> Valid(r) && k !in Keys(r)
  {
    if d == [] then []
    else if d[0].0 == k then d[1..]
    else [d[0]] + Remove(d[1..], k)
  }

  /** After `d[k] = v`, `k` maps to `v` and every other key to what it
      mapped to before. */
  lemma {:induction false} PutGet<K(!new), V>(d: Dict<K, V>, k: K, v: V, k': K)
    ensures Get(Put(d, k, v), k') == if k' == k then Some(v) else Get(d, k')
  {
    if d != [] && d[0].0 != k {
      PutGet(d[1..], k, v, k');
    }
  }

  /** After `del d[k]` in a dict, `k` is gone and every other key maps to
      what it mapped to before. */
  lemma {:induction false} RemoveGet<K(!new), V>(d: Dict<K, V>, k: K, k': K)
    requires Valid(d)
    ensures Get(Remove(d, k), k') == if k' == k then None else Get(d, k')
  {
    if d != [] && d[0].0 != k {
      RemoveGet(d[1..], k, k');
    }
  }

  /** The keys of two dicts laid end to end. */
  lemma {:induction false} KeysAppend<K, V>(a: Dict<K, V>, b: Dict<K, V>)
    ensures Keys(a + b) == Keys(a) + Keys(b)
  {
    if a == [] {
      assert a + b == b;
    } else {
      assert (a + b)[1..] == a[1..] + b;
      KeysAppend(a[1..], b);
    }
  }

  /** When two runs of pairs laid end to end form a dict, they share no key. */
  lemma {:induction false} ValidAppend<K, V>(a: Dict<K, V>, b: Dict<K, V>)
    requires Valid(a + b)
    ensures Valid(a) && Valid(b)
    ensures forall k :: k in Keys(a) ==> k !in Keys(b)
  {
    if a == [] {
      assert a + b == b;
    } else {
      assert (a + b)[1..] == a[1..] + b;
      ValidAppend(a[1..], b);
      KeysAppend(a[1..], b);
      KeysAppend(a[1..], []);
      assert a[1..] + [] == a[1..];
    }
  }

  /** Position of the pair holding key `k`. */
  function KeyIndex<K(==), V>(d: Dict<K, V>, k: K): (i: nat)
    requires k in Keys(d)
    ensures i < |d| && d[i].0 == k
  {
    if d[0].0 == k then 0 else KeyIndex(d[1..], k) + 1
  }

  /** `del d[k]` takes out the pair at the key's position and leaves the
      pairs before and after it in place. */
  lemma {:induction false} RemoveAt<K(!new), V>(d: Dict<K, V>, k: K)
    requires k in Keys(d)
    ensures Remove(d, k) == d[..KeyIndex(d, k)] + d[KeyIndex(d, k) + 1..]
  {
    if d[0].0 != k {
      var j := KeyIndex(d[1..], k);
      calc {
        Remove(d, k);
        [d[0]] + Remove(d[1..], k);
        == { RemoveAt(d[1..], k); }
        [d[0]] + (d[1..][..j] + d[1..][j + 1..]);
        == { assert d[..j + 1] == [d[0]] + d[1..][..j]; assert d[j + 2..] == d[1..][j + 1..]; }
        d[..j + 1] + d[j + 2..];
      }
    }
  }

  /** Assigning to a new key appends the pair at the end. */
  lemma {:induction false} PutNewAppends<K(!new), V>(d: Dict<K, V>, k: K, v: V)
    requires k !in Keys(d)
    ensures Put(d, k, v) == d + [(k, v)]
  {
    if d != [] {
      assert Keys(d) == [d[0].0] + Keys(d[1..]);
      PutNewAppends(d[1..], k, v);
      assert d == [d[0]] + d[1..];
    }
  }

  /** In a dict the value stored with a key is what `Get` finds. */
  lemma {:induction false} GetValid<K, V>(d: Dict<K, V>, i: nat)
    requires Valid(d) && i < |d|
    ensures Get(d, d[i].0) == Some(d[i].1)
  {
    if i > 0 {
      KeyAt(d[1..], i - 1);
      GetValid(d[1..], i - 1);
    }
  }

  /** The key of the pair at position `i` is the `i`-th key. */
  lemma {:induction false} KeyAt<K, V>(d: Dict<K, V>, i: nat)
    requires i < |d|
    ensures Keys(d)[i] == d[i].0 && d[i].0 in Keys(d)
  {
    if i > 0 {
      KeyAt(d[1..], i - 1);
    }
  }

  /** A key is present exactly when some pair carries it. */
  lemma {:induction false} KeysMembership<K, V>(d: Dict<K, V>, k: K)
    ensures k in Keys(d) <==> exists i :: 0 <= i < |d| && d[i].0 == k
  {
    if d != [] {
      KeysMembership(d[1..], k);
      if exists i :: 0 <= i < |d| && d[i].0 == k {
        var i :| 0 <= i < |d| && d[i].0 == k;
        if i > 0 {
          assert d[1..][i - 1].0 == k;
        }
      }
      if exists i :: 0 <= i < |d[1..]| && d[1..][i].0 == k {
        var i :| 0 <= i < |d[1..]| && d[1..][i].0 == k;
        assert d[i + 1].0 == k;
      }
    }
  }
}
