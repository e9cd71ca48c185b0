/** Keeping the first element of each key: the `seen`-set merge of the
    search index, over any element type and key. */
module Unique {
  import opened Seqs

  function KeySet<T, K>(ds: seq<T>, key: T -> K): set<K> {
    set k | 0 <= k < |ds| :: key(ds[k])
  }

  predicate DistinctKeys<T, K(==)>(ds: seq<T>, key: T -> K) {
    forall i, j :: 0 <= i < j < |ds| ==> key(ds[i]) != key(ds[j])
  }

  /** The merge, one element at a time: an element whose key was seen
      before is dropped. */
  function Dedup<T, K(==)>(ds: seq<T>, key: T -> K): seq<T>
    decreases |ds|
  {
    if ds == [] then []
    else
      var kept := Dedup(ds[..|ds| - 1], key);
      if key(ds[|ds| - 1]) in KeySet(kept, key) then kept else kept + [ds[|ds| - 1]]
  }

  /** Position `k` holds the first element with its key. */
  predicate FirstOfKey<T, K(==)>(ds: seq<T>, key: T -> K, k: nat)
    requires k < |ds|
  {
    forall j :: 0 <= j < k ==> key(ds[j]) != key(ds[k])
  }

  /** An independent description of the merge: the elements at the
      positions that are first of their key, in order. */
  function Firsts<T, K(==)>(ds: seq<T>, key: T -> K, n: nat): seq<T>
    requires n <= |ds|
  {
    if n == 0 then []
    else Firsts(ds, key, n - 1) + (if FirstOfKey(ds, key, n - 1) then [ds[n - 1]] else [])
  }

  lemma KeySetSnoc<T, K>(ds: seq<T>, key: T -> K, d: T)
    ensures KeySet(ds + [d], key) == KeySet(ds, key) + {key(d)}
  {
    var e := ds + [d];
    assert forall k :: 0 <= k < |ds| ==> e[k] == ds[k];
    assert e[|ds|] == d;
  }

  /** The merge keeps every key it meets. */
  lemma {:induction false} DedupKeys<T, K>(ds: seq<T>, key: T -> K)
    ensures KeySet(Dedup(ds, key), key) == KeySet(ds, key)
    decreases |ds|
  {
    if ds != [] {
      var init := ds[..|ds| - 1];
      var last := ds[|ds| - 1];
      DedupKeys(init, key);
      assert ds == init + [last];
      KeySetSnoc(init, key, last);
      KeySetSnoc(Dedup(init, key), key, last);
    }
  }

  /** No two kept elements share a key. */
  lemma {:induction false} DedupDistinct<T, K>(ds: seq<T>, key: T -> K)
    ensures DistinctKeys(Dedup(ds, key), key)
    decreases |ds|
  {
    if ds != [] {
      var init := ds[..|ds| - 1];
      var last := ds[|ds| - 1];
      DedupDistinct(init, key);
      var kept := Dedup(init, key);
      if key(last) !in KeySet(kept, key) {
        var r := kept + [last];
        forall i, j | 0 <= i < j < |r| ensures key(r[i]) != key(r[j]) {
          if j == |kept| {
            assert r[i] == kept[i];
          } else {
            assert r[i] == kept[i] && r[j] == kept[j];
          }
        }
      }
    }
  }

  /** The kept elements are the input with some elements deleted. */
  lemma {:induction false} DedupSubseq<T, K>(ds: seq<T>, key: T -> K)
    ensures IsSubseq(Dedup(ds, key), ds)
    decreases |ds|
  {
    if ds != [] {
      var init := ds[..|ds| - 1];
      DedupSubseq(init, key);
      assert ds == init + [ds[|ds| - 1]];
      SubseqSnoc(Dedup(init, key), init, ds[|ds| - 1]);
    }
  }

  /** The merge keeps exactly the first element of each key, in order. */
  lemma {:induction false} DedupIsFirsts<T, K>(ds: seq<T>, key: T -> K, n: nat)
    requires n <= |ds|
    ensures Dedup(ds[..n], key) == Firsts(ds, key, n)
  {
    if n > 0 {
      var init := ds[..n - 1];
      var p := ds[..n];
      assert p[..n - 1] == init;
      DedupIsFirsts(ds, key, n - 1);
      DedupKeys(init, key);
      if FirstOfKey(ds, key, n - 1) {
        assert key(ds[n - 1]) !in KeySet(init, key);
      } else {
        var j :| 0 <= j < n - 1 && key(ds[j]) == key(ds[n - 1]);
        assert init[j] == ds[j];
      }
    }
  }

  /** Merging more elements never disturbs what was kept before. */
  lemma {:induction false} DedupPrefix<T, K>(a: seq<T>, b: seq<T>, key: T -> K)
    ensures |Dedup(a, key)| <= |Dedup(a + b, key)|
    ensures Dedup(a + b, key)[..|Dedup(a, key)|] == Dedup(a, key)
    decreases |b|
  {
    if b == [] {
      assert a + b == a;
    } else {
      var init := b[..|b| - 1];
      DedupPrefix(a, init, key);
      assert (a + b)[..|a + b| - 1] == a + init;
    }
  }

  /** Elements whose keys are already distinct all survive. */
  lemma {:induction false} DedupOfDistinct<T, K>(ds: seq<T>, key: T -> K)
    requires DistinctKeys(ds, key)
    ensures Dedup(ds, key) == ds
    decreases |ds|
  {
    if ds != [] {
      var init := ds[..|ds| - 1];
      assert DistinctKeys(init, key) by {
        assert forall k :: 0 <= k < |init| ==> init[k] == ds[k];
      }
      DedupOfDistinct(init, key);
      DedupKeys(init, key);
      assert ds == init + [ds[|ds| - 1]];
    }
  }
}
