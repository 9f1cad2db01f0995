/**
 * The sort that `EventLoader.finalize` applies to every `children` list and
 * to `roots` (lib/event.ts:138-141): span handles ordered by the start time
 * of their spans, the comparator `a.start - b.start`. Stability is not
 * stated: starts in a loader's arena are pairwise distinct, so equal keys
 * never meet.
 */
module StartSort {

  /** Every handle of `xs` has a key. */
  predicate Keyed(xs: seq<nat>, key: seq<int>)
  {
    forall k :: 0 <= k < |xs| ==> xs[k] < |key|
  }

  /** `xs` is in non-decreasing key order. */
  predicate SortedBy(xs: seq<nat>, key: seq<int>)
    requires Keyed(xs, key)
  {
    forall i, j :: 0 <= i < j < |xs| ==> key[xs[i]] <= key[xs[j]]
  }

  /**
   * Inserts `x` into `ys` after every element whose key is not larger than
   * that of `x`, which keeps equal keys in arrival order.
   */
  function Insert(ys: seq<nat>, x: nat, key: seq<int>): (r: seq<nat>)
    requires Keyed(ys, key) && x < |key|
    ensures Keyed(r, key)
    ensures multiset(r) == multiset(ys) + multiset{x}
  {
    if ys == [] || key[ys[|ys| - 1]] <= key[x] then
      ys + [x]
    else
      assert ys == ys[..|ys| - 1] + [ys[|ys| - 1]];
      Insert(ys[..|ys| - 1], x, key) + [ys[|ys| - 1]]
  }

  /** A bound on every key of `ys` and on that of `x` bounds every key of the insertion. */
  lemma {:induction false} InsertBounded(ys: seq<nat>, x: nat, key: seq<int>, bound: int)
    requires Keyed(ys, key) && x < |key| && key[x] <= bound
    requires forall k :: 0 <= k < |ys| ==> key[ys[k]] <= bound
    ensures forall k :: 0 <= k < |Insert(ys, x, key)| ==> key[Insert(ys, x, key)[k]] <= bound
  {
    if ys != [] && key[x] < key[ys[|ys| - 1]] {
      InsertBounded(ys[..|ys| - 1], x, key, bound);
    }
  }

  /** Inserting into a sorted sequence gives a sorted sequence. */
  lemma {:induction false} InsertSorted(ys: seq<nat>, x: nat, key: seq<int>)
    requires Keyed(ys, key) && x < |key| && SortedBy(ys, key)
    ensures SortedBy(Insert(ys, x, key), key)
  {
    if ys == [] || key[ys[|ys| - 1]] <= key[x] {
      return;
    }
    var init, last := ys[..|ys| - 1], ys[|ys| - 1];
    var ins := Insert(init, x, key);
    InsertSorted(init, x, key);
    InsertBounded(init, x, key, key[last]);
    assert ys == init + [last];
    AppendSorted(ins, last, key);
  }

  /** Appending an element whose key bounds all others keeps a sequence sorted. */
  lemma AppendSorted(xs: seq<nat>, last: nat, key: seq<int>)
    requires Keyed(xs, key) && last < |key| && SortedBy(xs, key)
    requires forall k :: 0 <= k < |xs| ==> key[xs[k]] <= key[last]
    ensures Keyed(xs + [last], key) && SortedBy(xs + [last], key)
  {
    var r := xs + [last];
    forall i, j | 0 <= i < j < |r| ensures key[r[i]] <= key[r[j]] {
      assert r[i] == xs[i];
      if j < |xs| {
        assert r[j] == xs[j];
      }
    }
  }

  /**
   * Sorts `xs` by key: the result is sorted, a permutation of `xs`, and
   * equal to `xs` when `xs` is already sorted.
   */
  method SortByKey(xs: seq<nat>, key: seq<int>) returns (ys: seq<nat>)
    requires Keyed(xs, key)
    ensures Keyed(ys, key) && SortedBy(ys, key)
    ensures multiset(ys) == multiset(xs)
    ensures SortedBy(xs, key) ==> ys == xs
  {
    ys := [];
    for i := 0 to |xs|
      invariant Keyed(ys, key) && SortedBy(ys, key)
      invariant multiset(ys) == multiset(xs[..i])
      invariant SortedBy(xs, key) ==> ys == xs[..i]
    {
      assert xs[..i + 1] == xs[..i] + [xs[i]];
      InsertSorted(ys, xs[i], key);
      ys := Insert(ys, xs[i], key);
    }
    assert xs[..|xs|] == xs;
  }
}
