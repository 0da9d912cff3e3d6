/**
  Folding hash maps into one: for every map in turn, and in it for every key in
  whatever order the map yields them, look the key up in the result, start it
  with a blank entry if it is missing, and merge the value in.
 */
module HashFold {

  function Get<K, P>(m: map<K, P>, k: K, blank: P): P {
    if k in m then m[k] else blank
  }

  /** The entry of key `k` after all items, told from the items that hold it. */
  function FoldFor<K, V, P>(items: seq<map<K, V>>, k: K, merge: (P, V) -> P, blank: P): P {
    if items == [] then blank
    else
      var entry := FoldFor(items[..|items| - 1], k, merge, blank);
      var last := items[|items| - 1];
      if k in last then merge(entry, last[k]) else entry
  }

  function KeysOf<K, V>(items: seq<map<K, V>>): set<K> {
    if items == [] then {} else KeysOf(items[..|items| - 1]) + items[|items| - 1].Keys
  }

  lemma {:induction false} AbsentIsBlank<K, V, P>(items: seq<map<K, V>>, k: K, merge: (P, V) -> P, blank: P)
    requires k !in KeysOf(items)
    ensures FoldFor(items, k, merge, blank) == blank
  {
    if items != [] {
      AbsentIsBlank(items[..|items| - 1], k, merge, blank);
    }
  }

  /** `r` is `agg` with the keys of `done` merged in from `item`. */
  ghost predicate PartlyMerged<K(!new), V, P>(r: map<K, P>, agg: map<K, P>, item: map<K, V>, done: set<K>,
                                              merge: (P, V) -> P, blank: P)
  {
    && done <= item.Keys
    && (forall k :: k in r <==> k in agg || k in done)
    && (forall k :: k in r ==> r[k] == if k in done then merge(Get(agg, k, blank), item[k]) else agg[k])
  }

  /** One more key, of those still left, merged in. */
  lemma MergeNext<K(!new), V, P>(r: map<K, P>, agg: map<K, P>, item: map<K, V>, left: set<K>,
                                 merge: (P, V) -> P, blank: P, k: K)
    requires left <= item.Keys && k in left
    requires PartlyMerged(r, agg, item, item.Keys - left, merge, blank)
    ensures PartlyMerged(r[k := merge(Get(r, k, blank), item[k])], agg, item, item.Keys - (left - {k}), merge, blank)
  {
  }

  /** Some key of those left, as the iteration order of the map has it. */
  method NextKey<K(==)>(left: set<K>) returns (k: K, rest: set<K>)
    requires left != {}
    ensures k in left && rest == left - {k} && |rest| < |left|
  {
    k :| k in left;
    rest := left - {k};
  }

  /** The loop over one map. */
  method AddItem<K(==, !new), V, P>(agg: map<K, P>, item: map<K, V>, merge: (P, V) -> P, blank: P) returns (r: map<K, P>)
    ensures PartlyMerged(r, agg, item, item.Keys, merge, blank)
  {
    r := agg;
    var left := item.Keys;
    while left != {}
      invariant left <= item.Keys && PartlyMerged(r, agg, item, item.Keys - left, merge, blank)
      decreases |left|
    {
      var k, rest := NextKey(left);
      MergeNext(r, agg, item, left, merge, blank, k);
      r := r[k := merge(Get(r, k, blank), item[k])];
      left := rest;
    }
    assert item.Keys - {} == item.Keys;
  }

  ghost predicate Folded<K(!new), V, P>(agg: map<K, P>, items: seq<map<K, V>>, merge: (P, V) -> P, blank: P) {
    && agg.Keys == KeysOf(items)
    && forall k :: k in agg ==> agg[k] == FoldFor(items, k, merge, blank)
  }

  lemma ItemFolded<K(!new), V, P>(agg: map<K, P>, r: map<K, P>, items: seq<map<K, V>>, n: nat, merge: (P, V) -> P, blank: P)
    requires n < |items| && Folded(agg, items[..n], merge, blank)
    requires PartlyMerged(r, agg, items[n], items[n].Keys, merge, blank)
    ensures Folded(r, items[..n + 1], merge, blank)
  {
    var upTo := items[..n + 1];
    assert upTo[..n] == items[..n] && upTo[n] == items[n];
    forall k | k in r ensures r[k] == FoldFor(upTo, k, merge, blank) {
      if k !in agg {
        AbsentIsBlank(items[..n], k, merge, blank);
      }
    }
  }

  // ---------------------------------------------------------------------------
  // Sums that do not depend on the order
  // ---------------------------------------------------------------------------

  ghost predicate Swaps<T(!new)>(plus: (T, T) -> T) {
    forall a, b, c :: plus(plus(a, b), c) == plus(plus(a, c), b)
  }

  function Total<X, T>(items: seq<X>, share: X -> T, plus: (T, T) -> T, zero: T): T {
    if items == [] then zero
    else plus(Total(items[..|items| - 1], share, plus, zero), share(items[|items| - 1]))
  }

  /** Any item may be taken out and added last. */
  lemma {:induction false} TakeOut<X, T(!new)>(items: seq<X>, share: X -> T, plus: (T, T) -> T, zero: T, k: nat)
    requires k < |items| && Swaps(plus)
    ensures Total(items, share, plus, zero)
         == plus(Total(items[..k] + items[k + 1..], share, plus, zero), share(items[k]))
  {
    var n := |items| - 1;
    var rest := items[..k] + items[k + 1..];
    if k == n {
      assert rest == items[..n];
    } else {
      var front := items[..n];
      TakeOut(front, share, plus, zero, k);
      assert front[..k] + front[k + 1..] == rest[..|rest| - 1] && rest[|rest| - 1] == items[n];
    }
  }

  lemma MultisetWithout<T>(s: seq<T>, k: nat)
    requires k < |s|
    ensures multiset(s) == multiset(s[..k] + s[k + 1..]) + multiset{s[k]}
  {
    assert s == s[..k] + ([s[k]] + s[k + 1..]);
  }

  /** The last of one list, found and taken out of a reordering of it. */
  lemma LastIn<T>(one: seq<T>, two: seq<T>) returns (k: nat)
    requires one != [] && multiset(one) == multiset(two)
    ensures k < |two| && two[k] == one[|one| - 1]
    ensures multiset(one[..|one| - 1]) == multiset(two[..k] + two[k + 1..])
  {
    var n := |one| - 1;
    MultisetWithout(one, n);
    assert one[..n] + one[n + 1..] == one[..n];
    assert one[n] in multiset(two);
    k :| 0 <= k < |two| && two[k] == one[n];
    MultisetWithout(two, k);
    Cancel(multiset(one[..n]), multiset(two[..k] + two[k + 1..]), one[n]);
  }

  lemma Cancel<T>(a: multiset<T>, b: multiset<T>, x: T)
    requires a + multiset{x} == b + multiset{x}
    ensures a == b
  {
    assert a == a + multiset{x} - multiset{x};
    assert b == b + multiset{x} - multiset{x};
  }

  lemma {:induction false} TotalOrderFree<X, T(!new)>(one: seq<X>, two: seq<X>, share: X -> T, plus: (T, T) -> T, zero: T)
    requires multiset(one) == multiset(two) && Swaps(plus)
    ensures Total(one, share, plus, zero) == Total(two, share, plus, zero)
  {
    if one == [] {
      assert |two| == |multiset(two)| == 0;
    } else {
      var k := LastIn(one, two);
      TakeOut(two, share, plus, zero, k);
      TotalOrderFree(one[..|one| - 1], two[..k] + two[k + 1..], share, plus, zero);
    }
  }

  lemma {:induction false} KeyOfSome<K, V>(items: seq<map<K, V>>, k: K)
    ensures k in KeysOf(items) <==> exists i :: 0 <= i < |items| && k in items[i]
  {
    if items != [] {
      var front := items[..|items| - 1];
      KeyOfSome(front, k);
      assert forall i :: 0 <= i < |front| ==> front[i] == items[i];
    }
  }

  lemma KeysOrderFree<K, V>(one: seq<map<K, V>>, two: seq<map<K, V>>)
    requires multiset(one) == multiset(two)
    ensures KeysOf(one) == KeysOf(two)
  {
    KeysIncluded(one, two);
    KeysIncluded(two, one);
  }

  lemma KeysIncluded<K, V>(one: seq<map<K, V>>, two: seq<map<K, V>>)
    requires multiset(one) == multiset(two)
    ensures KeysOf(one) <= KeysOf(two)
  {
    forall k | k in KeysOf(one) ensures k in KeysOf(two) {
      KeyOfSome(one, k);
      KeyOfSome(two, k);
      var i :| 0 <= i < |one| && k in one[i];
      assert one[i] in multiset(two);
      var j :| 0 <= j < |two| && two[j] == one[i];
    }
  }
}
