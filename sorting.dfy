/**
 * The snapshot sort: `[...items].sort((a, b) => (a.order ?? 0) - (b.order ?? 0))`
 * copies the pushed items and sorts the copy in place. The comparator has no
 * tie-break, so only the order of the keys is promised; the lemmas below show that
 * this already fixes the key sequence, and the whole sequence once keys are unique.
 */
module Sorting {
  import opened Todos

  /** Sorts a fresh copy of `items` ascending by key. */
  method SortByOrder(items: seq<Todo>) returns (sorted: seq<Todo>)
    ensures SortedByKey(sorted)
    ensures multiset(sorted) == multiset(items)
  {
    var a := new Todo[|items|](k requires 0 <= k < |items| => items[k]);
    assert a[..] == items;
    var i := 0;
    while i < a.Length
      invariant 0 <= i <= a.Length
      invariant SortedByKey(a[..i])
      invariant multiset(a[..]) == multiset(items)
    {
      InsertLast(a, i);
      i := i + 1;
    }
    assert a[..a.Length] == a[..];
    sorted := a[..];
  }

  /** Moves `a[i]` down into the sorted prefix `a[..i]` by adjacent exchanges:
      afterwards `a[..i + 1]` holds the old prefix and `a[i]`, sorted, and the
      cells after `i` are untouched. */
  method InsertLast(a: array<Todo>, i: nat)
    requires i < a.Length
    requires SortedByKey(a[..i])
    modifies a
    ensures SortedByKey(a[..i + 1])
    ensures multiset(a[..i + 1]) == multiset(old(a[..i + 1]))
    ensures a[i + 1..] == old(a[i + 1..])
    ensures multiset(a[..]) == multiset(old(a[..]))
  {
    SinkStart(a[..], i);
    var j := Sink(a, i);
    SinkDone(a[..], i, j);
    PrefixAndRest(a[..], i + 1);
    PrefixAndRest(old(a[..]), i + 1);
  }

  /** The exchange loop: the cell left out of order walks down to `j`, where
      it is no smaller than its left neighbour. */
  method Sink(a: array<Todo>, i: nat) returns (j: nat)
    requires i < a.Length
    requires SortedApartFrom(a[..], i, i) && BelowLater(a[..], i, i)
    modifies a
    ensures j <= i
    ensures SortedApartFrom(a[..], i, j) && BelowLater(a[..], i, j)
    ensures j == 0 || SortKey(a[j - 1]) <= SortKey(a[j])
    ensures multiset(a[..i + 1]) == multiset(old(a[..i + 1]))
    ensures a[i + 1..] == old(a[i + 1..])
  {
    j := i;
    while j > 0 && SortKey(a[j - 1]) > SortKey(a[j])
      invariant 0 <= j <= i
      invariant SortedApartFrom(a[..], i, j) && BelowLater(a[..], i, j)
      invariant multiset(a[..i + 1]) == multiset(old(a[..i + 1]))
      invariant a[i + 1..] == old(a[i + 1..])
    {
      ghost var before := a[..];
      a[j - 1], a[j] := a[j], a[j - 1];
      SinkStep(before, a[..], i, j);
      j := j - 1;
    }
  }

  /** Cells `0..n` are in key order, leaving out cell `j`. */
  ghost predicate SortedApartFrom(s: seq<Todo>, n: nat, j: nat)
    requires j <= n < |s|
  {
    forall p, q :: 0 <= p < q <= n && p != j && q != j ==> SortKey(s[p]) <= SortKey(s[q])
  }

  /** Cell `j` has a smaller key than every cell after it up to `n`. */
  ghost predicate BelowLater(s: seq<Todo>, n: nat, j: nat)
    requires j <= n < |s|
  {
    forall q :: j < q <= n ==> SortKey(s[j]) < SortKey(s[q])
  }

  /** Before the first exchange: the prefix is sorted and `s[n]` is the cell left out. */
  lemma SinkStart(s: seq<Todo>, n: nat)
    requires n < |s| && SortedByKey(s[..n])
    ensures SortedApartFrom(s, n, n) && BelowLater(s, n, n)
  {
    forall p, q | 0 <= p < q < n ensures SortKey(s[p]) <= SortKey(s[q]) {
      assert Keys(s[..n])[p] <= Keys(s[..n])[q];
    }
  }

  /** One exchange moves the left-out cell one place down and keeps the items. */
  lemma SinkStep(pre: seq<Todo>, post: seq<Todo>, n: nat, j: nat)
    requires 0 < j <= n < |pre|
    requires SortedApartFrom(pre, n, j) && BelowLater(pre, n, j)
    requires SortKey(pre[j - 1]) > SortKey(pre[j])
    requires post == pre[j - 1 := pre[j]][j := pre[j - 1]]
    ensures SortedApartFrom(post, n, j - 1) && BelowLater(post, n, j - 1)
    ensures multiset(post[..n + 1]) == multiset(pre[..n + 1])
    ensures post[n + 1..] == pre[n + 1..]
  {
    assert post[..n + 1] == Swapped(pre[..n + 1], j - 1, j);
    SwappedIsPermutation(pre[..n + 1], j - 1, j);
  }

  /** When the left-out cell is no smaller than its left neighbour, cells `0..n` are sorted. */
  lemma SinkDone(s: seq<Todo>, n: nat, j: nat)
    requires j <= n < |s|
    requires SortedApartFrom(s, n, j) && BelowLater(s, n, j)
    requires j == 0 || SortKey(s[j - 1]) <= SortKey(s[j])
    ensures SortedByKey(s[..n + 1])
  {
    forall p, q | 0 <= p < q <= n ensures SortKey(s[p]) <= SortKey(s[q]) {
      if p == j || q == j {
      } else if p < j && j < q {
        assert SortKey(s[p]) <= SortKey(s[j - 1]) || p == j - 1;
      }
    }
    assert forall p :: 0 <= p <= n ==> Keys(s[..n + 1])[p] == SortKey(s[p]);
  }

  /** A sequence is its prefix followed by the rest. */
  lemma PrefixAndRest(s: seq<Todo>, n: nat)
    requires n <= |s|
    ensures multiset(s) == multiset(s[..n]) + multiset(s[n..])
  {
    assert s == s[..n] + s[n..];
  }

  /** Ascending sequences with the same values start with the same least value. */
  lemma SortedHeadsAgree(x: seq<int>, y: seq<int>)
    requires Ascending(x) && Ascending(y)
    requires x != [] && y != []
    requires multiset(x) == multiset(y)
    ensures x[0] == y[0]
  {
    assert x[0] in multiset(y) && y[0] in multiset(x);
    var j :| 0 <= j < |y| && y[j] == x[0];
    var i :| 0 <= i < |x| && x[i] == y[0];
    assert y[0] <= y[j] && x[0] <= x[i];
  }

  /** Two ascending integer sequences holding the same values are equal. */
  lemma {:induction false} SortedIntsEqual(x: seq<int>, y: seq<int>)
    requires Ascending(x) && Ascending(y)
    requires multiset(x) == multiset(y)
    ensures x == y
    decreases |x|
  {
    assert |x| == |multiset(x)| == |multiset(y)| == |y|;
    if x != [] {
      SortedHeadsAgree(x, y);
      assert x == [x[0]] + x[1..] && y == [y[0]] + y[1..];
      assert multiset(x[1..]) == multiset(x) - multiset{x[0]};
      assert multiset(y[1..]) == multiset(y) - multiset{y[0]};
      SortedIntsEqual(x[1..], y[1..]);
    }
  }

  /** Permutations of records have the same multiset of keys. */
  lemma {:induction false} PermutationKeys(s: seq<Todo>, t: seq<Todo>)
    requires multiset(s) == multiset(t)
    ensures multiset(Keys(s)) == multiset(Keys(t))
    decreases |s|
  {
    assert |s| == |multiset(s)| == |multiset(t)| == |t|;
    if s != [] {
      assert s[0] in multiset(t);
      var j :| 0 <= j < |t| && t[j] == s[0];
      var t' := t[..j] + t[j + 1..];
      assert t == t[..j] + [t[j]] + t[j + 1..];
      assert s == [s[0]] + s[1..];
      assert multiset(t) == multiset(t[..j]) + multiset{t[j]} + multiset(t[j + 1..]);
      assert multiset(t') == multiset(t[..j]) + multiset(t[j + 1..]);
      assert multiset(s) == multiset{s[0]} + multiset(s[1..]);
      assert multiset(s[1..]) == multiset(s) - multiset{s[0]};
      assert multiset(t') == multiset(t) - multiset{t[j]};
      PermutationKeys(s[1..], t');
      KeysAppend([s[0]], s[1..]);
      KeysAppend(t[..j], [t[j]]);
      KeysAppend(t[..j] + [t[j]], t[j + 1..]);
      KeysAppend(t[..j], t[j + 1..]);
    }
  }

  /** Whatever order the sort leaves equal keys in, the sequence of keys it
      produces is determined by the snapshot alone. */
  lemma SortedPermutationsShareKeys(s: seq<Todo>, t: seq<Todo>)
    requires SortedByKey(s) && SortedByKey(t)
    requires multiset(s) == multiset(t)
    ensures Keys(s) == Keys(t)
  {
    PermutationKeys(s, t);
    SortedIntsEqual(Keys(s), Keys(t));
  }

  /** With unique keys there is only one sorted arrangement of a snapshot. */
  lemma SortedPermutationUnique(s: seq<Todo>, t: seq<Todo>)
    requires SortedByKey(s) && SortedByKey(t)
    requires multiset(s) == multiset(t)
    requires UniqueKeys(s)
    ensures s == t
  {
    SortedPermutationsShareKeys(s, t);
    assert |s| == |Keys(s)| == |Keys(t)| == |t|;
    forall i | 0 <= i < |s| ensures s[i] == t[i] {
      assert s[i] in multiset(t) && t[i] in multiset(s);
      assert Keys(s)[i] == Keys(t)[i];
    }
  }
}
