/**
 * The `Todo` record of the data schema, the calls the page issues to the record
 * store, and the sequence operations that moveTodo and deleteTodo are built from.
 */
module Todos {
  import opened Wrappers

  /** A `Todo` record as the store delivers it; `content` and `order` are optional. */
  datatype Todo = Todo(id: string, content: Option<string>, order: Option<int>)

  /** One call to the record store, returned as an intent instead of performed. */
  datatype StoreCall =
    | Create(content: string, order: int)
    | Update(id: string, order: int)
    | Delete(id: string)

  /** The key the snapshot comparator uses: a missing `order` counts as 0. */
  function SortKey(t: Todo): (k: int)
    ensures t.order == Some(k) || (t.order == None && k == 0)
  {
    match t.order
    case Some(k) => k
    case None => 0
  }

  /** The key given to the item at 0-based position `k`. */
  function RankOrder(k: nat): int {
    (k + 1) * 1000
  }

  function Keys(s: seq<Todo>): seq<int> {
    seq(|s|, i requires 0 <= i < |s| => SortKey(s[i]))
  }

  /** Non-decreasing integers. */
  predicate Ascending(x: seq<int>) {
    forall i, j :: 0 <= i < j < |x| ==> x[i] <= x[j]
  }

  /** Ascending by key; nothing is said about items with equal keys. */
  predicate SortedByKey(s: seq<Todo>) {
    Ascending(Keys(s))
  }

  /** Two records with the same key are the same record (keys are distinct at rest). */
  predicate UniqueKeys(s: seq<Todo>) {
    forall x, y :: x in s && y in s && SortKey(x) == SortKey(y) ==> x == y
  }

  lemma KeysAppend(a: seq<Todo>, b: seq<Todo>)
    ensures Keys(a + b) == Keys(a) + Keys(b)
  {
  }

  // ---------------------------------------------------------------------------
  // Renumbering: `s.map((todo, index) => update({ id: todo.id, order: (index + 1) * 1000 }))`
  // ---------------------------------------------------------------------------

  /** One update per item, in sequence order, carrying the item's rank key. */
  function Renumber(s: seq<Todo>): (calls: seq<StoreCall>)
    ensures |calls| == |s|
    ensures forall k :: 0 <= k < |s| ==> calls[k].Update? && calls[k].id == s[k].id
  {
    seq(|s|, k requires 0 <= k < |s| => Update(s[k].id, RankOrder(k)))
  }

  /** The records the store holds once every update of `Renumber(s)` has landed. */
  function Renumbered(s: seq<Todo>): seq<Todo> {
    seq(|s|, k requires 0 <= k < |s| => s[k].(order := Some(RankOrder(k))))
  }

  /** The k-th update names the k-th item; the keys are positive multiples of
      1000, strictly increasing, hence pairwise distinct. */
  lemma RenumberOrders(s: seq<Todo>)
    ensures |Renumber(s)| == |s|
    ensures forall k :: 0 <= k < |s| ==>
      Renumber(s)[k].Update? && Renumber(s)[k].id == s[k].id
      && Renumber(s)[k].order == (k + 1) * 1000
      && Renumber(s)[k].order > 0 && Renumber(s)[k].order % 1000 == 0
    ensures forall i, j :: 0 <= i < j < |s| ==> Renumber(s)[i].order < Renumber(s)[j].order
  {
  }

  /** Applying the updates of `Renumber(s)` to `s` gives `Renumbered(s)`: the same
      records in the same places, only `order` replaced. */
  lemma RenumberedMatchesUpdates(s: seq<Todo>)
    ensures |Renumbered(s)| == |s|
    ensures forall k :: 0 <= k < |s| ==>
      Renumbered(s)[k].id == s[k].id && Renumbered(s)[k].content == s[k].content
      && Renumber(s)[k] == Update(Renumbered(s)[k].id, SortKey(Renumbered(s)[k]))
  {
  }

  /** After renumbering the store's records are sorted with unique keys, and every
      key stays below the one the next create would use. */
  lemma {:induction false} RenumberedIsOrdered(s: seq<Todo>)
    ensures SortedByKey(Renumbered(s))
    ensures UniqueKeys(Renumbered(s))
    ensures forall t :: t in Renumbered(s) ==> 0 < SortKey(t) < RankOrder(|s|)
  {
    var r := Renumbered(s);
    forall x, y | x in r && y in r && SortKey(x) == SortKey(y) ensures x == y {
      var i :| 0 <= i < |r| && r[i] == x;
      var j :| 0 <= j < |r| && r[j] == y;
      assert (i + 1) * 1000 == (j + 1) * 1000;
    }
    forall t | t in r ensures 0 < SortKey(t) < RankOrder(|s|) {
      var i :| 0 <= i < |r| && r[i] == t;
    }
  }

  // ---------------------------------------------------------------------------
  // Locating an item: `todos.findIndex(t => t.id === id)`
  // ---------------------------------------------------------------------------

  /** The first position holding `id`, or -1 when there is none. */
  function IndexOf(s: seq<Todo>, id: string): (r: int)
    ensures -1 <= r < |s|
    ensures r == -1 <==> forall k :: 0 <= k < |s| ==> s[k].id != id
    ensures r >= 0 ==> s[r].id == id && forall k :: 0 <= k < r ==> s[k].id != id
  {
    if |s| == 0 then -1
    else if s[0].id == id then 0
    else
      var r := IndexOf(s[1..], id);
      if r == -1 then -1 else r + 1
  }

  // ---------------------------------------------------------------------------
  // Reordering: `splice(from, 1)` followed by `splice(to, 0, moved)`
  // ---------------------------------------------------------------------------

  /** The sequence after removing the item at `from` and inserting it at `to`. */
  function Moved(s: seq<Todo>, from: nat, to: nat): (r: seq<Todo>)
    requires from < |s| && to < |s|
    ensures |r| == |s| && r[to] == s[from]
  {
    var rest := s[..from] + s[from + 1..];
    rest[..to] + [s[from]] + rest[to..]
  }

  /** Positions `i` and `j` exchanged, every other position unchanged. */
  function Swapped(s: seq<Todo>, i: nat, j: nat): seq<Todo>
    requires i < |s| && j < |s|
  {
    s[i := s[j]][j := s[i]]
  }

  /** Removing an item and re-inserting it next door is an adjacent swap. */
  lemma {:induction false} MovedToNeighbourIsSwap(s: seq<Todo>, from: nat, to: nat)
    requires from < |s| && to < |s|
    requires to == from + 1 || from == to + 1
    ensures Moved(s, from, to) == Swapped(s, from, to)
  {
    var rest := s[..from] + s[from + 1..];
    var m := Moved(s, from, to);
    assert |m| == |s|;
    forall k | 0 <= k < |s| ensures m[k] == Swapped(s, from, to)[k] {
      if k < to {
        assert m[k] == rest[k];
      } else if k > to {
        assert m[k] == rest[k - 1];
      }
    }
  }

  /** Any remove-then-insert keeps the same items. */
  lemma {:induction false} MovedIsPermutation(s: seq<Todo>, from: nat, to: nat)
    requires from < |s| && to < |s|
    ensures |Moved(s, from, to)| == |s|
    ensures multiset(Moved(s, from, to)) == multiset(s)
  {
    var rest := s[..from] + s[from + 1..];
    assert s == s[..from] + [s[from]] + s[from + 1..];
    assert rest == rest[..to] + rest[to..];
    calc {
      multiset(Moved(s, from, to));
      multiset(rest[..to]) + multiset{s[from]} + multiset(rest[to..]);
      multiset(rest) + multiset{s[from]};
      multiset(s);
    }
  }

  /** An exchange of two positions keeps the same items. */
  lemma SwappedIsPermutation(s: seq<Todo>, i: nat, j: nat)
    requires i < |s| && j < |s|
    ensures |Swapped(s, i, j)| == |s|
    ensures Swapped(s, i, j)[i] == s[j] && Swapped(s, i, j)[j] == s[i]
    ensures forall k :: 0 <= k < |s| && k != i && k != j ==> Swapped(s, i, j)[k] == s[k]
    ensures multiset(Swapped(s, i, j)) == multiset(s)
  {
  }

  // ---------------------------------------------------------------------------
  // Removal: `todos.filter(todo => todo.id !== id)`
  // ---------------------------------------------------------------------------

  /** How many items carry `id`. */
  function Count(s: seq<Todo>, id: string): nat {
    if s == [] then 0 else (if s[0].id == id then 1 else 0) + Count(s[1..], id)
  }

  /** The items whose id differs from `id`, in their original order. */
  function Without(s: seq<Todo>, id: string): (r: seq<Todo>)
    ensures forall t :: t in r <==> t in s && t.id != id
  {
    if s == [] then []
    else if s[0].id == id then Without(s[1..], id)
    else [s[0]] + Without(s[1..], id)
  }

  /** Exactly the matching items are dropped. */
  lemma {:induction false} WithoutLength(s: seq<Todo>, id: string)
    ensures |Without(s, id)| == |s| - Count(s, id)
  {
    if s != [] {
      WithoutLength(s[1..], id);
    }
  }

  /** Filtering a concatenation filters each part. */
  lemma {:induction false} WithoutAppend(a: seq<Todo>, b: seq<Todo>, id: string)
    ensures Without(a + b, id) == Without(a, id) + Without(b, id)
  {
    if a == [] {
      assert a + b == b;
    } else {
      assert (a + b)[1..] == a[1..] + b;
      WithoutAppend(a[1..], b, id);
    }
  }

  /** A kept item `s[i]` lands at position `|Without(s[..i], id)|`: the number
      of kept items before it. */
  lemma {:induction false} WithoutPlaces(s: seq<Todo>, id: string, i: nat)
    requires i < |s| && s[i].id != id
    ensures |Without(s[..i], id)| < |Without(s, id)|
    ensures Without(s, id)[|Without(s[..i], id)|] == s[i]
  {
    assert s == s[..i] + ([s[i]] + s[i + 1..]);
    WithoutAppend(s[..i], [s[i]] + s[i + 1..], id);
    assert ([s[i]] + s[i + 1..])[1..] == s[i + 1..];
  }

  /** Later kept items land strictly later: the relative order is preserved. */
  lemma {:induction false} WithoutKeepsOrder(s: seq<Todo>, id: string, i: nat, j: nat)
    requires i < j < |s| && s[i].id != id && s[j].id != id
    ensures |Without(s[..i], id)| < |Without(s[..j], id)| < |Without(s, id)|
    ensures Without(s, id)[|Without(s[..i], id)|] == s[i]
    ensures Without(s, id)[|Without(s[..j], id)|] == s[j]
  {
    WithoutPlaces(s, id, i);
    WithoutPlaces(s, id, j);
    assert s[..j] == s[..i] + ([s[i]] + s[i + 1..j]);
    WithoutAppend(s[..i], [s[i]] + s[i + 1..j], id);
    assert ([s[i]] + s[i + 1..j])[1..] == s[i + 1..j];
  }
}
