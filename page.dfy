/**
 * The `Home` page component: the colour of each row, and the list state with
 * the write intents of createTodo, moveTodo and deleteTodo.
 */
module Page {
  import opened Wrappers
  import opened Todos
  import opened Sorting
  import opened JsString

  // ---------------------------------------------------------------------------
  // Row colour: `colors[index % colors.length]`
  // ---------------------------------------------------------------------------

  const Colors: seq<string> := [
    "bg-red-100", "bg-yellow-100", "bg-green-100", "bg-blue-100",
    "bg-indigo-100", "bg-purple-100", "bg-pink-100", "bg-orange-100"
  ]

  /** ECMAScript `%` on integers: the remainder takes the sign of the dividend. */
  function JsRemainder(a: int, b: int): (r: int)
    requires b > 0
    ensures a == b * JsQuotient(a, b) + r && -b < r < b
    ensures a >= 0 ==> r >= 0
    ensures a <= 0 ==> r <= 0
  {
    if a >= 0 then a % b else -((-a) % b)
  }

  /** ECMAScript integer division truncates toward zero. */
  function JsQuotient(a: int, b: int): int
    requires b > 0
  {
    if a >= 0 then a / b else -((-a) / b)
  }

  /** The colour class of row `index`; `None` stands for the `undefined` that a
      negative subscript reads. Every non-negative row gets a listed colour. */
  function BackgroundColor(index: int): (r: Option<string>)
    ensures r.Some? <==> index >= 0 || index % 8 == 0
    ensures index >= 0 ==> r.Some? && r.value in Colors && r.value == Colors[index % 8]
    ensures index % 8 == 0 ==> r == Some(Colors[0])
  {
    var k := JsRemainder(index, |Colors|);
    if k >= 0 then Some(Colors[k]) else None
  }

  /** The palette repeats every 8 rows. */
  lemma BackgroundColorPeriodic(index: int)
    requires index >= 0
    ensures BackgroundColor(index + 8) == BackgroundColor(index)
  {
  }

  /** Neighbouring rows never share a colour. */
  lemma {:induction false} NeighbourRowsDiffer(index: int)
    requires index >= 0
    ensures BackgroundColor(index) != BackgroundColor(index + 1)
  {
    var k := index % 8;
    assert (index + 1) % 8 == if k == 7 then 0 else k + 1;
  }

  // ---------------------------------------------------------------------------
  // The list state
  // ---------------------------------------------------------------------------

  datatype Direction = Up | Down

  /** The index moveTodo exchanges the item with. */
  function Neighbour(index: int, direction: Direction): (r: int)
    ensures r == index - 1 || r == index + 1
    ensures r < index <==> direction == Up
  {
    match direction
    case Up => index - 1
    case Down => index + 1
  }

  /** `updatedTodos.splice(from, 1)` on a buffer of fixed size: the tail
      shifts left over the removed cell, and the last cell is no longer in use. */
  method RemoveAt(a: array<Todo>, from: nat)
    requires from < a.Length
    modifies a
    ensures forall p :: 0 <= p < from ==> a[p] == old(a[p])
    ensures forall p :: from <= p < a.Length - 1 ==> a[p] == old(a[p + 1])
  {
    var k := from;
    while k < a.Length - 1
      invariant from <= k <= a.Length - 1
      invariant forall p :: 0 <= p < from ==> a[p] == old(a[p])
      invariant forall p :: from <= p < k ==> a[p] == old(a[p + 1])
      invariant forall p :: k <= p < a.Length ==> a[p] == old(a[p])
    {
      a[k] := a[k + 1];
      k := k + 1;
    }
  }

  /** `updatedTodos.splice(to, 0, item)` on a buffer whose first `a.Length - 1`
      cells are in use: the cells from `to` shift right and `item` goes to `to`. */
  method InsertAt(a: array<Todo>, to: nat, item: Todo)
    requires to < a.Length
    modifies a
    ensures forall p :: 0 <= p < to ==> a[p] == old(a[p])
    ensures a[to] == item
    ensures forall p :: to < p < a.Length ==> a[p] == old(a[p - 1])
  {
    var k := a.Length - 1;
    while k > to
      invariant to <= k <= a.Length - 1
      invariant forall p :: 0 <= p <= k ==> a[p] == old(a[p])
      invariant forall p :: k < p < a.Length ==> a[p] == old(a[p - 1])
    {
      a[k] := a[k - 1];
      k := k - 1;
    }
    a[to] := item;
  }

  /** The two `splice` calls of moveTodo on the copied array: remove the item at
      `from`, then insert it at `to`. */
  method Reposition(a: array<Todo>, from: nat, to: nat)
    requires from < a.Length && to < a.Length
    modifies a
    ensures a[..] == Moved(old(a[..]), from, to)
  {
    ghost var s := a[..];
    ghost var rest := s[..from] + s[from + 1..];
    var moved := a[from];
    RemoveAt(a, from);
    assert forall p :: 0 <= p < a.Length - 1 ==> a[p] == rest[p];
    InsertAt(a, to, moved);
    assert a[..] == rest[..to] + [moved] + rest[to..];
  }

  /** The page's `todos` state and the store calls its handlers issue. */
  class TodoList {
    var todos: seq<Todo>

    /** The rendered sequence is sorted by key. */
    ghost predicate Valid()
      reads this
    {
      SortedByKey(todos)
    }

    /** `useState([])`: nothing is shown before the first snapshot. */
    constructor ()
      ensures Valid() && todos == []
    {
      todos := [];
    }

    /** The `next` handler of the live query: the snapshot, sorted by key,
        replaces the state; nothing of the previous state survives. */
    method Ingest(items: seq<Todo>)
      modifies this
      ensures Valid()
      ensures multiset(todos) == multiset(items)
    {
      var sorted := SortByOrder(items);
      todos := sorted;
    }

    /** createTodo: blank input issues nothing; otherwise one create with the
        trimmed text, keyed one rank past the current last item. */
    method CreateTodo(input: string) returns (calls: seq<StoreCall>)
      ensures calls == [] <==> IsBlank(input)
      ensures calls != [] ==> calls == [Create(Trim(input), (|todos| + 1) * 1000)]
    {
      var content := Trim(input);
      if content != [] {
        calls := [Create(content, RankOrder(|todos|))];
      } else {
        calls := [];
      }
    }

    /** moveTodo: no calls when `id` is absent or its neighbour is off either
        end; otherwise the item trades places with its neighbour and every item
        of the new sequence is renumbered by position. */
    method MoveTodo(id: string, direction: Direction) returns (calls: seq<StoreCall>)
      ensures var c := IndexOf(todos, id); var n := Neighbour(c, direction);
        if c == -1 || n < 0 || n >= |todos| then calls == []
        else calls == Renumber(Swapped(todos, c, n))
    {
      var c := IndexOf(todos, id);
      if c == -1 {
        return [];
      }
      var n := Neighbour(c, direction);
      if n < 0 || n >= |todos| {
        return [];
      }
      var s := todos;
      var updated := new Todo[|s|](k requires 0 <= k < |s| => s[k]);
      assert updated[..] == s;
      Reposition(updated, c, n);
      MovedToNeighbourIsSwap(s, c, n);
      calls := Renumber(updated[..]);
    }

    /** deleteTodo: a delete of `id` (whether or not it is present), then one
        update per remaining item, renumbered by position. */
    method DeleteTodo(id: string) returns (calls: seq<StoreCall>)
      ensures calls != [] && calls[0] == Delete(id)
      ensures |calls| == 1 + |todos| - Count(todos, id)
      ensures calls[1..] == Renumber(Without(todos, id))
    {
      var remaining := Without(todos, id);
      WithoutLength(todos, id);
      calls := [Delete(id)] + Renumber(remaining);
    }
  }

  // ---------------------------------------------------------------------------
  // The loop through the store: issued calls come back in the next snapshot
  // ---------------------------------------------------------------------------

  /** Ingesting the same snapshot twice renders the same keys in the same
      order, and the very same sequence when keys are unique. */
  lemma IngestDeterminedBySnapshot(items: seq<Todo>, first: seq<Todo>, second: seq<Todo>)
    requires SortedByKey(first) && multiset(first) == multiset(items)
    requires SortedByKey(second) && multiset(second) == multiset(items)
    ensures Keys(first) == Keys(second)
    ensures UniqueKeys(items) ==> first == second
  {
    SortedPermutationsShareKeys(first, second);
    if UniqueKeys(items) {
      forall x | x in first ensures x in items {
        assert x in multiset(items);
      }
      SortedPermutationUnique(first, second);
    }
  }

  /** Once every update of a renumbering has landed, any snapshot of the store
      renders as the renumbered sequence, whatever order the store lists it in. */
  lemma RenumberedSnapshotRendersIntended(s: seq<Todo>, snapshot: seq<Todo>, rendered: seq<Todo>)
    requires multiset(snapshot) == multiset(Renumbered(s))
    requires SortedByKey(rendered) && multiset(rendered) == multiset(snapshot)
    ensures rendered == Renumbered(s)
  {
    RenumberedIsOrdered(s);
    SortedPermutationUnique(Renumbered(s), rendered);
  }

  /** A created item keyed above every current key shows up last once the store
      echoes it back, whatever the current keys; when they are sorted and unique
      the rest of the page is unchanged too. */
  lemma CreatedItemRendersLast(todos: seq<Todo>, created: Todo, snapshot: seq<Todo>, rendered: seq<Todo>)
    requires forall t :: t in todos ==> SortKey(t) < SortKey(created)
    requires multiset(snapshot) == multiset(todos + [created])
    requires SortedByKey(rendered) && multiset(rendered) == multiset(snapshot)
    ensures |rendered| == |todos| + 1 && rendered[|todos|] == created
    ensures SortedByKey(todos) && UniqueKeys(todos) ==> rendered == todos + [created]
  {
    var grown := todos + [created];
    assert |rendered| == |multiset(rendered)| == |multiset(grown)| == |grown|;
    assert created in multiset(rendered);
    var j :| 0 <= j < |rendered| && rendered[j] == created;
    var last := rendered[|todos|];
    assert last in multiset(grown);
    if j < |todos| {
      assert Keys(rendered)[j] <= Keys(rendered)[|todos|];
    }
    assert last in todos || last == created;
    if SortedByKey(todos) && UniqueKeys(todos) {
      forall i, k | 0 <= i < k < |grown| ensures Keys(grown)[i] <= Keys(grown)[k] {
        if k == |todos| {
          assert grown[i] in todos;
        } else {
          assert Keys(todos)[i] <= Keys(todos)[k];
        }
      }
      forall x, y | x in grown && y in grown && SortKey(x) == SortKey(y) ensures x == y {
        assert x in todos || x == created;
        assert y in todos || y == created;
      }
      SortedPermutationUnique(grown, rendered);
    }
  }

  // ---------------------------------------------------------------------------
  // Worked scenarios: three items keyed 1000, 2000 and 3000
  // ---------------------------------------------------------------------------

  /** A page showing A, B and C keyed 1000, 2000 and 3000, from a snapshot the
      store lists out of order. */
  method ThreeItemPage() returns (page: TodoList, a: Todo, b: Todo, c: Todo)
    ensures fresh(page)
    ensures a == Todo("A", Some("first"), Some(1000)) && b == Todo("B", Some("second"), Some(2000))
    ensures c == Todo("C", Some("third"), Some(3000))
    ensures page.todos == [a, b, c]
  {
    a, b, c := Todo("A", Some("first"), Some(1000)), Todo("B", Some("second"), Some(2000)), Todo("C", Some("third"), Some(3000));
    page := new TodoList();
    page.Ingest([c, a, b]);
    assert multiset([a, b, c]) == multiset([c, a, b]);
    assert SortKey(a) == 1000 && SortKey(b) == 2000 && SortKey(c) == 3000;
    assert SortedByKey([a, b, c]) && UniqueKeys([a, b, c]);
    SortedPermutationUnique([a, b, c], page.todos);
  }

  /** Moving B up swaps the keys of A and B; moving A up or C down issues nothing. */
  method MoveUpScenario() returns (calls: seq<StoreCall>, top: seq<StoreCall>, bottom: seq<StoreCall>)
    ensures calls == [Update("B", 1000), Update("A", 2000), Update("C", 3000)]
    ensures top == [] && bottom == []
  {
    var page, a, b, c := ThreeItemPage();
    assert IndexOf(page.todos, "B") == 1;
    assert Swapped(page.todos, 1, 0) == [b, a, c];
    calls := page.MoveTodo("B", Up);
    top := page.MoveTodo("A", Up);
    bottom := page.MoveTodo("C", Down);
  }

  /** Once the updates of moving B up have landed, the page renders B, A, C. */
  method MoveUpEchoScenario() returns (rendered: seq<Todo>)
    ensures |rendered| == 3 && rendered[0].id == "B" && rendered[1].id == "A" && rendered[2].id == "C"
  {
    var page, a, b, c := ThreeItemPage();
    var b1, a2, c3 := b.(order := Some(1000)), a.(order := Some(2000)), c.(order := Some(3000));
    assert Renumbered([b, a, c]) == [b1, a2, c3];
    page.Ingest([c3, b1, a2]);
    assert multiset([c3, b1, a2]) == multiset([b1, a2, c3]);
    RenumberedSnapshotRendersIntended([b, a, c], [c3, b1, a2], page.todos);
    rendered := page.todos;
  }

  /** Deleting B issues the delete and keys A and C 1000 and 2000; once those
      land, the page renders A, C. */
  method DeleteScenario() returns (calls: seq<StoreCall>, rendered: seq<Todo>)
    ensures calls == [Delete("B"), Update("A", 1000), Update("C", 2000)]
    ensures |rendered| == 2 && rendered[0].id == "A" && rendered[1].id == "C"
  {
    var page, a, b, c := ThreeItemPage();
    calls := page.DeleteTodo("B");
    assert Without([a, b, c], "B") == [a, c];
    var a1, c2 := a.(order := Some(1000)), c.(order := Some(2000));
    assert Renumbered([a, c]) == [a1, c2];
    page.Ingest([c2, a1]);
    assert multiset([c2, a1]) == multiset([a1, c2]);
    RenumberedSnapshotRendersIntended([a, c], [c2, a1], page.todos);
    rendered := page.todos;
  }
}
