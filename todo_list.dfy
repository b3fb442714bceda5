/**
  The task items the client holds and the list expressions its handlers use
  to merge a server reply into the local list: append (`[...todos, item]`),
  replace-by-id (`todos.map(t => t._id === id ? reply : t)`), remove-by-id
  (`todos.filter(t => t._id !== id)`) and the first-match lookup
  (`todos.find(t => t._id === id)`).
 */
module TodoList {

  datatype Option<+T> = None | Some(value: T)

  /** The store-assigned identifier of an item, compared with `===`. */
  type Id = string

  /** One task item as the server returns it: `{_id, text, completed}`. */
  datatype Item = Item(id: Id, text: string, completed: bool)

  /** No two items of the list share an id (the store's promise, not the client's). */
  predicate UniqueIds(todos: seq<Item>) {
    forall i, j :: 0 <= i < j < |todos| ==> todos[i].id != todos[j].id
  }

  /** Some item of the list carries `id`. */
  predicate HasId(todos: seq<Item>, id: Id) {
    exists k :: 0 <= k < |todos| && todos[k].id == id
  }

  /** How many items of the list carry `id`. */
  function CountId(todos: seq<Item>, id: Id): (n: nat)
    ensures n <= |todos|
    ensures n == 0 <==> !HasId(todos, id)
  {
    if todos == [] then 0
    else
      var rest := CountId(todos[1..], id);
      assert HasId(todos[1..], id) ==> HasId(todos, id) by {
        if HasId(todos[1..], id) {
          var k :| 0 <= k < |todos[1..]| && todos[1..][k].id == id;
          assert todos[k + 1].id == id;
        }
      }
      (if todos[0].id == id then 1 else 0) + rest
  }

  // ---------------------------------------------------------------------
  // Replace by id: `todos.map((t) => t._id === id ? reply : t)`
  // ---------------------------------------------------------------------

  /** Every item whose id is `id` replaced by `reply`; every other item kept. */
  function ReplaceById(todos: seq<Item>, id: Id, reply: Item): (r: seq<Item>)
    ensures |r| == |todos|
  {
    if todos == [] then []
    else [if todos[0].id == id then reply else todos[0]] + ReplaceById(todos[1..], id, reply)
  }

  /** Position by position: a matching item becomes `reply`, any other stays as it was. */
  lemma {:induction false} ReplaceByIdAt(todos: seq<Item>, id: Id, reply: Item, k: nat)
    requires k < |todos|
    ensures ReplaceById(todos, id, reply)[k] == if todos[k].id == id then reply else todos[k]
  {
    if k > 0 {
      ReplaceByIdAt(todos[1..], id, reply, k - 1);
    }
  }

  /** The same statement for all positions at once. */
  lemma ReplaceByIdSpec(todos: seq<Item>, id: Id, reply: Item)
    ensures forall k :: 0 <= k < |todos| ==>
      ReplaceById(todos, id, reply)[k] == if todos[k].id == id then reply else todos[k]
  {
    forall k | 0 <= k < |todos|
      ensures ReplaceById(todos, id, reply)[k] == if todos[k].id == id then reply else todos[k]
    {
      ReplaceByIdAt(todos, id, reply, k);
    }
  }

  /** When no item carries `id`, the list is returned unchanged. */
  lemma ReplaceByIdAbsent(todos: seq<Item>, id: Id, reply: Item)
    requires !HasId(todos, id)
    ensures ReplaceById(todos, id, reply) == todos
  {
    ReplaceByIdSpec(todos, id, reply);
  }

  /**
    When the reply carries the requested id, every position keeps its id, so
    a list with unique ids keeps them.
   */
  lemma ReplaceByIdKeepsIds(todos: seq<Item>, id: Id, reply: Item)
    requires reply.id == id
    ensures forall k :: 0 <= k < |todos| ==> ReplaceById(todos, id, reply)[k].id == todos[k].id
    ensures UniqueIds(todos) ==> UniqueIds(ReplaceById(todos, id, reply))
  {
    ReplaceByIdSpec(todos, id, reply);
  }

  /** Applying the same reply twice is the same as applying it once, when the reply keeps the id. */
  lemma ReplaceByIdIdempotent(todos: seq<Item>, id: Id, reply: Item)
    requires reply.id == id
    ensures ReplaceById(ReplaceById(todos, id, reply), id, reply) == ReplaceById(todos, id, reply)
  {
    var r := ReplaceById(todos, id, reply);
    ReplaceByIdSpec(todos, id, reply);
    ReplaceByIdSpec(r, id, reply);
  }

  // ---------------------------------------------------------------------
  // Remove by id: `todos.filter((t) => t._id !== id)`
  // ---------------------------------------------------------------------

  /** The items whose id is not `id`, in their original order. */
  function RemoveById(todos: seq<Item>, id: Id): (r: seq<Item>)
    ensures |r| <= |todos|
    ensures forall k :: 0 <= k < |r| ==> r[k].id != id
  {
    if todos == [] then []
    else (if todos[0].id == id then [] else [todos[0]]) + RemoveById(todos[1..], id)
  }

  /** An item survives removal exactly when it was in the list and does not carry `id`. */
  lemma {:induction false} RemoveByIdMembers(todos: seq<Item>, id: Id, x: Item)
    ensures x in RemoveById(todos, id) <==> x in todos && x.id != id
  {
    if todos != [] {
      RemoveByIdMembers(todos[1..], id, x);
      assert todos == [todos[0]] + todos[1..];
    }
  }

  /** Removal distributes over concatenation: it never reorders what it keeps. */
  lemma {:induction false} RemoveByIdConcat(a: seq<Item>, b: seq<Item>, id: Id)
    ensures RemoveById(a + b, id) == RemoveById(a, id) + RemoveById(b, id)
  {
    if a != [] {
      var head := if a[0].id == id then [] else [a[0]];
      assert (a + b)[0] == a[0];
      assert (a + b)[1..] == a[1..] + b;
      assert RemoveById(a + b, id) == head + RemoveById(a[1..] + b, id);
      RemoveByIdConcat(a[1..], b, id);
      assert RemoveById(a, id) == head + RemoveById(a[1..], id);
    } else {
      assert a + b == b;
    }
  }

  /** `sub` is `s` with some elements left out and the rest in the same order. */
  ghost predicate IsSubsequence(sub: seq<Item>, s: seq<Item>)
    decreases |s|
  {
    if sub == [] then true
    else if s == [] then false
    else (sub[0] == s[0] && IsSubsequence(sub[1..], s[1..])) || IsSubsequence(sub, s[1..])
  }

  /** What removal keeps is a subsequence of the original list. */
  lemma {:induction false} RemoveByIdIsSubsequence(todos: seq<Item>, id: Id)
    ensures IsSubsequence(RemoveById(todos, id), todos)
  {
    if todos != [] {
      RemoveByIdIsSubsequence(todos[1..], id);
      var rest := RemoveById(todos[1..], id);
      if todos[0].id != id {
        var r := [todos[0]] + rest;
        assert RemoveById(todos, id) == r;
        assert r[0] == todos[0] && r[1..] == rest;
      } else {
        assert RemoveById(todos, id) == rest;
      }
    }
  }

  /** Every copy of a kept item survives; no copy of a removed item does. */
  lemma {:induction false} RemoveByIdMultiplicity(todos: seq<Item>, id: Id, x: Item)
    ensures multiset(RemoveById(todos, id))[x] == if x.id == id then 0 else multiset(todos)[x]
  {
    if todos != [] {
      RemoveByIdMultiplicity(todos[1..], id, x);
      var head := if todos[0].id == id then [] else [todos[0]];
      assert RemoveById(todos, id) == head + RemoveById(todos[1..], id);
      assert multiset(RemoveById(todos, id)) == multiset(head) + multiset(RemoveById(todos[1..], id));
      assert todos == [todos[0]] + todos[1..];
      assert multiset(todos) == multiset([todos[0]]) + multiset(todos[1..]);
    }
  }

  /** Exactly the items carrying `id` are dropped, so the length shrinks by their number. */
  lemma {:induction false} RemoveByIdLength(todos: seq<Item>, id: Id)
    ensures |RemoveById(todos, id)| == |todos| - CountId(todos, id)
  {
    if todos != [] {
      RemoveByIdLength(todos[1..], id);
    }
  }

  /** When no item carries `id`, removal returns the list unchanged. */
  lemma {:induction false} RemoveByIdAbsent(todos: seq<Item>, id: Id)
    requires !HasId(todos, id)
    ensures RemoveById(todos, id) == todos
  {
    if todos != [] {
      RemoveByIdAbsent(todos[1..], id);
      assert todos == [todos[0]] + todos[1..];
    }
  }

  /** Removal keeps ids unique. */
  lemma {:induction false} RemoveByIdKeepsUnique(todos: seq<Item>, id: Id)
    requires UniqueIds(todos)
    ensures UniqueIds(RemoveById(todos, id))
  {
    if todos != [] {
      RemoveByIdKeepsUnique(todos[1..], id);
      var rest := RemoveById(todos[1..], id);
      if todos[0].id != id {
        forall k | 0 <= k < |rest| ensures rest[k].id != todos[0].id {
          assert rest[k] in rest;
          RemoveByIdMembers(todos[1..], id, rest[k]);
          var j :| 0 <= j < |todos[1..]| && todos[1..][j] == rest[k];
          assert todos[j + 1] == rest[k];
        }
      }
    }
  }

  // ---------------------------------------------------------------------
  // Append: `[...todos, item]`
  // ---------------------------------------------------------------------

  /** Appending an item whose id is new keeps ids unique. */
  lemma AppendKeepsUnique(todos: seq<Item>, item: Item)
    requires UniqueIds(todos) && !HasId(todos, item.id)
    ensures UniqueIds(todos + [item])
  {
    var r := todos + [item];
    forall i, j | 0 <= i < j < |r| ensures r[i].id != r[j].id {
      if j == |todos| {
        assert r[i] == todos[i];
      } else {
        assert r[i] == todos[i] && r[j] == todos[j];
      }
    }
  }

  // ---------------------------------------------------------------------
  // First match: `todos.find((t) => t._id === id)`
  // ---------------------------------------------------------------------

  /** The position of the first item carrying `id`, or None when there is none. */
  function FindIndex(todos: seq<Item>, id: Id): (r: Option<nat>)
    ensures r.None? <==> !HasId(todos, id)
    ensures r.Some? ==> (r.value < |todos| && todos[r.value].id == id
      && forall k :: 0 <= k < r.value ==> todos[k].id != id)
  {
    if todos == [] then None
    else if todos[0].id == id then Some(0)
    else
      match FindIndex(todos[1..], id)
      case None =>
        None
      case Some(k) =>
        assert todos[k + 1] == todos[1..][k];
        Some(k + 1)
  }

  /** Array.prototype.find: the first item carrying `id`, or None (JavaScript's undefined). */
  function Find(todos: seq<Item>, id: Id): (r: Option<Item>)
    ensures r.None? <==> !HasId(todos, id)
    ensures r.Some? ==> exists k :: (0 <= k < |todos| && r.value == todos[k]
      && forall j :: 0 <= j < k ==> todos[j].id != id)
    ensures r.Some? ==> r.value.id == id
  {
    match FindIndex(todos, id)
    case None => None
    case Some(k) => Some(todos[k])
  }

  /** With unique ids, the item found is the only one carrying `id`. */
  lemma FindUnique(todos: seq<Item>, id: Id, k: nat)
    requires UniqueIds(todos) && k < |todos| && todos[k].id == id
    ensures Find(todos, id) == Some(todos[k])
  {
    var i := FindIndex(todos, id).value;
    if i != k {
      assert false;
    }
  }

  // ---------------------------------------------------------------------
  // Edit mode: `editingTodo === todo._id`
  // ---------------------------------------------------------------------

  /** The row of `t` shows the edit form when the edited id is `t`'s id. */
  predicate InEditMode(editingTodo: Option<Id>, t: Item): (b: bool)
    ensures editingTodo.None? ==> !b
    ensures editingTodo.Some? ==> (b <==> t.id == editingTodo.value)
  {
    editingTodo == Some(t.id)
  }

  /** All rows in edit mode share one id; with unique ids at most one row is in edit mode. */
  lemma AtMostOneInEditMode(todos: seq<Item>, editingTodo: Option<Id>, i: nat, j: nat)
    requires i < |todos| && j < |todos|
    requires InEditMode(editingTodo, todos[i]) && InEditMode(editingTodo, todos[j])
    ensures todos[i].id == todos[j].id
    ensures UniqueIds(todos) ==> i == j
  {
  }

  /**
    After editing an item of a list with unique ids, the rows in edit mode are
    exactly the rows equal to that item.
   */
  lemma EditModeSelectsItem(todos: seq<Item>, t: Item)
    requires UniqueIds(todos) && t in todos
    ensures forall k :: 0 <= k < |todos| ==> (InEditMode(Some(t.id), todos[k]) <==> todos[k] == t)
  {
    var j :| 0 <= j < |todos| && todos[j] == t;
    forall k | 0 <= k < |todos| && InEditMode(Some(t.id), todos[k]) ensures todos[k] == t {
      if k != j {
        assert false;
      }
    }
  }
}
