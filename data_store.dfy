/**
  The server's shared todo store (apps/server/src/lib/data.ts): a
  module-level array that `addTodo`, `updateTodo` and `deleteTodo` change in
  place. The store is a class whose one field is that array; each method
  states the new array as a function of the old one, and the lemmas below
  say what those functions promise.
*/
module ServerData {
  import opened TodoTypes

  /** `Partial<Todo>`: each field is either absent or given. */
  datatype TodoPatch = TodoPatch(
    id: Option<int>,
    text: Option<string>,
    completed: Option<bool>,
    references: Option<seq<int>>,
    createdAt: Option<string>,
    updatedAt: Option<string>)

  /** A spread field: the given value if there is one, else the old one. */
  function Override<T>(old_: T, given: Option<T>): T {
    match given
    case Some(v) => v
    case None => old_
  }

  /** `{ ...t, ...updates, updatedAt: now }`. Every given field is stored
      verbatim: no gating on `completed`, no check on `references`. Every
      absent field keeps its old value, and a given `updatedAt` loses to
      the clock. */
  function Merge(t: Todo, updates: TodoPatch, now: string): (r: Todo)
    ensures updates.id.Some? ==> r.id == updates.id.value
    ensures updates.text.Some? ==> r.text == updates.text.value
    ensures updates.completed.Some? ==> r.completed == updates.completed.value
    ensures updates.references.Some? ==> r.references == updates.references.value
    ensures updates.createdAt.Some? ==> r.createdAt == updates.createdAt.value
    ensures updates.id.None? ==> r.id == t.id
    ensures updates.text.None? ==> r.text == t.text
    ensures updates.completed.None? ==> r.completed == t.completed
    ensures updates.references.None? ==> r.references == t.references
    ensures updates.createdAt.None? ==> r.createdAt == t.createdAt
    ensures r.updatedAt == now
  {
    Todo(
      Override(t.id, updates.id),
      Override(t.text, updates.text),
      Override(t.completed, updates.completed),
      Override(t.references, updates.references),
      Override(t.createdAt, updates.createdAt),
      now)
  }

  /** The array after `updateTodo(id, updates)`: unchanged if no todo has
      `id`; otherwise the first todo with `id`, and only that one, is
      replaced by its merge with `updates`. */
  function StoreUpdate(todos: seq<Todo>, id: int, updates: TodoPatch, now: string): (r: seq<Todo>)
    ensures |r| == |todos|
    ensures id !in Ids(todos) ==> r == todos
    ensures forall k :: 0 <= k < |todos| && r[k] != todos[k] ==>
      && todos[k].id == id
      && (forall j :: 0 <= j < k ==> todos[j].id != id)
      && r[k] == Merge(todos[k], updates, now)
    ensures forall k :: FirstAt(todos, id, k) ==> r[k] == Merge(todos[k], updates, now)
  {
    match FirstIndex(todos, id)
    case None => todos
    case Some(k) => todos[k := Merge(todos[k], updates, now)]
  }

  /** The patch that sets only `references`. */
  function SetReferences(refs: seq<int>): TodoPatch {
    TodoPatch(None, None, None, Some(refs), None, None)
  }

  /** Because `updateTodo` stores references as given, it can break the
      reference rules of any store: pointing the todo it updates at itself
      leaves a self-reference. */
  lemma UpdateCanSelfReference(todos: seq<Todo>, id: int, k: int, now: string)
    requires FirstAt(todos, id, k)
    ensures !ReferentialIntegrity(StoreUpdate(todos, id, SetReferences([id]), now))
  {
    var r := StoreUpdate(todos, id, SetReferences([id]), now);
    assert r[k].id == id && id in r[k].references;
    assert r[k] in r;
  }

  /** Pointing the todo it updates at an id no todo has leaves a dangling
      reference. */
  lemma UpdateCanDangle(todos: seq<Todo>, id: int, k: int, missing: int, now: string)
    requires FirstAt(todos, id, k) && missing !in Ids(todos)
    ensures !ReferentialIntegrity(StoreUpdate(todos, id, SetReferences([missing]), now))
  {
    var r := StoreUpdate(todos, id, SetReferences([missing]), now);
    SameIds(r, todos);
    assert missing in r[k].references;
    assert r[k] in r;
  }

  /** The cleanup loop's result: every todo with `id` filtered out of its
      references, nothing else changed (`updatedAt` included). */
  function Cleaned(todos: seq<Todo>, id: int): (r: seq<Todo>)
    ensures |r| == |todos|
    ensures forall i :: 0 <= i < |todos| ==>
      && r[i].references == Without(todos[i].references, id)
      && r[i] == todos[i].(references := r[i].references)
    ensures forall t :: t in r ==> id !in t.references
  {
    var r := seq(|todos|, i requires 0 <= i < |todos| =>
      todos[i].(references := Without(todos[i].references, id)));
    assert forall t :: t in r ==> exists i :: 0 <= i < |todos| && r[i] == t;
    r
  }

  /** Where position `i` of an array comes from once the position `gone`
      (if any) has been spliced out of it. */
  function Source(i: nat, gone: Option<nat>): nat {
    if gone.Some? && gone.value <= i then i + 1 else i
  }

  /** `splice(k, 1)`: position `k` removed, the rest shifted down. */
  function RemoveAt(s: seq<Todo>, k: nat): (r: seq<Todo>)
    requires k < |s|
    ensures |r| == |s| - 1
    ensures forall i :: 0 <= i < |r| ==> r[i] == s[Source(i, Some(k))]
    ensures forall t :: t in r ==> t in s
  {
    s[..k] + s[k + 1..]
  }

  /** The array after `deleteTodo(id)`: the cleaned array with its first
      todo with `id` spliced out, if there is one. No todo refers to `id`
      any more, and one todo is gone exactly when one had `id`. */
  function StoreDelete(todos: seq<Todo>, id: int): (r: seq<Todo>)
    ensures forall t :: t in r ==> id !in t.references
    ensures |r| == |todos| - (if id in Ids(todos) then 1 else 0)
  {
    var cleaned := Cleaned(todos, id);
    CleanedKeepsIds(todos, id);
    match FirstIndex(cleaned, id)
    case None => cleaned
    case Some(k) => RemoveAt(cleaned, k)
  }

  /** The cleanup keeps every id in its place. */
  lemma CleanedKeepsIds(todos: seq<Todo>, id: int)
    ensures IdList(Cleaned(todos, id)) == IdList(todos)
    ensures Ids(Cleaned(todos, id)) == Ids(todos)
    ensures FirstIndex(Cleaned(todos, id), id) == FirstIndex(todos, id)
  {
    SameIds(Cleaned(todos, id), todos);
  }

  /** One todo is gone exactly when one had `id`, namely the first such;
      the survivors keep their order, and each keeps every field but
      `references`, which only lost `id`. */
  lemma StoreDeleteShape(todos: seq<Todo>, id: int)
    ensures id !in Ids(todos) ==> StoreDelete(todos, id) == Cleaned(todos, id)
    ensures id in Ids(todos) ==>
      && FirstIndex(todos, id).Some?
      && StoreDelete(todos, id) == RemoveAt(Cleaned(todos, id), FirstIndex(todos, id).value)
  {
    CleanedKeepsIds(todos, id);
  }

  /** With unique ids nothing with `id` is left, ids stay unique, and a
      second delete of the same id changes nothing. */
  lemma StoreDeleteIdempotent(todos: seq<Todo>, id: int)
    requires UniqueIds(todos)
    ensures id !in Ids(StoreDelete(todos, id))
    ensures UniqueIds(StoreDelete(todos, id))
    ensures StoreDelete(StoreDelete(todos, id), id) == StoreDelete(todos, id)
  {
    StoreDeleteUnique(todos, id);
    StoreDeleteShape(todos, id);
    var r := StoreDelete(todos, id);
    assert id !in Ids(r) by {
      forall x | x in Ids(r) ensures x != id {
        var i := IndexOfId(r, x);
      }
    }
    StoreDeleteShape(r, id);
    CleanedUnreferenced(r, id);
  }

  /** Cleaning out an id no todo refers to changes nothing. */
  lemma CleanedUnreferenced(todos: seq<Todo>, id: int)
    requires forall t :: t in todos ==> id !in t.references
    ensures Cleaned(todos, id) == todos
  {
    var cleaned := Cleaned(todos, id);
    forall i | 0 <= i < |todos| ensures cleaned[i] == todos[i] {
      assert todos[i] in todos;
      WithoutAbsent(todos[i].references, id);
    }
  }

  /** `r` is `todos` with every reference to `id` filtered out and the
      position `gone` (if any) spliced out. */
  predicate SplicedFrom(r: seq<Todo>, todos: seq<Todo>, id: int, gone: Option<nat>) {
    && (gone.Some? ==> gone.value < |todos|)
    && |r| == |todos| - (if gone.Some? then 1 else 0)
    && forall i :: 0 <= i < |r| ==>
      && Source(i, gone) < |todos|
      && r[i] == todos[Source(i, gone)].(references := Without(todos[Source(i, gone)].references, id))
  }

  lemma StoreDeleteSource(todos: seq<Todo>, id: int)
    ensures SplicedFrom(StoreDelete(todos, id), todos, id, FirstIndex(todos, id))
  {
    StoreDeleteShape(todos, id);
  }

  lemma StoreDeleteUnique(todos: seq<Todo>, id: int)
    requires UniqueIds(todos)
    ensures forall i :: 0 <= i < |StoreDelete(todos, id)| ==> StoreDelete(todos, id)[i].id != id
    ensures UniqueIds(StoreDelete(todos, id))
  {
    StoreDeleteSource(todos, id);
    SplicedUnique(todos, StoreDelete(todos, id), id, FirstIndex(todos, id));
  }

  /** Splicing out the only todo with `id` (or nothing, when none has it)
      leaves no todo with `id` and keeps ids unique. */
  lemma SplicedUnique(todos: seq<Todo>, r: seq<Todo>, id: int, gone: Option<nat>)
    requires UniqueIds(todos) && SplicedFrom(r, todos, id, gone)
    requires gone.Some? ==> todos[gone.value].id == id
    requires gone.None? ==> id !in Ids(todos)
    ensures forall i :: 0 <= i < |r| ==> r[i].id != id
    ensures UniqueIds(r)
  {
    forall i | 0 <= i < |r| ensures r[i].id != id {
      var src := Source(i, gone);
      assert r[i].id == todos[src].id;
      if gone.Some? { assert src != gone.value; } else { IdAt(todos, src); }
    }
    forall i, j | 0 <= i < j < |r| ensures r[i].id != r[j].id {
      assert r[i].id == todos[Source(i, gone)].id;
      assert r[j].id == todos[Source(j, gone)].id;
    }
  }

  /** A delete keeps the reference rules: the only references dropped are
      those to `id`, and only a todo with `id` is removed. */
  lemma StoreDeleteKeepsIntegrity(todos: seq<Todo>, id: int)
    requires ReferentialIntegrity(todos)
    ensures ReferentialIntegrity(StoreDelete(todos, id))
  {
    var r := StoreDelete(todos, id);
    var gone := FirstIndex(todos, id);
    StoreDeleteSource(todos, id);
    forall t | t in r
      ensures forall x :: x in t.references ==> x != t.id && x in Ids(r)
    {
      var i :| 0 <= i < |r| && r[i] == t;
      SplicedReferencesSound(todos, r, id, gone, i);
    }
  }

  /** A survivor's references, less `id`, still name other todos that
      survive. */
  lemma SplicedReferencesSound(todos: seq<Todo>, r: seq<Todo>, id: int, gone: Option<nat>, i: int)
    requires ReferentialIntegrity(todos) && SplicedFrom(r, todos, id, gone)
    requires gone.Some? ==> todos[gone.value].id == id
    requires 0 <= i < |r|
    ensures forall x :: x in r[i].references ==> x != r[i].id && x in Ids(r)
  {
    var src := Source(i, gone);
    assert todos[src] in todos;
    forall x | x in r[i].references ensures x != r[i].id && x in Ids(r) {
      var j := IndexOfId(todos, x);
      assert gone.Some? ==> j != gone.value;
      var dst := if gone.Some? && gone.value < j then j - 1 else j;
      assert Source(dst, gone) == j;
      IdAt(r, dst);
    }
  }

  class TodoStore {
    /** `todos` */
    var todos: seq<Todo>

    /** The store starts empty. */
    constructor ()
      ensures todos == []
    {
      todos := [];
    }

    /** `addTodo(todo)`: `push`. */
    method AddTodo(todo: Todo)
      modifies this
      ensures todos == old(todos) + [todo]
    {
      todos := todos + [todo];
    }

    /** `todos.findIndex(todo => todo.id === id)`: the first position whose
        todo has `id`, or -1 when there is none. */
    method FindIndex(id: int) returns (index: int)
      ensures -1 <= index < |todos|
      ensures index == -1 <==> id !in Ids(todos)
      ensures index >= 0 ==> todos[index].id == id
      ensures forall k :: 0 <= k < index ==> todos[k].id != id
    {
      index := 0;
      while index < |todos|
        invariant 0 <= index <= |todos|
        invariant forall k :: 0 <= k < index ==> todos[k].id != id
      {
        if todos[index].id == id {
          return;
        }
        index := index + 1;
      }
      index := -1;
    }

    /** `updateTodo(id, updates)` at clock reading `now`. */
    method UpdateTodo(id: int, updates: TodoPatch, now: string)
      modifies this
      ensures todos == StoreUpdate(old(todos), id, updates, now)
    {
      var index := FindIndex(id);
      if index != -1 {
        todos := todos[index := Merge(todos[index], updates, now)];
      }
    }

    /** `deleteTodo(id)`: the cleanup loop, then `splice` of the first todo
        with `id`. */
    method DeleteTodo(id: int)
      modifies this
      ensures todos == StoreDelete(old(todos), id)
    {
      var i := 0;
      while i < |todos|
        invariant 0 <= i <= |todos| == |old(todos)|
        invariant forall k :: 0 <= k < i ==>
          todos[k] == old(todos)[k].(references := Without(old(todos)[k].references, id))
        invariant todos[i..] == old(todos)[i..]
      {
        todos := todos[i := todos[i].(references := Without(todos[i].references, id))];
        i := i + 1;
      }
      assert todos == Cleaned(old(todos), id);
      var index := FindIndex(id);
      if index != -1 {
        todos := RemoveAt(todos, index);
      }
    }
  }
}
