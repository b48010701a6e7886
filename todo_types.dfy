/**
  The todo record shared by the client and the server, the status filter,
  and the reference rules every store is meant to keep.
*/
module TodoTypes {

  datatype Option<T> = None | Some(value: T)

  /** One todo. `createdAt` and `updatedAt` are ISO-8601 clock readings,
      kept opaque. */
  datatype Todo = Todo(
    id: int,
    text: string,
    completed: bool,
    references: seq<int>,
    createdAt: string,
    updatedAt: string)

  datatype TodoFilter = All | Active | Completed

  /** The ids present in a list of todos. */
  function Ids(todos: seq<Todo>): set<int> {
    set t | t in todos :: t.id
  }

  /** The ids in list order. */
  function IdList(todos: seq<Todo>): (r: seq<int>)
    ensures |r| == |todos|
    ensures forall i :: 0 <= i < |todos| ==> r[i] == todos[i].id
  {
    if todos == [] then [] else [todos[0].id] + IdList(todos[1..])
  }

  /** No todo references itself, and every reference names a todo that is
      in the list. */
  predicate ReferentialIntegrity(todos: seq<Todo>) {
    forall t :: t in todos ==>
      forall r :: r in t.references ==> r != t.id && r in Ids(todos)
  }

  predicate UniqueIds(todos: seq<Todo>) {
    forall i, j :: 0 <= i < j < |todos| ==> todos[i].id != todos[j].id
  }

  /** `refs.filter(r => r !== id)`: drops every occurrence of `id`, keeps
      the rest in order, and leaves a list without `id` as it is. */
  function Without(refs: seq<int>, id: int): (r: seq<int>)
    ensures forall x :: x in r <==> x in refs && x != id
    ensures |r| <= |refs|
  {
    if refs == [] then []
    else (if refs[0] == id then [] else [refs[0]]) + Without(refs[1..], id)
  }

  /** Filtering out an id the list does not hold gives the list back. */
  lemma {:induction false} WithoutAbsent(refs: seq<int>, id: int)
    requires id !in refs
    ensures Without(refs, id) == refs
  {
    if refs != [] {
      WithoutAbsent(refs[1..], id);
      assert refs == [refs[0]] + refs[1..];
    }
  }

  /** `filter` keeps the order: filtering a concatenation filters each
      part. */
  lemma {:induction false} WithoutConcat(a: seq<int>, b: seq<int>, id: int)
    ensures Without(a + b, id) == Without(a, id) + Without(b, id)
  {
    if a == [] {
      assert a + b == b;
    } else {
      var front := if a[0] == id then [] else [a[0]];
      assert a == [a[0]] + a[1..];
      assert a + b == [a[0]] + (a[1..] + b);
      WithoutCons(a[0], a[1..] + b, id);
      WithoutCons(a[0], a[1..], id);
      WithoutConcat(a[1..], b, id);
      assert front + (Without(a[1..], id) + Without(b, id))
        == (front + Without(a[1..], id)) + Without(b, id);
    }
  }

  /** Filtering out `id` from a list with `x` in front. */
  lemma WithoutCons(x: int, rest: seq<int>, id: int)
    ensures Without([x] + rest, id) == (if x == id then [] else [x]) + Without(rest, id)
  {
    assert ([x] + rest)[1..] == rest;
  }

  /** `todos.findIndex(t => t.id === id)`, with `None` for -1. */
  function FirstIndex(todos: seq<Todo>, id: int): (r: Option<nat>)
    ensures r.None? <==> id !in Ids(todos)
    ensures r.Some? ==>
      && r.value < |todos| && todos[r.value].id == id
      && forall k :: 0 <= k < r.value ==> todos[k].id != id
  {
    if todos == [] then None
    else if todos[0].id == id then Some(0)
    else
      assert todos == [todos[0]] + todos[1..];
      match FirstIndex(todos[1..], id)
      case None => None
      case Some(k) => Some(k + 1)
  }

  /** Position `k` holds the first todo with `id`. */
  predicate FirstAt(todos: seq<Todo>, id: int, k: int) {
    0 <= k < |todos| && todos[k].id == id && forall j :: 0 <= j < k ==> todos[j].id != id
  }

  /** `todos.find(t => t.id === id)`: the first todo with that id. */
  function Find(todos: seq<Todo>, id: int): (r: Option<Todo>)
    ensures r.None? <==> id !in Ids(todos)
    ensures r.Some? ==> exists k :: FirstAt(todos, id, k) && todos[k] == r.value
    ensures forall k :: FirstAt(todos, id, k) ==> r == Some(todos[k])
  {
    match FirstIndex(todos, id)
    case None => None
    case Some(k) =>
      assert FirstAt(todos, id, k);
      Some(todos[k])
  }

  /** A position holding an id that is present. */
  lemma IndexOfId(todos: seq<Todo>, x: int) returns (j: nat)
    requires x in Ids(todos)
    ensures j < |todos| && todos[j].id == x
  {
    var t :| t in todos && t.id == x;
    j :| j < |todos| && todos[j] == t;
  }

  /** The id at any position is present. */
  lemma IdAt(todos: seq<Todo>, j: int)
    requires 0 <= j < |todos|
    ensures todos[j].id in Ids(todos)
  {
    assert todos[j] in todos;
  }

  /** Appending a todo with a fresh id, whose references name other todos
      that are present, keeps ids unique and keeps the reference rules. */
  lemma AppendKeepsConsistency(todos: seq<Todo>, t: Todo)
    requires UniqueIds(todos) && ReferentialIntegrity(todos)
    requires t.id !in Ids(todos)
    requires forall x :: x in t.references ==> x != t.id && x in Ids(todos)
    ensures UniqueIds(todos + [t]) && ReferentialIntegrity(todos + [t])
  {
    var r := todos + [t];
    forall i | 0 <= i < |todos| ensures todos[i].id != t.id {
      IdAt(todos, i);
    }
    assert Ids(todos) <= Ids(r) by {
      forall x | x in Ids(todos) ensures x in Ids(r) {
        var i := IndexOfId(todos, x);
        IdAt(r, i);
      }
    }
  }

  /** Under unique ids the todo at index `i` is the one `Find` returns. */
  lemma FindUnique(todos: seq<Todo>, i: int)
    requires UniqueIds(todos) && 0 <= i < |todos|
    ensures FirstIndex(todos, todos[i].id) == Some(i)
    ensures Find(todos, todos[i].id) == Some(todos[i])
  {
  }

  /** The id list of a list with a todo in front. */
  lemma IdListCons(t: Todo, rest: seq<Todo>)
    ensures IdList([t] + rest) == [t.id] + IdList(rest)
  {
    assert ([t] + rest)[1..] == rest;
  }

  /** Two lists with the same ids, position by position, have the same id
      list, the same id set and the same first position for every id. */
  lemma SameIds(a: seq<Todo>, b: seq<Todo>)
    requires |a| == |b|
    requires forall i :: 0 <= i < |a| ==> a[i].id == b[i].id
    ensures IdList(a) == IdList(b)
    ensures Ids(a) == Ids(b)
    ensures forall id :: FirstIndex(a, id) == FirstIndex(b, id)
  {
    SameIdSet(a, b);
    SameIdSet(b, a);
    forall id ensures FirstIndex(a, id) == FirstIndex(b, id) {
      SameFirstIndex(a, b, id);
    }
  }

  lemma SameIdSet(a: seq<Todo>, b: seq<Todo>)
    requires |a| == |b|
    requires forall i :: 0 <= i < |a| ==> a[i].id == b[i].id
    ensures Ids(a) <= Ids(b)
  {
    forall x | x in Ids(a) ensures x in Ids(b) {
      var i := IndexOfId(a, x);
      IdAt(b, i);
    }
  }

  lemma SameFirstIndex(a: seq<Todo>, b: seq<Todo>, id: int)
    requires |a| == |b|
    requires forall i :: 0 <= i < |a| ==> a[i].id == b[i].id
    ensures FirstIndex(a, id) == FirstIndex(b, id)
  {
    var fa, fb := FirstIndex(a, id), FirstIndex(b, id);
    if fa.Some? {
      IdAt(b, fa.value);
    }
    if fb.Some? {
      IdAt(a, fb.value);
    }
  }

  /** Two lists with the same ids and references, position by position,
      agree on referential integrity. */
  lemma SameLinksSameIntegrity(a: seq<Todo>, b: seq<Todo>)
    requires |a| == |b|
    requires forall i :: 0 <= i < |a| ==>
      a[i].id == b[i].id && a[i].references == b[i].references
    ensures Ids(a) == Ids(b)
    ensures ReferentialIntegrity(a) <==> ReferentialIntegrity(b)
  {
    SameIds(a, b);
    if ReferentialIntegrity(a) {
      forall t | t in b ensures forall r :: r in t.references ==> r != t.id && r in Ids(b) {
        var i :| 0 <= i < |b| && b[i] == t;
        assert a[i] in a;
      }
    }
    if ReferentialIntegrity(b) {
      forall t | t in a ensures forall r :: r in t.references ==> r != t.id && r in Ids(a) {
        var i :| 0 <= i < |a| && a[i] == t;
        assert b[i] in b;
      }
    }
  }
}
