/**
  The client's todo list (apps/app/src/App.tsx). Every handler there builds
  a new list from the previous one and hands it to `setTodos`; here each is
  a function from the old list to the new one. The status filter and the
  page arithmetic that pick the rows to show are functions too.
*/
module App {
  import opened JsBuiltins
  import opened TodoTypes

  /** `pageSize` */
  const PageSize: nat := 5

  /** The list the client starts with, every timestamp the same reading. */
  function Seed(now: string): seq<Todo> {
    [ Todo(1, "할 일 1", false, [2, 3], now, now),
      Todo(2, "할 일 2", false, [], now, now),
      Todo(3, "할 일 3", false, [], now, now) ]
  }

  lemma SeedConsistent(now: string)
    ensures UniqueIds(Seed(now)) && ReferentialIntegrity(Seed(now))
  {
    var s := Seed(now);
    assert s[1] in s && s[2] in s;
  }

  // ---------------------------------------------------------------------
  // Toggle: incomplete -> complete is gated on the references,
  // complete -> incomplete is not.

  /** `target.references.every(ref => prev.find(t => t.id === ref)?.completed)`:
      every reference names a todo in the list, and the first todo with
      that id is complete. */
  function AllReferencesDone(todos: seq<Todo>, refs: seq<int>): (b: bool)
    ensures b <==> forall r :: r in refs ==>
      exists k :: FirstAt(todos, r, k) && todos[k].completed
  {
    forall r :: r in refs ==> Find(todos, r).Some? && Find(todos, r).value.completed
  }

  /** An empty reference list never blocks; a reference to an id that is not
      in the list always does. */
  lemma GateEdgeCases(todos: seq<Todo>, refs: seq<int>, missing: int)
    requires missing in refs && missing !in Ids(todos)
    ensures AllReferencesDone(todos, [])
    ensures !AllReferencesDone(todos, refs)
  {
  }

  /** `handleToggleTodo(id)`. If the first todo with `id` is incomplete and
      one of its references is not done, the list is returned as it was;
      otherwise every todo with `id` has its `completed` flipped and its
      `updatedAt` set to `now`. */
  function Toggle(todos: seq<Todo>, id: int, now: string): (r: seq<Todo>)
    ensures |r| == |todos|
    ensures id !in Ids(todos) ==> r == todos
    ensures forall i :: 0 <= i < |todos| ==>
      || r[i] == todos[i]
      || (todos[i].id == id
          && r[i] == todos[i].(completed := !todos[i].completed, updatedAt := now))
  {
    match Find(todos, id)
    case None => todos
    case Some(target) =>
      if !target.completed && !AllReferencesDone(todos, target.references) then todos
      else
        seq(|todos|, i requires 0 <= i < |todos| =>
          if todos[i].id == id
          then todos[i].(completed := !todos[i].completed, updatedAt := now)
          else todos[i])
  }

  /** The completion state machine, for a list with unique ids: a complete
      todo always becomes incomplete; an incomplete one becomes complete
      exactly when all its references are done, and otherwise nothing
      changes. Only the target's `completed` and `updatedAt` ever change. */
  lemma ToggleStateMachine(todos: seq<Todo>, i: int, now: string)
    requires UniqueIds(todos) && 0 <= i < |todos|
    ensures Toggle(todos, todos[i].id, now) ==
      if todos[i].completed || AllReferencesDone(todos, todos[i].references)
      then todos[i := todos[i].(completed := !todos[i].completed, updatedAt := now)]
      else todos
  {
    FindUnique(todos, i);
  }

  lemma ToggleKeepsIntegrity(todos: seq<Todo>, id: int, now: string)
    requires ReferentialIntegrity(todos)
    ensures ReferentialIntegrity(Toggle(todos, id, now))
  {
    SameLinksSameIntegrity(todos, Toggle(todos, id, now));
  }

  // ---------------------------------------------------------------------
  // Delete: the todo goes, and so does every reference to it.

  /** The `map` in `handleDeleteTodo`: a todo whose references include `id`
      gets them filtered; the others are kept as they are. */
  function DropReference(todos: seq<Todo>, id: int): (r: seq<Todo>)
    ensures |r| == |todos|
    ensures forall i :: 0 <= i < |todos| ==>
      r[i] == todos[i].(references := Without(todos[i].references, id))
  {
    UnreferencedKept(todos, id);
    seq(|todos|, i requires 0 <= i < |todos| =>
      if id in todos[i].references
      then todos[i].(references := Without(todos[i].references, id))
      else todos[i])
  }

  /** A todo that does not refer to `id` is its own filtered form. */
  lemma UnreferencedKept(todos: seq<Todo>, id: int)
    ensures forall i :: 0 <= i < |todos| && id !in todos[i].references ==>
      Without(todos[i].references, id) == todos[i].references
  {
    forall i | 0 <= i < |todos| && id !in todos[i].references
      ensures Without(todos[i].references, id) == todos[i].references
    {
      WithoutAbsent(todos[i].references, id);
    }
  }

  /** The `filter` in `handleDeleteTodo`: every todo whose id is not `id`,
      in order. Its properties are the lemmas below. */
  function KeepOthers(todos: seq<Todo>, id: int): seq<Todo>
  {
    if todos == [] then []
    else
      var rest := KeepOthers(todos[1..], id);
      if todos[0].id == id then rest else [todos[0]] + rest
  }

  /** The filter keeps exactly the todos with another id. */
  lemma {:induction false} KeepOthersMembers(todos: seq<Todo>, id: int)
    ensures forall t :: t in KeepOthers(todos, id) <==> t in todos && t.id != id
  {
    if todos != [] {
      KeepOthersMembers(todos[1..], id);
      assert todos == [todos[0]] + todos[1..];
    }
  }

  /** The kept ids are the old ones minus `id`, in the old order. */
  lemma {:induction false} KeepOthersIds(todos: seq<Todo>, id: int)
    ensures IdList(KeepOthers(todos, id)) == Without(IdList(todos), id)
  {
    if todos != [] {
      KeepOthersIds(todos[1..], id);
      KeepFront(todos, id, KeepOthers(todos[1..], id));
    }
  }

  /** One step of the filter on ids: the front id is kept exactly when it
      differs from `id`. */
  lemma KeepFront(todos: seq<Todo>, id: int, rest: seq<Todo>)
    requires todos != []
    requires IdList(rest) == Without(IdList(todos[1..]), id)
    ensures IdList(if todos[0].id == id then rest else [todos[0]] + rest)
      == Without(IdList(todos), id)
  {
    var ids := IdList(todos);
    assert todos == [todos[0]] + todos[1..];
    IdListCons(todos[0], todos[1..]);
    assert ids[1..] == IdList(todos[1..]);
    if todos[0].id != id {
      IdListCons(todos[0], rest);
    }
  }

  /** The filter keeps the order of the todos themselves, not only of their
      ids: filtering a concatenation filters each part. */
  lemma {:induction false} KeepOthersConcat(a: seq<Todo>, b: seq<Todo>, id: int)
    ensures KeepOthers(a + b, id) == KeepOthers(a, id) + KeepOthers(b, id)
  {
    if a == [] {
      assert a + b == b;
    } else {
      var front := if a[0].id == id then [] else [a[0]];
      assert a == [a[0]] + a[1..];
      assert a + b == [a[0]] + (a[1..] + b);
      KeepOthersCons(a[0], a[1..] + b, id);
      KeepOthersCons(a[0], a[1..], id);
      KeepOthersConcat(a[1..], b, id);
      assert front + (KeepOthers(a[1..], id) + KeepOthers(b, id))
        == (front + KeepOthers(a[1..], id)) + KeepOthers(b, id);
    }
  }

  lemma KeepOthersCons(t: Todo, rest: seq<Todo>, id: int)
    ensures KeepOthers([t] + rest, id) == (if t.id == id then [] else [t]) + KeepOthers(rest, id)
  {
    assert ([t] + rest)[1..] == rest;
  }

  /** `handleDeleteTodo(id)`. No todo with `id` is left and none refers to
      it; the ids that remain are the old ones minus `id`, in the old order;
      each survivor is an old todo whose references lost `id` and nothing
      else (so a todo that did not refer to `id` is unchanged), and every
      old todo with another id survives that way. */
  function Delete(todos: seq<Todo>, id: int): (r: seq<Todo>)
    ensures id !in Ids(r)
    ensures forall t :: t in r ==> id !in t.references
    ensures IdList(r) == Without(IdList(todos), id)
    ensures forall u :: u in todos && u.id != id ==>
      u.(references := Without(u.references, id)) in r
    ensures forall t :: t in r ==>
      exists u :: u in todos && t == u.(references := Without(u.references, id))
  {
    DeleteSurvivors(todos, id);
    DeleteDropsId(todos, id);
    KeepOthers(DropReference(todos, id), id)
  }

  lemma DeleteDropsId(todos: seq<Todo>, id: int)
    ensures id !in Ids(KeepOthers(DropReference(todos, id), id))
    ensures forall t :: t in KeepOthers(DropReference(todos, id), id) ==> id !in t.references
    ensures IdList(KeepOthers(DropReference(todos, id), id)) == Without(IdList(todos), id)
  {
    var cleaned := DropReference(todos, id);
    assert IdList(cleaned) == IdList(todos);
    KeepOthersMembers(cleaned, id);
    KeepOthersIds(cleaned, id);
    var r := KeepOthers(cleaned, id);
    forall t | t in r
      ensures id !in t.references && t.id != id
    {
      var i :| 0 <= i < |cleaned| && cleaned[i] == t;
    }
  }

  lemma DeleteSurvivors(todos: seq<Todo>, id: int)
    ensures forall u :: u in todos && u.id != id ==>
      u.(references := Without(u.references, id)) in KeepOthers(DropReference(todos, id), id)
    ensures forall t :: t in KeepOthers(DropReference(todos, id), id) ==>
      exists u :: u in todos && t == u.(references := Without(u.references, id))
  {
    var cleaned := DropReference(todos, id);
    KeepOthersMembers(cleaned, id);
    var r := KeepOthers(cleaned, id);
    forall u | u in todos && u.id != id
      ensures u.(references := Without(u.references, id)) in r
    {
      var i :| 0 <= i < |todos| && todos[i] == u;
      assert cleaned[i] in cleaned;
    }
    forall t | t in r
      ensures exists u :: u in todos && t == u.(references := Without(u.references, id))
    {
      var i :| 0 <= i < |cleaned| && cleaned[i] == t;
      assert todos[i] in todos;
    }
  }

  /** The cleanup map works todo by todo, so it distributes over
      concatenation. */
  lemma DropReferenceConcat(a: seq<Todo>, b: seq<Todo>, id: int)
    ensures DropReference(a + b, id) == DropReference(a, id) + DropReference(b, id)
  {
    var l := DropReference(a + b, id);
    var r := DropReference(a, id) + DropReference(b, id);
    forall i | 0 <= i < |l| ensures l[i] == r[i] {
      if i < |a| {
        assert (a + b)[i] == a[i];
      } else {
        assert (a + b)[i] == b[i - |a|];
      }
    }
  }

  /** Delete keeps the survivors in their old order, even when two of them
      share an id: deleting from a concatenation deletes from each part. */
  lemma DeleteConcat(a: seq<Todo>, b: seq<Todo>, id: int)
    ensures Delete(a + b, id) == Delete(a, id) + Delete(b, id)
  {
    DropReferenceConcat(a, b, id);
    KeepOthersConcat(DropReference(a, id), DropReference(b, id), id);
  }

  lemma DeleteKeepsIntegrity(todos: seq<Todo>, id: int)
    requires ReferentialIntegrity(todos)
    ensures ReferentialIntegrity(Delete(todos, id))
  {
    var r := Delete(todos, id);
    forall t | t in r
      ensures forall x :: x in t.references ==> x != t.id && x in Ids(r)
    {
      var u :| u in todos && t == u.(references := Without(u.references, id));
      forall x | x in t.references
        ensures x != t.id && x in Ids(r)
      {
        var v :| v in todos && v.id == x;
        assert v.(references := Without(v.references, id)) in r;
      }
    }
  }

  // ---------------------------------------------------------------------
  // Save an edit: new text, and references limited to todos that exist.

  /** `draftRefs.filter(id => existing.has(id) && id !== editTodoId)` */
  function ExistingOnly(draft: seq<int>, existing: set<int>, self: int): (r: seq<int>)
    ensures |r| <= |draft|
  {
    if draft == [] then []
    else
      (if draft[0] in existing && draft[0] != self then [draft[0]] else [])
      + ExistingOnly(draft[1..], existing, self)
  }

  /** The draft filter keeps exactly the draft ids that name another todo
      in the list. */
  lemma {:induction false} ExistingOnlyMembers(draft: seq<int>, existing: set<int>, self: int)
    ensures forall x :: x in ExistingOnly(draft, existing, self) <==>
      x in draft && x in existing && x != self
  {
    if draft != [] {
      ExistingOnlyMembers(draft[1..], existing, self);
      assert draft == [draft[0]] + draft[1..];
    }
  }

  /** The draft filter keeps the order: filtering a concatenation filters
      each part. */
  lemma {:induction false} ExistingOnlyConcat(a: seq<int>, b: seq<int>, existing: set<int>, self: int)
    ensures ExistingOnly(a + b, existing, self)
      == ExistingOnly(a, existing, self) + ExistingOnly(b, existing, self)
  {
    if a == [] {
      assert a + b == b;
    } else {
      var front := if a[0] in existing && a[0] != self then [a[0]] else [];
      assert a == [a[0]] + a[1..];
      assert a + b == [a[0]] + (a[1..] + b);
      ExistingOnlyCons(a[0], a[1..] + b, existing, self);
      ExistingOnlyCons(a[0], a[1..], existing, self);
      ExistingOnlyConcat(a[1..], b, existing, self);
      assert front + (ExistingOnly(a[1..], existing, self) + ExistingOnly(b, existing, self))
        == (front + ExistingOnly(a[1..], existing, self)) + ExistingOnly(b, existing, self);
    }
  }

  lemma ExistingOnlyCons(x: int, rest: seq<int>, existing: set<int>, self: int)
    ensures ExistingOnly([x] + rest, existing, self)
      == (if x in existing && x != self then [x] else []) + ExistingOnly(rest, existing, self)
  {
    assert ([x] + rest)[1..] == rest;
  }

  /** `handleSaveEditTodo()` for the todo being edited, `editId`, with the
      draft text and draft references. A blank draft changes nothing.
      Otherwise each todo with `editId` gets the trimmed text, the draft
      references that name another todo in the list, and `updatedAt = now`;
      its id, `completed` and `createdAt` stay, and every other todo is
      untouched. */
  function SaveEdit(todos: seq<Todo>, editId: int, draftText: string, draftRefs: seq<int>,
                    now: string): (r: seq<Todo>)
    ensures |r| == |todos|
    ensures IsBlank(draftText) ==> r == todos
    ensures forall i :: 0 <= i < |todos| && todos[i].id != editId ==> r[i] == todos[i]
    ensures forall i :: 0 <= i < |todos| && todos[i].id == editId && !IsBlank(draftText) ==>
      && r[i].id == editId
      && r[i].text == Trim(draftText)
      && r[i].completed == todos[i].completed
      && r[i].createdAt == todos[i].createdAt
      && r[i].updatedAt == now
      && r[i].references == ExistingOnly(draftRefs, Ids(todos), editId)
      && forall x :: x in r[i].references <==> x in draftRefs && x in Ids(todos) && x != editId
  {
    var text := Trim(draftText);
    if text == [] then todos
    else
      var refs := ExistingOnly(draftRefs, Ids(todos), editId);
      ExistingOnlyMembers(draftRefs, Ids(todos), editId);
      seq(|todos|, i requires 0 <= i < |todos| =>
        if todos[i].id == editId
        then todos[i].(text := text, references := refs, updatedAt := now)
        else todos[i])
  }

  /** The edited todo ends with neither a self-reference nor a dangling one,
      so a consistent list stays consistent. */
  lemma SaveEditKeepsIntegrity(todos: seq<Todo>, editId: int, draftText: string,
                               draftRefs: seq<int>, now: string)
    requires ReferentialIntegrity(todos)
    ensures ReferentialIntegrity(SaveEdit(todos, editId, draftText, draftRefs, now))
  {
    var r := SaveEdit(todos, editId, draftText, draftRefs, now);
    SameIds(r, todos);
    forall t | t in r
      ensures forall x :: x in t.references ==> x != t.id && x in Ids(r)
    {
      var i :| 0 <= i < |r| && r[i] == t;
      assert todos[i] in todos;
    }
  }

  // ---------------------------------------------------------------------
  // Add: a new incomplete todo at the end.

  /** `handleAddTodo` with the form's text `input`; `id` stands for
      `Date.now()`. A blank input changes nothing; otherwise exactly one
      todo is appended: the trimmed text, not completed, no references,
      both timestamps `now`. */
  function Add(todos: seq<Todo>, input: string, id: int, now: string): (r: seq<Todo>)
    ensures IsBlank(input) ==> r == todos
    ensures !IsBlank(input) ==>
      && |r| == |todos| + 1
      && r[..|todos|] == todos
      && r[|todos|] == Todo(id, Trim(input), false, [], now, now)
  {
    var text := Trim(input);
    if text == [] then todos
    else todos + [Todo(id, text, false, [], now, now)]
  }

  /** Given an id no todo has, adding keeps ids unique and keeps the
      reference rules. */
  lemma AddKeepsConsistency(todos: seq<Todo>, input: string, id: int, now: string)
    requires id !in Ids(todos)
    requires UniqueIds(todos) && ReferentialIntegrity(todos)
    ensures UniqueIds(Add(todos, input, id, now))
    ensures ReferentialIntegrity(Add(todos, input, id, now))
  {
    if !IsBlank(input) {
      var t := Todo(id, Trim(input), false, [], now, now);
      assert Add(todos, input, id, now) == todos + [t];
      AppendKeepsConsistency(todos, t);
    }
  }

  // ---------------------------------------------------------------------
  // Status filter.

  /** The predicate of the `filtered` list for one filter value: `all`
      shows every todo, and `active` and `completed` each show exactly the
      todos the other hides. */
  function Shows(f: TodoFilter, t: Todo): (b: bool)
    ensures f == All ==> b
    ensures f != All ==> (b <==> (t.completed <==> f == Completed))
  {
    match f
    case All => true
    case Active => !t.completed
    case Completed => t.completed
  }

  /** `filtered`: the todos the filter shows. */
  function FilterTodos(todos: seq<Todo>, f: TodoFilter): (r: seq<Todo>)
    ensures forall t :: t in r <==> t in todos && Shows(f, t)
    ensures |r| <= |todos|
  {
    if todos == [] then []
    else (if Shows(f, todos[0]) then [todos[0]] else []) + FilterTodos(todos[1..], f)
  }

  /** Filtering keeps the list's order: filtering a concatenation is
      concatenating the filtered parts. */
  lemma {:induction false} FilterConcat(a: seq<Todo>, b: seq<Todo>, f: TodoFilter)
    ensures FilterTodos(a + b, f) == FilterTodos(a, f) + FilterTodos(b, f)
  {
    if a == [] {
      assert a + b == b;
    } else {
      assert (a + b)[0] == a[0];
      assert (a + b)[1..] == a[1..] + b;
      FilterConcat(a[1..], b, f);
    }
  }

  /** `all` shows the whole list. */
  lemma {:induction false} FilterAllIsIdentity(todos: seq<Todo>)
    ensures FilterTodos(todos, All) == todos
  {
    if todos != [] {
      FilterAllIsIdentity(todos[1..]);
    }
  }

  /** Every todo is shown by exactly one of `active` and `completed`. */
  lemma {:induction false} ActiveCompletedPartition(todos: seq<Todo>)
    ensures |FilterTodos(todos, Active)| + |FilterTodos(todos, Completed)| == |todos|
  {
    if todos != [] {
      ActiveCompletedPartition(todos[1..]);
    }
  }

  // ---------------------------------------------------------------------
  // Pages.

  /** `Math.max(1, Math.ceil(total / pageSize))`: at least one page, enough
      pages for every todo, and no page beyond the last todo's. */
  function TotalPages(total: nat): (r: nat)
    ensures r >= 1
    ensures total <= r * PageSize
    ensures total > 0 ==> (r - 1) * PageSize < total
    ensures total == 0 ==> r == 1
  {
    var pages := (total + PageSize - 1) / PageSize;
    if pages > 1 then pages else 1
  }

  /** `Math.min(page, totalPages)`: never past the last page, at least 1
      when `page` is, `page` itself when it is in range and the last page
      when it is not. */
  function SafePage(page: int, totalPages: nat): (r: int)
    ensures r <= totalPages && r <= page
    ensures r == page || r == totalPages
    ensures 1 <= page && 1 <= totalPages ==> 1 <= r
    ensures page <= totalPages ==> r == page
  {
    if page < totalPages then page else totalPages
  }

  /** `filtered.slice(start, end)` with `start = (safePage - 1) * pageSize`
      and `end = start + pageSize`: at most a page of todos, read in order
      from the page's first position. */
  function PageTodos(filtered: seq<Todo>, safePage: int): (r: seq<Todo>)
    ensures |r| <= PageSize
    ensures safePage >= 1 ==> forall k :: 0 <= k < |r| ==>
      && (safePage - 1) * PageSize + k < |filtered|
      && r[k] == filtered[(safePage - 1) * PageSize + k]
    ensures 1 <= safePage && (safePage - 1) * PageSize < |filtered| ==>
      |r| == if |filtered| - (safePage - 1) * PageSize < PageSize
             then |filtered| - (safePage - 1) * PageSize else PageSize
  {
    var start := (safePage - 1) * PageSize;
    Slice(filtered, start, start + PageSize)
  }

  /** Paging loses nothing: the todo at position `i` is on page
      `i / pageSize + 1`, which is a page that exists. */
  lemma EveryTodoOnItsPage(filtered: seq<Todo>, i: int)
    requires 0 <= i < |filtered|
    ensures 1 <= i / PageSize + 1 <= TotalPages(|filtered|)
    ensures i % PageSize < |PageTodos(filtered, i / PageSize + 1)|
    ensures PageTodos(filtered, i / PageSize + 1)[i % PageSize] == filtered[i]
  {
    var p := i / PageSize + 1;
    assert (p - 1) * PageSize + i % PageSize == i;
  }

  /** The "previous" button: `Math.max(1, p - 1)`. One page back, but
      never before the first. */
  function PrevPage(p: int): (r: int)
    ensures r >= 1
    ensures p >= 1 ==> r <= p
    ensures p > 1 ==> r == p - 1
    ensures p <= 1 ==> r == 1
  {
    if 1 < p - 1 then p - 1 else 1
  }

  /** The "next" button: `Math.min(totalPages, p + 1)`. One page on, but
      never past the last. */
  function NextPage(p: int, totalPages: nat): (r: int)
    ensures r <= totalPages
    ensures p >= 0 && totalPages >= 1 ==> r >= 1
    ensures p + 1 <= totalPages ==> r == p + 1
    ensures p + 1 > totalPages ==> r == totalPages
  {
    if totalPages < p + 1 then totalPages else p + 1
  }

  datatype PageButton = Prev | Next

  /** The page after a run of button presses, with the page count fixed. */
  function Press(page: int, totalPages: nat, presses: seq<PageButton>): int
    decreases presses
  {
    if presses == [] then page
    else
      var next := match presses[0]
        case Prev => PrevPage(page)
        case Next => NextPage(page, totalPages);
      Press(next, totalPages, presses[1..])
  }

  /** Whatever the buttons pressed, a page in `[1, totalPages]` stays in it. */
  lemma {:induction false} PressStaysInRange(page: int, totalPages: nat, presses: seq<PageButton>)
    requires 1 <= page <= totalPages
    ensures 1 <= Press(page, totalPages, presses) <= totalPages
    decreases presses
  {
    if presses != [] {
      var next := match presses[0]
        case Prev => PrevPage(page)
        case Next => NextPage(page, totalPages);
      PressStaysInRange(next, totalPages, presses[1..]);
    }
  }
}
