/**
  The repository implements the todo rules more than once. These lemmas
  show where the implementations agree.
*/
module Agreement {
  import opened TodoTypes
  import App
  import ServerData
  import TodosRoute

  /** The client's cleanup map and the server's cleanup loop produce the
      same list. */
  lemma CleanupsAgree(todos: seq<Todo>, id: int)
    ensures App.DropReference(todos, id) == ServerData.Cleaned(todos, id)
  {
  }

  /** A list without `id` is left as it is by the client's filter. */
  lemma {:induction false} KeepOthersAbsent(todos: seq<Todo>, id: int)
    requires id !in Ids(todos)
    ensures App.KeepOthers(todos, id) == todos
  {
    if todos != [] {
      assert todos == [todos[0]] + todos[1..];
      assert todos[0] in todos;
      KeepOthersAbsent(todos[1..], id);
    }
  }

  /** With unique ids, filtering out the id of the todo at `k` removes that
      todo and only it, which is what `splice(k, 1)` does. */
  lemma {:induction false} KeepOthersIsSplice(todos: seq<Todo>, id: int, k: nat)
    requires UniqueIds(todos)
    requires k < |todos| && todos[k].id == id
    ensures App.KeepOthers(todos, id) == ServerData.RemoveAt(todos, k)
    decreases k
  {
    var tail := todos[1..];
    if k == 0 {
      SpliceFirst(todos, id);
    } else {
      assert UniqueIds(tail) by {
        forall i, j | 0 <= i < j < |tail| ensures tail[i].id != tail[j].id {
          assert tail[i] == todos[i + 1] && tail[j] == todos[j + 1];
        }
      }
      KeepOthersIsSplice(tail, id, k - 1);
      SpliceLater(todos, id, k);
    }
  }

  /** The base case: the id sits at the front and nowhere else. */
  lemma SpliceFirst(todos: seq<Todo>, id: int)
    requires UniqueIds(todos)
    requires todos != [] && todos[0].id == id
    ensures App.KeepOthers(todos, id) == ServerData.RemoveAt(todos, 0)
  {
    var tail := todos[1..];
    assert id !in Ids(tail) by {
      forall x | x in Ids(tail) ensures x != id {
        var j := IndexOfId(tail, x);
        assert tail[j] == todos[j + 1];
      }
    }
    KeepOthersAbsent(tail, id);
    assert ServerData.RemoveAt(todos, 0) == tail;
  }

  /** The step: a front todo with another id is kept by both. */
  lemma SpliceLater(todos: seq<Todo>, id: int, k: nat)
    requires 0 < k < |todos| && todos[0].id != id
    requires App.KeepOthers(todos[1..], id) == ServerData.RemoveAt(todos[1..], k - 1)
    ensures App.KeepOthers(todos, id) == ServerData.RemoveAt(todos, k)
  {
    var tail := todos[1..];
    assert App.KeepOthers(todos, id) == [todos[0]] + App.KeepOthers(tail, id);
    RemoveLater(todos, k);
  }

  /** Splicing out a later position keeps the front element. */
  lemma RemoveLater(s: seq<Todo>, k: nat)
    requires 0 < k < |s|
    ensures ServerData.RemoveAt(s, k) == [s[0]] + ServerData.RemoveAt(s[1..], k - 1)
  {
    assert s[..k] == [s[0]] + s[1..][..k - 1];
    assert s[k + 1..] == s[1..][k..];
  }

  /** With unique ids the client's `handleDeleteTodo` and the server's
      `deleteTodo` compute the same list. */
  lemma DeletesAgree(todos: seq<Todo>, id: int)
    requires UniqueIds(todos)
    ensures App.Delete(todos, id) == ServerData.StoreDelete(todos, id)
  {
    CleanupsAgree(todos, id);
    var cleaned := ServerData.Cleaned(todos, id);
    assert UniqueIds(cleaned) by {
      assert forall i :: 0 <= i < |todos| ==> cleaned[i].id == todos[i].id;
    }
    match FirstIndex(cleaned, id)
    case None => KeepOthersAbsent(cleaned, id);
    case Some(k) => KeepOthersIsSplice(cleaned, id, k);
  }

  /** A POST with text creates the todo the client's `handleAddTodo` would
      append when handed the id `maxId + 1`. */
  lemma PostIsAdd(todos: seq<Todo>, text: string, now: string)
    ensures TodosRoute.PostStore(todos, Some(text), now)
      == App.Add(todos, text, TodosRoute.NextId(todos), now)
  {
  }
}
