/**
  The collection endpoint (apps/server/src/app/api/todos/route.ts). It keeps
  its own module-level array, seeded with three todos: GET returns it, and
  POST validates the text, computes the next id as the largest id plus one
  and appends the new todo in place.
*/
module TodosRoute {
  import opened JsBuiltins
  import opened TodoTypes

  /** The 400 response's message. */
  const TextRequired: string := "할 일 내용은 필수입니다."

  datatype Payload = TodoList(todos: seq<Todo>) | Created(todo: Todo) | Failure(error: string)

  datatype Response = Response(status: int, payload: Payload)

  /** The array the endpoint starts with, every timestamp the same reading. */
  function Seed(now: string): seq<Todo> {
    [ Todo(1, "서버 할 일 1", false, [2, 3], now, now),
      Todo(2, "서버 할 일 2", false, [], now, now),
      Todo(3, "서버 할 일 3", false, [], now, now) ]
  }

  lemma SeedConsistent(now: string)
    ensures UniqueIds(Seed(now)) && ReferentialIntegrity(Seed(now))
  {
    var s := Seed(now);
    assert s[1] in s && s[2] in s;
  }

  /** `Math.max(...todos.map(todo => todo.id))` on a non-empty array: an id
      that is present and that no id exceeds. */
  function MaxId(todos: seq<Todo>): (r: int)
    requires todos != []
    ensures r in Ids(todos)
    ensures forall t :: t in todos ==> t.id <= r
  {
    if |todos| == 1 then todos[0].id
    else
      var m := MaxId(todos[1..]);
      assert todos == [todos[0]] + todos[1..];
      if todos[0].id > m then todos[0].id else m
  }

  /** `maxId + 1`, with `maxId = 0` on an empty array: one more than an id
      of the array that no id exceeds, hence fresh. */
  function NextId(todos: seq<Todo>): (r: int)
    ensures forall t :: t in todos ==> t.id < r
    ensures r !in Ids(todos)
    ensures todos != [] ==> r - 1 in Ids(todos)
    ensures todos == [] ==> r == 1
  {
    (if |todos| > 0 then MaxId(todos) else 0) + 1
  }

  /** The negation of `!text || text.trim() === ''`: the body has a `text`
      that is not all whitespace (the empty-string test adds nothing, since
      an empty text trims to empty). */
  function HasText(body: Option<string>): (b: bool)
    ensures b <==> body.Some? && !IsBlank(body.value)
  {
    body.Some? && body.value != "" && Trim(body.value) != ""
  }

  /** The todo POST creates. */
  function NewTodo(todos: seq<Todo>, text: string, now: string): Todo {
    Todo(NextId(todos), Trim(text), false, [], now, now)
  }

  /** The array after a POST with `body`. Without text it is unchanged;
      otherwise exactly one todo is appended after the old ones: a fresh
      id, the trimmed text (which is not blank), not completed, and no
      references whatever the body held. */
  function PostStore(todos: seq<Todo>, body: Option<string>, now: string): (r: seq<Todo>)
    ensures !HasText(body) ==> r == todos
    ensures HasText(body) ==>
      && |r| == |todos| + 1
      && r[..|todos|] == todos
      && r[|todos|].id !in Ids(todos)
      && r[|todos|].text == Trim(body.value) && r[|todos|].text != ""
      && !r[|todos|].completed
      && r[|todos|].references == []
  {
    if HasText(body) then todos + [NewTodo(todos, body.value, now)]
    else todos
  }

  /** POST keeps ids unique and keeps the reference rules. */
  lemma PostKeepsConsistency(todos: seq<Todo>, body: Option<string>, now: string)
    requires UniqueIds(todos) && ReferentialIntegrity(todos)
    ensures UniqueIds(PostStore(todos, body, now))
    ensures ReferentialIntegrity(PostStore(todos, body, now))
  {
    if HasText(body) {
      AppendKeepsConsistency(todos, NewTodo(todos, body.value, now));
    }
  }

  /** The array after a run of POSTs, each a body and a clock reading. */
  function Replay(todos: seq<Todo>, requests: seq<(Option<string>, string)>): seq<Todo>
    decreases |requests|
  {
    if requests == [] then todos
    else Replay(PostStore(todos, requests[0].0, requests[0].1), requests[1..])
  }

  lemma {:induction false} ReplayKeepsConsistency(todos: seq<Todo>,
                                                  requests: seq<(Option<string>, string)>)
    requires UniqueIds(todos) && ReferentialIntegrity(todos)
    ensures UniqueIds(Replay(todos, requests)) && ReferentialIntegrity(Replay(todos, requests))
    decreases |requests|
  {
    if requests != [] {
      PostKeepsConsistency(todos, requests[0].0, requests[0].1);
      ReplayKeepsConsistency(PostStore(todos, requests[0].0, requests[0].1), requests[1..]);
    }
  }

  /** From the seed, whatever POSTs arrive, ids stay pairwise distinct and
      every reference names another todo that is present. */
  lemma ReplayFromSeed(seedNow: string, requests: seq<(Option<string>, string)>)
    ensures UniqueIds(Replay(Seed(seedNow), requests))
    ensures ReferentialIntegrity(Replay(Seed(seedNow), requests))
  {
    SeedConsistent(seedNow);
    ReplayKeepsConsistency(Seed(seedNow), requests);
  }

  class TodoCollection {
    /** `todos` */
    var todos: seq<Todo>

    constructor (now: string)
      ensures todos == Seed(now)
    {
      todos := Seed(now);
    }

    /** `GET`: the whole array, status 200. */
    method Get() returns (resp: Response)
      ensures resp.status == 200 && resp.payload == TodoList(todos)
    {
      resp := Response(200, TodoList(todos));
    }

    /** `POST` with the body's `text` field (`None` when it is absent or a falsy non-string). */
    method Post(body: Option<string>, now: string) returns (resp: Response)
      modifies this
      ensures todos == PostStore(old(todos), body, now)
      ensures !HasText(body) ==> resp == Response(400, Failure(TextRequired))
      ensures HasText(body) ==>
        resp == Response(201, Created(todos[|todos| - 1]))
    {
      if body.None? || body.value == "" || Trim(body.value) == "" {
        resp := Response(400, Failure(TextRequired));
        return;
      }
      assert HasText(body);
      var maxId := if |todos| > 0 then MaxId(todos) else 0;
      var newTodo := Todo(maxId + 1, Trim(body.value), false, [], now, now);
      assert newTodo == NewTodo(todos, body.value, now);
      todos := todos + [newTodo];
      resp := Response(201, Created(newTodo));
    }
  }
}
