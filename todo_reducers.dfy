/** The list reducers of the TodoMVC example
    (examples/TodoMVC/components/TodoList/reducers.js). Each reducer changes
    the `{list, inputVal}` state it is given in place; the class TodoList holds
    that state and has one method per reducer. Each method is proved against a
    pure function on the list, and the lemmas state what the reducers promise. */
module TodoReducers {
  import opened Wrappers
  import opened Errors
  import opened Sequences

  datatype Todo = Todo(id: int, title: string, completed: bool)

  datatype TodoState = TodoState(list: seq<Todo>, inputVal: string)

  /** The actions the seven `filterByType` routes accept, plus any other type,
      which no reducer receives. */
  datatype Action =
    | InsertTodoAction(payload: string)
    | EditTodoAction(id: int, title: string)
    | ToggleTodoAction(id: int)
    | ToggleAllAction
    | DeleteTodoAction(id: int)
    | DeleteCompletedAction
    | InputValAction(payload: string)
    | OtherAction(kind: string)

  /** Ids strictly increase along the list. */
  predicate Increasing(l: seq<Todo>)
  {
    forall i, j :: 0 <= i < j < |l| ==> l[i].id < l[j].id
  }

  /** `list.find(todo => todo.id === id)`: the position of the first item with
      that id, if any. */
  function Find(l: seq<Todo>, id: int): (r: Option<nat>)
    ensures r.Some? ==> r.value < |l| && l[r.value].id == id
    ensures r.Some? ==> forall j :: 0 <= j < r.value ==> l[j].id != id
    ensures r.None? <==> forall j :: 0 <= j < |l| ==> l[j].id != id
  {
    if l == [] then None
    else if l[0].id == id then Some(0)
    else match Find(l[1..], id)
      case None => None
      case Some(i) => Some(i + 1)
  }

  /** The id insertTodo gives: the last item's id plus one, or 1. */
  function NextId(l: seq<Todo>): int
  {
    (if |l| > 0 then l[|l| - 1].id else 0) + 1
  }

  /** insertTodo (reducers.js:34-45). */
  function Inserted(l: seq<Todo>, payload: string): seq<Todo>
  {
    l + [Todo(NextId(l), payload, false)]
  }

  /** editTodo (reducers.js:47-52): a missing id makes `todo.title = ...`
      throw on `undefined`. */
  function Edited(l: seq<Todo>, id: int, title: string): Result<seq<Todo>, Error>
  {
    match Find(l, id)
    case None => Err(TypeError)
    case Some(i) => Ok(l[i := Todo(l[i].id, title, l[i].completed)])
  }

  /** toggleTodo (reducers.js:54-59). */
  function Toggled(l: seq<Todo>, id: int): Result<seq<Todo>, Error>
  {
    match Find(l, id)
    case None => Err(TypeError)
    case Some(i) => Ok(l[i := Todo(l[i].id, l[i].title, !l[i].completed)])
  }

  /** The three `filter` callbacks of the reducers. */
  datatype Criterion = Completed | NotCompleted | IdOtherThan(id: int)

  predicate Keeps(c: Criterion, t: Todo)
  {
    match c
    case Completed => t.completed
    case NotCompleted => !t.completed
    case IdOtherThan(id) => t.id != id
  }

  /** `Array.prototype.filter`: the items that pass, in list order. */
  function Filter(l: seq<Todo>, c: Criterion): (r: seq<Todo>)
    ensures |r| <= |l|
    ensures forall t :: t in r <==> t in l && Keeps(c, t)
    decreases |l|
  {
    if l == [] then []
    else (if Keeps(c, l[0]) then [l[0]] else []) + Filter(l[1..], c)
  }

  /** Every item's `completed` set to b. */
  function SetCompleted(l: seq<Todo>, b: bool): (r: seq<Todo>)
    ensures |r| == |l|
    ensures forall i :: 0 <= i < |l| ==> r[i] == Todo(l[i].id, l[i].title, b)
    decreases |l|
  {
    if l == [] then [] else [Todo(l[0].id, l[0].title, b)] + SetCompleted(l[1..], b)
  }

  /** toggleAll (reducers.js:61-73): everything completed when some item is
      active (`amountActive` is not 0), everything active otherwise. */
  function AllToggled(l: seq<Todo>): seq<Todo>
  {
    SetCompleted(l, |l| - |Filter(l, Completed)| != 0)
  }

  /** The routing of reducers.js:1-31 applied to a state: each action type
      reaches its own reducer; a type no route accepts changes nothing. */
  function Reduce(s: TodoState, a: Action): Result<TodoState, Error>
  {
    match a
    case InsertTodoAction(p) => Ok(TodoState(Inserted(s.list, p), s.inputVal))
    case EditTodoAction(id, title) =>
      (match Edited(s.list, id, title)
       case Ok(l) => Ok(TodoState(l, s.inputVal))
       case Err(e) => Err(e))
    case ToggleTodoAction(id) =>
      (match Toggled(s.list, id)
       case Ok(l) => Ok(TodoState(l, s.inputVal))
       case Err(e) => Err(e))
    case ToggleAllAction => Ok(TodoState(AllToggled(s.list), s.inputVal))
    case DeleteTodoAction(id) => Ok(TodoState(Filter(s.list, IdOtherThan(id)), s.inputVal))
    case DeleteCompletedAction => Ok(TodoState(Filter(s.list, NotCompleted), s.inputVal))
    case InputValAction(p) => Ok(TodoState(s.list, p))
    case OtherAction(_) => Ok(s)
  }

  // ----- insertTodo -----

  /** insertTodo appends exactly one new, active item after the unchanged
      list, titled with the payload, whose id is one past the last id (1 on an
      empty list). */
  lemma InsertAppends(l: seq<Todo>, payload: string)
    ensures var r := Inserted(l, payload);
      && |r| == |l| + 1
      && r[..|l|] == l
      && r[|l|].title == payload && !r[|l|].completed
      && r[|l|].id == if l == [] then 1 else l[|l| - 1].id + 1
  {
    assert Inserted(l, payload)[..|l|] == l;
  }

  /** On a list whose ids increase, the new id is above every id, so it is
      fresh, and the ids still increase. */
  lemma InsertKeepsIncreasing(l: seq<Todo>, payload: string)
    requires Increasing(l)
    ensures forall t :: t in l ==> t.id < NextId(l)
    ensures Increasing(Inserted(l, payload))
  {
    var r := Inserted(l, payload);
    forall t | t in l ensures t.id < NextId(l) {
      var i :| 0 <= i < |l| && l[i] == t;
      assert i <= |l| - 1;
    }
    forall i, j | 0 <= i < j < |r| ensures r[i].id < r[j].id {
      if j == |l| {
        assert r[i] == l[i];
        assert l[i] in l;
      } else {
        assert r[i] == l[i] && r[j] == l[j];
      }
    }
  }

  // ----- editTodo and toggleTodo -----

  /** editTodo fails exactly when no item has the id; otherwise it retitles
      the first such item and keeps length, order, ids, completion and every
      other item. */
  lemma EditFacts(l: seq<Todo>, id: int, title: string)
    ensures Edited(l, id, title).Err? <==> forall j :: 0 <= j < |l| ==> l[j].id != id
    ensures Edited(l, id, title).Err? ==> Edited(l, id, title).error == TypeError
    ensures Edited(l, id, title).Ok? ==>
      var r, i := Edited(l, id, title).value, Find(l, id).value;
      && |r| == |l|
      && r[i].title == title && r[i].id == id && r[i].completed == l[i].completed
      && (forall j :: 0 <= j < |l| && j != i ==> r[j] == l[j])
      && (forall j :: 0 <= j < |l| ==> r[j].id == l[j].id)
  {
  }

  /** toggleTodo fails exactly when no item has the id; otherwise it flips the
      first such item's completion and keeps everything else. */
  lemma ToggleFacts(l: seq<Todo>, id: int)
    ensures Toggled(l, id).Err? <==> forall j :: 0 <= j < |l| ==> l[j].id != id
    ensures Toggled(l, id).Err? ==> Toggled(l, id).error == TypeError
    ensures Toggled(l, id).Ok? ==>
      var r, i := Toggled(l, id).value, Find(l, id).value;
      && |r| == |l|
      && r[i].completed == !l[i].completed && r[i].id == id && r[i].title == l[i].title
      && (forall j :: 0 <= j < |l| && j != i ==> r[j] == l[j])
      && (forall j :: 0 <= j < |l| ==> r[j].id == l[j].id)
  {
  }

  /** Ids are untouched, so the same item is found again after a change. */
  lemma FindSameIds(l: seq<Todo>, r: seq<Todo>, id: int)
    requires |r| == |l| && forall j :: 0 <= j < |l| ==> r[j].id == l[j].id
    ensures Find(r, id) == Find(l, id)
  {
    match Find(l, id)
    case None =>
    case Some(i) =>
      var k := Find(r, id);
      assert r[i].id == id;
      assert k.Some? && k.value <= i;
      assert l[k.value].id == id;
  }

  /** Toggling the same item twice restores the list. */
  lemma ToggleTwice(l: seq<Todo>, id: int)
    requires Toggled(l, id).Ok?
    ensures Toggled(Toggled(l, id).value, id) == Ok(l)
  {
    var r := Toggled(l, id).value;
    var i := Find(l, id).value;
    FindSameIds(l, r, id);
    assert r[i := Todo(r[i].id, r[i].title, !r[i].completed)] == l;
  }

  /** Editing twice with the same title is editing once. */
  lemma EditIdempotent(l: seq<Todo>, id: int, title: string)
    requires Edited(l, id, title).Ok?
    ensures Edited(Edited(l, id, title).value, id, title) == Edited(l, id, title)
  {
    var r := Edited(l, id, title).value;
    var i := Find(l, id).value;
    FindSameIds(l, r, id);
    assert r[i := Todo(r[i].id, title, r[i].completed)] == r;
  }

  // ----- filter: deleteTodo, deleteCompleted -----

  /** Filtering a concatenation filters each part in turn: the kept items stay
      in their original order. */
  lemma {:induction false} FilterConcat(a: seq<Todo>, b: seq<Todo>, c: Criterion)
    ensures Filter(a + b, c) == Filter(a, c) + Filter(b, c)
    decreases |a|
  {
    if a == [] {
      assert a + b == b;
    } else {
      var head := if Keeps(c, a[0]) then [a[0]] else [];
      assert (a + b)[0] == a[0] && (a + b)[1..] == a[1..] + b;
      assert Filter(a + b, c) == head + Filter(a[1..] + b, c);
      FilterConcat(a[1..], b, c);
      assert Filter(a, c) == head + Filter(a[1..], c);
      AppendAssoc(head, Filter(a[1..], c), Filter(b, c));
    }
  }

  /** Filtering twice by the same test is filtering once (deleteCompleted
      applied twice). */
  lemma {:induction false} FilterIdempotent(l: seq<Todo>, c: Criterion)
    ensures Filter(Filter(l, c), c) == Filter(l, c)
    decreases |l|
  {
    if l != [] {
      var head := if Keeps(c, l[0]) then [l[0]] else [];
      FilterConcat(head, Filter(l[1..], c), c);
      FilterIdempotent(l[1..], c);
      if Keeps(c, l[0]) {
        assert [l[0]][1..] == [];
        assert Filter(head, c) == [l[0]] + Filter([], c);
      }
    }
  }

  /** Nothing is dropped exactly when every item passes. */
  lemma {:induction false} FilterKeepsAll(l: seq<Todo>, c: Criterion)
    ensures |Filter(l, c)| == |l| <==> forall i :: 0 <= i < |l| ==> Keeps(c, l[i])
    decreases |l|
  {
    if l != [] {
      FilterKeepsAll(l[1..], c);
      assert forall i :: 1 <= i < |l| ==> l[i] == l[1..][i - 1];
      if forall i :: 0 <= i < |l| ==> Keeps(c, l[i]) {
        assert forall i :: 0 <= i < |l[1..]| ==> Keeps(c, l[1..][i]);
      }
    }
  }

  /** Filtering keeps increasing ids increasing. */
  lemma {:induction false} FilterKeepsIncreasing(l: seq<Todo>, c: Criterion)
    requires Increasing(l)
    ensures Increasing(Filter(l, c))
    decreases |l|
  {
    if l != [] {
      IncreasingTail(l);
      FilterKeepsIncreasing(l[1..], c);
      if Keeps(c, l[0]) {
        var rest := Filter(l[1..], c);
        forall t | t in rest ensures l[0].id < t.id {
          IncreasingHead(l, t);
        }
        IncreasingCons(l[0], rest);
      }
    }
  }

  lemma IncreasingTail(l: seq<Todo>)
    requires Increasing(l) && l != []
    ensures Increasing(l[1..])
  {
    forall i, j | 0 <= i < j < |l[1..]| ensures l[1..][i].id < l[1..][j].id {
      assert l[1..][i] == l[i + 1] && l[1..][j] == l[j + 1];
    }
  }

  lemma IncreasingHead(l: seq<Todo>, t: Todo)
    requires Increasing(l) && l != [] && t in l[1..]
    ensures l[0].id < t.id
  {
    var k :| 0 <= k < |l[1..]| && l[1..][k] == t;
    assert l[1..][k] == l[k + 1];
  }

  lemma IncreasingCons(x: Todo, rest: seq<Todo>)
    requires Increasing(rest) && forall t :: t in rest ==> x.id < t.id
    ensures Increasing([x] + rest)
  {
    var r := [x] + rest;
    forall i, j | 0 <= i < j < |r| ensures r[i].id < r[j].id {
      assert r[j] == rest[j - 1];
      if i == 0 {
        assert rest[j - 1] in rest;
      } else {
        assert r[i] == rest[i - 1];
      }
    }
  }

  /** deleteTodo keeps exactly the items with another id, in order. */
  lemma DeleteTodoFacts(l: seq<Todo>, id: int)
    ensures forall t :: t in Filter(l, IdOtherThan(id)) <==> t in l && t.id != id
    ensures (forall j :: 0 <= j < |l| ==> l[j].id != id) ==> Filter(l, IdOtherThan(id)) == l
  {
    if forall j :: 0 <= j < |l| ==> l[j].id != id {
      FilterAllKept(l, IdOtherThan(id));
    }
  }

  /** When every item passes, filtering changes nothing. */
  lemma {:induction false} FilterAllKept(l: seq<Todo>, c: Criterion)
    requires forall j :: 0 <= j < |l| ==> Keeps(c, l[j])
    ensures Filter(l, c) == l
    decreases |l|
  {
    if l != [] {
      assert forall j :: 0 <= j < |l[1..]| ==> l[1..][j] == l[j + 1];
      FilterAllKept(l[1..], c);
      assert [l[0]] + l[1..] == l;
    }
  }

  // ----- toggleAll -----

  /** `amountActive` is not 0 exactly when some item is not completed. */
  lemma ActiveMeaning(l: seq<Todo>)
    ensures |l| - |Filter(l, Completed)| != 0 <==> exists i :: 0 <= i < |l| && !l[i].completed
  {
    FilterKeepsAll(l, Completed);
  }

  /** toggleAll completes everything when some item is active and clears
      everything otherwise, keeping ids, titles and order. */
  lemma ToggleAllFacts(l: seq<Todo>)
    ensures var r := AllToggled(l);
      && |r| == |l|
      && (forall i :: 0 <= i < |l| ==> r[i].id == l[i].id && r[i].title == l[i].title)
      && ((exists i :: 0 <= i < |l| && !l[i].completed) ==> forall i :: 0 <= i < |l| ==> r[i].completed)
      && ((forall i :: 0 <= i < |l| ==> l[i].completed) ==> forall i :: 0 <= i < |l| ==> !r[i].completed)
  {
    ActiveMeaning(l);
  }

  /** All items completed, or all active. */
  predicate Uniform(l: seq<Todo>)
  {
    forall i, j :: 0 <= i < |l| && 0 <= j < |l| ==> l[i].completed == l[j].completed
  }

  /** On a list whose items all agree, toggleAll flips them all, so a second
      toggleAll undoes the first; toggleAll always leaves such a list. */
  lemma ToggleAllTwice(l: seq<Todo>)
    ensures Uniform(AllToggled(l))
    ensures Uniform(l) ==> AllToggled(AllToggled(l)) == l
  {
    var r := AllToggled(l);
    ToggleAllFacts(l);
    if Uniform(l) && l != [] {
      ToggleAllFacts(r);
      var r2 := AllToggled(r);
      assert forall i :: 0 <= i < |l| ==> r2[i].completed == l[i].completed by {
        if l[0].completed {
          assert forall i :: 0 <= i < |l| ==> l[i].completed;
          assert !r[0].completed;
        } else {
          assert r[0].completed;
        }
      }
      assert forall i :: 0 <= i < |l| ==> r2[i] == l[i];
    }
  }

  // ----- the whole routing -----

  /** Every reducer keeps the ids increasing, so every id insertTodo hands out
      is fresh for as long as the list is only changed by these reducers. */
  lemma ReduceKeepsIncreasing(s: TodoState, a: Action)
    requires Increasing(s.list) && Reduce(s, a).Ok?
    ensures Increasing(Reduce(s, a).value.list)
  {
    match a
    case InsertTodoAction(p) => InsertKeepsIncreasing(s.list, p);
    case EditTodoAction(id, title) => EditFacts(s.list, id, title);
    case ToggleTodoAction(id) => ToggleFacts(s.list, id);
    case ToggleAllAction => ToggleAllFacts(s.list);
    case DeleteTodoAction(id) => FilterKeepsIncreasing(s.list, IdOtherThan(id));
    case DeleteCompletedAction => FilterKeepsIncreasing(s.list, NotCompleted);
    case InputValAction(_) =>
    case OtherAction(_) =>
  }

  /** The `{list, inputVal}` state object the reducers change in place. */
  class TodoList {
    var list: seq<Todo>
    var inputVal: string

    function State(): TodoState
      reads this
    {
      TodoState(list, inputVal)
    }

    constructor (s: TodoState)
      ensures State() == s
    {
      list := s.list;
      inputVal := s.inputVal;
    }

    /** insertTodo: `state.list.push(...)`. */
    method InsertTodo(payload: string)
      modifies this
      ensures State() == TodoState(Inserted(old(list), payload), old(inputVal))
    {
      var lastId := if |list| > 0 then list[|list| - 1].id else 0;
      list := list + [Todo(lastId + 1, payload, false)];
    }

    /** editTodo: the found item's title is assigned in place. */
    method EditTodo(id: int, title: string) returns (r: Outcome<Error>)
      modifies this
      ensures match Edited(old(list), id, title)
        case Ok(l) => r == Pass && State() == TodoState(l, old(inputVal))
        case Err(e) => r == Fail(e) && State() == old(State())
    {
      var found := Find(list, id);
      if found.None? {
        return Fail(TypeError);
      }
      var i := found.value;
      list := list[i := Todo(list[i].id, title, list[i].completed)];
      r := Pass;
    }

    /** toggleTodo: the found item's `completed` is negated in place. */
    method ToggleTodo(id: int) returns (r: Outcome<Error>)
      modifies this
      ensures match Toggled(old(list), id)
        case Ok(l) => r == Pass && State() == TodoState(l, old(inputVal))
        case Err(e) => r == Fail(e) && State() == old(State())
    {
      var found := Find(list, id);
      if found.None? {
        return Fail(TypeError);
      }
      var i := found.value;
      list := list[i := Todo(list[i].id, list[i].title, !list[i].completed)];
      r := Pass;
    }

    /** toggleAll: count the completed items, then the `forEach` loop assigns
        every item's `completed`. */
    method ToggleAll()
      modifies this
      ensures State() == TodoState(AllToggled(old(list)), old(inputVal))
    {
      var amountCompleted := |Filter(list, Completed)|;
      var amountActive := |list| - amountCompleted;
      var flag := amountActive != 0;
      ghost var target := SetCompleted(old(list), flag);
      var i := 0;
      while i < |list|
        invariant 0 <= i <= |list| == |old(list)|
        invariant forall j :: 0 <= j < i ==> list[j] == target[j]
        invariant forall j :: i <= j < |list| ==> list[j] == old(list)[j]
        invariant inputVal == old(inputVal)
      {
        list := list[i := Todo(list[i].id, list[i].title, flag)];
        i := i + 1;
      }
      assert list == target;
    }

    /** deleteTodo: `state.list` is reassigned to the filtered list. */
    method DeleteTodo(id: int)
      modifies this
      ensures State() == TodoState(Filter(old(list), IdOtherThan(id)), old(inputVal))
    {
      list := Filter(list, IdOtherThan(id));
    }

    /** deleteCompleted: `state.list` is reassigned to the active items. */
    method DeleteCompleted()
      modifies this
      ensures State() == TodoState(Filter(old(list), NotCompleted), old(inputVal))
    {
      list := Filter(list, NotCompleted);
    }

    /** inputVal: only `state.inputVal` is assigned. */
    method InputVal(payload: string)
      modifies this
      ensures State() == TodoState(old(list), payload)
    {
      inputVal := payload;
    }

    /** One action through the routes of reducers.js:1-31. */
    method Dispatch(a: Action) returns (r: Outcome<Error>)
      modifies this
      ensures match Reduce(old(State()), a)
        case Ok(s) => r == Pass && State() == s
        case Err(e) => r == Fail(e) && State() == old(State())
    {
      r := Pass;
      match a
      case InsertTodoAction(p) => InsertTodo(p);
      case EditTodoAction(id, title) => r := EditTodo(id, title);
      case ToggleTodoAction(id) => r := ToggleTodo(id);
      case ToggleAllAction => ToggleAll();
      case DeleteTodoAction(id) => DeleteTodo(id);
      case DeleteCompletedAction => DeleteCompleted();
      case InputValAction(p) => InputVal(p);
      case OtherAction(_) =>
    }
  }
}
