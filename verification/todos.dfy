/**
 The todos reducer: a pure transition function from the current list of todos
 and an action to the next list. The JavaScript reducer keeps the id counter
 in a module-level variable that ADD_TODO post-increments; here it is threaded
 explicitly as part of the store, so the reducer stays a function.
 */
module Todos {
  import Seqs

  datatype Todo = Todo(id: int, value: string, completed: bool)

  /** The action kinds the reducer is written against. `RemoveCompletedTodos`
      and `Other` (every other action type, such as the visibility filter's)
      have no case of their own and fall through to the default. */
  datatype Action =
    | AddTodo(value: string)
    | ToggleTodo(id: int)
    | ToggleAllTodos(completed: bool)
    | ChangeTodo(id: int, value: string)
    | RemoveTodo(id: int)
    | RemoveCompletedTodos
    | Other(kind: string)

  /** The reducer's list together with the counter that assigns the next id. */
  datatype Store = Store(todos: seq<Todo>, nextId: int)

  /** The list the reducer starts from, and the counter's first value. */
  const InitialTodos: seq<Todo> := [Todo(0, "Test", false)]
  const Initial: Store := Store(InitialTodos, 1)

  /** No two todos share an id. */
  ghost predicate UniqueIds(ts: seq<Todo>) {
    forall i, j :: 0 <= i < j < |ts| ==> ts[i].id != ts[j].id
  }

  /** Every id in the list was handed out by the counter already. */
  ghost predicate IdsBelow(ts: seq<Todo>, bound: int) {
    forall i :: 0 <= i < |ts| ==> ts[i].id < bound
  }

  /** The store invariant: ids are pairwise distinct and below the counter,
      so the next id assigned is fresh. */
  ghost predicate Valid(s: Store) {
    UniqueIds(s.todos) && IdsBelow(s.todos, s.nextId)
  }

  /** The ids present in the list. */
  ghost predicate HasId(ts: seq<Todo>, id: int) {
    exists i :: 0 <= i < |ts| && ts[i].id == id
  }

  // ---------------------------------------------------------------------------
  // One function per case of the reducer's switch

  /** ADD_TODO: a new, not yet completed todo carrying the counter's value as
      its id goes at the end; the value is taken as given, even when empty. */
  function Add(s: Store, value: string): (r: Store)
    ensures |r.todos| == |s.todos| + 1
    ensures r.todos[..|s.todos|] == s.todos
    ensures r.todos[|s.todos|] == Todo(s.nextId, value, false)
    ensures r.nextId == s.nextId + 1
  {
    Store(s.todos + [Todo(s.nextId, value, false)], s.nextId + 1)
  }

  /** TOGGLE_TODO: flips `completed` on the todos whose id matches, keeping
      everything else, position included. */
  function Toggle(ts: seq<Todo>, id: int): (r: seq<Todo>)
    ensures |r| == |ts|
    ensures forall i :: 0 <= i < |ts| ==>
      && r[i].id == ts[i].id
      && r[i].value == ts[i].value
      && r[i].completed == (if ts[i].id == id then !ts[i].completed else ts[i].completed)
  {
    Seqs.Map(ts, (t: Todo) => if t.id != id then t else t.(completed := !t.completed))
  }

  /** TOGGLE_ALL_TODOS: every todo ends up with the given `completed` flag,
      whatever it had before; ids, values and order stay. */
  function ToggleAll(ts: seq<Todo>, completed: bool): (r: seq<Todo>)
    ensures |r| == |ts|
    ensures forall i :: 0 <= i < |ts| ==>
      && r[i].id == ts[i].id
      && r[i].value == ts[i].value
      && r[i].completed == completed
  {
    Seqs.Map(ts, (t: Todo) => t.(completed := completed))
  }

  /** CHANGE_TODO: replaces `value` on the todos whose id matches; ids,
      `completed` flags and order stay. */
  function Change(ts: seq<Todo>, id: int, value: string): (r: seq<Todo>)
    ensures |r| == |ts|
    ensures forall i :: 0 <= i < |ts| ==>
      && r[i].id == ts[i].id
      && r[i].completed == ts[i].completed
      && r[i].value == (if ts[i].id == id then value else ts[i].value)
  {
    Seqs.Map(ts, (t: Todo) => if t.id != id then t else t.(value := value))
  }

  /** REMOVE_TODO: the order-preserving subsequence of the todos whose id
      differs from the given one; every such todo survives. */
  function Remove(ts: seq<Todo>, id: int): (r: seq<Todo>)
    ensures Seqs.Subseq(r, ts)
    ensures forall x :: multiset(r)[x] == if x.id != id then multiset(ts)[x] else 0
  {
    Seqs.Filter(ts, (t: Todo) => t.id != id)
  }

  /** The reducer. It never fails: an action it has no case for, including a
      remove-completed request, leaves the store as it is. Only ADD_TODO moves
      the counter. */
  function Reduce(s: Store, a: Action): (r: Store)
    ensures r.nextId == s.nextId + (if a.AddTodo? then 1 else 0)
    ensures a.RemoveCompletedTodos? || a.Other? ==> r == s
  {
    match a
    case AddTodo(value) => Add(s, value)
    case ToggleTodo(id) => s.(todos := Toggle(s.todos, id))
    case ToggleAllTodos(completed) => s.(todos := ToggleAll(s.todos, completed))
    case ChangeTodo(id, value) => s.(todos := Change(s.todos, id, value))
    case RemoveTodo(id) => s.(todos := Remove(s.todos, id))
    case RemoveCompletedTodos => s
    case Other(_) => s
  }

  /** The store after dispatching each action in turn. */
  function ReduceAll(s: Store, actions: seq<Action>): Store
    decreases |actions|
  {
    if actions == [] then s else ReduceAll(Reduce(s, actions[0]), actions[1..])
  }

  /** How many of the actions add a todo. */
  function CountAdds(actions: seq<Action>): nat {
    if actions == [] then 0 else (if actions[0].AddTodo? then 1 else 0) + CountAdds(actions[1..])
  }

  // ---------------------------------------------------------------------------
  // The id invariant

  lemma InitialIsValid()
    ensures Valid(Initial)
  {
  }

  /** Filtering never introduces two todos with the same id. */
  lemma {:induction false} FilterKeepsUniqueIds(ts: seq<Todo>, p: Todo -> bool)
    requires UniqueIds(ts)
    ensures UniqueIds(Seqs.Filter(ts, p))
  {
    if ts != [] {
      var rest := ts[1..];
      assert UniqueIds(rest);
      FilterKeepsUniqueIds(rest, p);
      if p(ts[0]) {
        var r := Seqs.Filter(ts, p);
        assert r == [ts[0]] + Seqs.Filter(rest, p);
        forall j | 1 <= j < |r|
          ensures r[0].id != r[j].id
        {
          Seqs.FilterMembers(rest, p, r[j]);
          var k :| 0 <= k < |rest| && rest[k] == r[j];
          assert ts[k + 1] == r[j];
        }
      }
    }
  }

  /** From the initial store the first added todo gets id 1, after the
      initial todo with id 0. */
  lemma FirstAddAfterInitial(value: string)
    ensures Reduce(Initial, AddTodo(value))
      == Store([Todo(0, "Test", false), Todo(1, value, false)], 2)
  {
  }

  /** Every action keeps ids pairwise distinct and below the counter. */
  lemma ReducePreservesValid(s: Store, a: Action)
    requires Valid(s)
    ensures Valid(Reduce(s, a))
  {
    match a
    case AddTodo(value) =>
      var r := Reduce(s, a);
      assert r.todos == s.todos + [Todo(s.nextId, value, false)];
    case RemoveTodo(id) =>
      var r := Remove(s.todos, id);
      FilterKeepsUniqueIds(s.todos, (t: Todo) => t.id != id);
      forall i | 0 <= i < |r|
        ensures r[i].id < s.nextId
      {
        assert multiset(r)[r[i]] > 0;
      }
    case _ =>
  }

  /** The invariant holds after any sequence of dispatches. */
  lemma {:induction false} ReduceAllPreservesValid(s: Store, actions: seq<Action>)
    requires Valid(s)
    ensures Valid(ReduceAll(s, actions))
    decreases |actions|
  {
    if actions != [] {
      ReducePreservesValid(s, actions[0]);
      ReduceAllPreservesValid(Reduce(s, actions[0]), actions[1..]);
    }
  }

  /** The counter only moves forward, by one per added todo, so an id is
      never handed out twice, even after its todo is removed. */
  lemma {:induction false} ReduceAllCounter(s: Store, actions: seq<Action>)
    ensures ReduceAll(s, actions).nextId == s.nextId + CountAdds(actions)
    decreases |actions|
  {
    if actions != [] {
      ReduceAllCounter(Reduce(s, actions[0]), actions[1..]);
    }
  }

  /** Starting from the initial store, whatever is dispatched, ids stay
      pairwise distinct and the counter equals one plus the number of adds. */
  lemma DispatchedIdsUnique(actions: seq<Action>)
    ensures UniqueIds(ReduceAll(Initial, actions).todos)
    ensures ReduceAll(Initial, actions).nextId == 1 + CountAdds(actions)
  {
    InitialIsValid();
    ReduceAllPreservesValid(Initial, actions);
    ReduceAllCounter(Initial, actions);
  }

  // ---------------------------------------------------------------------------
  // Properties of the individual cases

  /** Toggling the same id twice restores the store. */
  lemma ToggleTwice(s: Store, id: int)
    ensures Reduce(Reduce(s, ToggleTodo(id)), ToggleTodo(id)) == s
  {
    var once := Toggle(s.todos, id);
    var twice := Toggle(once, id);
    assert |twice| == |s.todos|;
    forall i | 0 <= i < |twice|
      ensures twice[i] == s.todos[i]
    {
    }
  }

  /** Toggling all to the same flag a second time changes nothing. */
  lemma ToggleAllIdempotent(s: Store, completed: bool)
    ensures var once := Reduce(s, ToggleAllTodos(completed));
      Reduce(once, ToggleAllTodos(completed)) == once
  {
    var once := ToggleAll(s.todos, completed);
    var twice := ToggleAll(once, completed);
    forall i | 0 <= i < |twice|
      ensures twice[i] == once[i]
    {
    }
  }

  /** Toggling, editing or removing an id that no todo carries leaves the
      store as it was. */
  lemma MissingIdIsNoOp(s: Store, a: Action)
    requires a.ToggleTodo? || a.ChangeTodo? || a.RemoveTodo?
    requires !HasId(s.todos, a.id)
    ensures Reduce(s, a) == s
  {
    var r := Reduce(s, a).todos;
    if a.RemoveTodo? {
      Seqs.FilterKeepsAll(s.todos, (t: Todo) => t.id != a.id);
    } else {
      forall i | 0 <= i < |r|
        ensures r[i] == s.todos[i]
      {
        assert s.todos[i].id != a.id;
      }
    }
  }

  /** With unique ids, removing the id of the todo at position `k` removes
      exactly that todo and keeps the others in order. */
  lemma RemovePresentId(ts: seq<Todo>, k: int)
    requires UniqueIds(ts)
    requires 0 <= k < |ts|
    ensures Remove(ts, ts[k].id) == ts[..k] + ts[k + 1..]
  {
    var id := ts[k].id;
    var p := (t: Todo) => t.id != id;
    var pre, post := ts[..k], ts[k + 1..];
    assert ts == pre + ([ts[k]] + post);
    forall i | 0 <= i < |pre|
      ensures p(pre[i])
    {
      assert pre[i] == ts[i];
    }
    forall i | 0 <= i < |post|
      ensures p(post[i])
    {
      assert post[i] == ts[k + 1 + i];
    }
    Seqs.FilterKeepsAll(pre, p);
    Seqs.FilterKeepsAll(post, p);
    Seqs.FilterDropsAll([ts[k]], p);
    Seqs.FilterConcat([ts[k]], post, p);
    Seqs.FilterConcat(pre, [ts[k]] + post, p);
  }
}
