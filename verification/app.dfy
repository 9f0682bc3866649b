/**
 The top-level view's logic: the visibility selector, the `allCompleted`
 flag computed from the store, and how the two input handlers turn user
 events into actions for the todos reducer.
 */
module App {
  import opened Options
  import Seqs
  import Strings
  import Todos

  /** The key code that submits the new-todo input. */
  const EnterKey: int := 13

  /** The visibility filter's value. `Other` is every value that is neither
      the completed nor the active one, the show-all value included. */
  datatype Visibility = Completed | Active | Other(name: string)

  predicate IsCompleted(t: Todos.Todo) {
    t.completed
  }

  predicate IsActive(t: Todos.Todo) {
    !t.completed
  }

  /** `filterFunc`: the todos the current visibility shows, in list order. */
  function FilterTodos(ts: seq<Todos.Todo>, v: Visibility): (r: seq<Todos.Todo>)
    ensures v.Completed? ==> Seqs.IsFilterOf(r, ts, IsCompleted)
    ensures v.Active? ==> Seqs.IsFilterOf(r, ts, IsActive)
    ensures v.Other? ==> r == ts
  {
    match v
    case Completed =>
      Seqs.FilterIsFilterOf(ts, IsCompleted);
      Seqs.Filter(ts, IsCompleted)
    case Active =>
      Seqs.FilterIsFilterOf(ts, IsActive);
      Seqs.Filter(ts, IsActive)
    case Other(_) => ts
  }

  /** The `reduce` with `&&` behind `allCompleted`, from accumulator `acc`. */
  function AllCompletedFrom(acc: bool, ts: seq<Todos.Todo>): (r: bool)
    ensures r <==> acc && forall i :: 0 <= i < |ts| ==> ts[i].completed
  {
    if ts == [] then acc else AllCompletedFrom(acc && ts[0].completed, ts[1..])
  }

  /** `allCompleted`: the fold starts from `true`, so an empty list counts as
      all completed. */
  function AllCompleted(ts: seq<Todos.Todo>): (r: bool)
    ensures r <==> forall i :: 0 <= i < |ts| ==> ts[i].completed
    ensures ts == [] ==> r
  {
    AllCompletedFrom(true, ts)
  }

  /** `onToggleAllChange`: the action the toggle-all box dispatches. It reads
      the `allCompleted` prop, which is derived from the whole list, not the
      box's own state: it completes every todo exactly when some todo is still
      active, and otherwise marks every todo active. */
  function OnToggleAllChange(todos: seq<Todos.Todo>): (r: Todos.Action)
    ensures r.ToggleAllTodos?
    ensures r.completed <==> exists i :: 0 <= i < |todos| && !todos[i].completed
  {
    Todos.ToggleAllTodos(!AllCompleted(todos))
  }

  /** What a key press in the new-todo input leads to: the action dispatched,
      if any, and the input's text afterwards. */
  datatype Submission = Submission(dispatched: Option<Todos.Action>, todoInput: string)

  /** `handleSubmit`: any key but Enter is ignored. Enter dispatches an add of
      the trimmed input, blank or not, and clears the input. */
  function HandleSubmit(keyCode: int, todoInput: string): (r: Submission)
    ensures keyCode != EnterKey ==> r == Submission(None, todoInput)
    ensures keyCode == EnterKey ==>
      && r.todoInput == ""
      && r.dispatched.Some? && r.dispatched.value.AddTodo?
      && Strings.TrimmedFrom(r.dispatched.value.value, todoInput)
  {
    if keyCode != EnterKey then Submission(None, todoInput)
    else Submission(Some(Todos.AddTodo(Strings.Trim(todoInput))), "")
  }

  /** The store after an optional dispatch. */
  function Dispatch(s: Todos.Store, d: Option<Todos.Action>): Todos.Store {
    match d
    case None => s
    case Some(a) => Todos.Reduce(s, a)
  }

  // ---------------------------------------------------------------------------
  // Properties of the view logic

  /** The active and the completed views split the list: their lengths add up
      to the list's, every todo is in exactly one of them, and each holds only
      todos of its kind. */
  lemma ViewsPartition(ts: seq<Todos.Todo>)
    ensures var active, done := FilterTodos(ts, Active), FilterTodos(ts, Completed);
      && |active| + |done| == |ts|
      && multiset(active) + multiset(done) == multiset(ts)
      && (forall x :: x in active ==> !x.completed)
      && (forall x :: x in done ==> x.completed)
  {
    var active, done := FilterTodos(ts, Active), FilterTodos(ts, Completed);
    Seqs.FilterPartition(ts, IsActive, IsCompleted);
    forall x | x in active
      ensures !x.completed
    {
      Seqs.FilterMembers(ts, IsActive, x);
    }
    forall x | x in done
      ensures x.completed
    {
      Seqs.FilterMembers(ts, IsCompleted, x);
    }
  }

  /** On a non-empty list, clicking toggle-all flips `allCompleted`. */
  lemma ToggleAllFlipsAllCompleted(s: Todos.Store)
    requires s.todos != []
    ensures AllCompleted(Todos.Reduce(s, OnToggleAllChange(s.todos)).todos)
      == !AllCompleted(s.todos)
  {
    var after := Todos.Reduce(s, OnToggleAllChange(s.todos)).todos;
    assert after[0].completed == !AllCompleted(s.todos);
  }

  /** On an empty list the click dispatches toggle-all to `false`, and the
      flag stays `true`. */
  lemma ToggleAllOnEmptyList(s: Todos.Store)
    requires s.todos == []
    ensures OnToggleAllChange(s.todos) == Todos.ToggleAllTodos(false)
    ensures AllCompleted(Todos.Reduce(s, OnToggleAllChange(s.todos)).todos)
  {
  }

  /** Pressing Enter adds exactly one todo at the end, carrying the trimmed
      input and a fresh id, and leaves the earlier todos as they were. */
  lemma EnterAddsTrimmedTodo(s: Todos.Store, todoInput: string)
    requires Todos.Valid(s)
    ensures var after := Dispatch(s, HandleSubmit(EnterKey, todoInput).dispatched);
      && Todos.Valid(after)
      && |after.todos| == |s.todos| + 1
      && after.todos[..|s.todos|] == s.todos
      && after.todos[|s.todos|].value == Strings.Trim(todoInput)
      && !after.todos[|s.todos|].completed
      && !Todos.HasId(s.todos, after.todos[|s.todos|].id)
  {
    var a := HandleSubmit(EnterKey, todoInput).dispatched.value;
    Todos.ReducePreservesValid(s, a);
  }

  /** There is no emptiness check: Enter on a blank input adds a todo whose
      value is the empty string. */
  lemma EnterOnBlankInputAddsEmptyTodo(s: Todos.Store, todoInput: string)
    requires Strings.AllWhitespace(todoInput)
    ensures var after := Dispatch(s, HandleSubmit(EnterKey, todoInput).dispatched);
      && |after.todos| == |s.todos| + 1
      && after.todos[|s.todos|].value == ""
  {
    Strings.TrimAllWhitespace(todoInput);
  }
}
