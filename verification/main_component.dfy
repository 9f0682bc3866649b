/**
 The main section's toggle-all checkbox. It is drawn from the list the main
 section receives, which is the visible (filtered) list, and ignores the
 `toggleAll` flag it is also handed.
 */
module MainComponent {
  import Seqs
  import Todos
  import App

  /** The `reduce` behind `completedCount`, from running count `count`. */
  function CompletedCountFrom(count: nat, ts: seq<Todos.Todo>): (r: nat)
    ensures r == count + |App.FilterTodos(ts, App.Completed)|
    ensures r <= count + |ts|
    ensures r == count + |ts| <==> forall i :: 0 <= i < |ts| ==> ts[i].completed
    decreases |ts|
  {
    Seqs.FilterKeepsLength(ts, App.IsCompleted);
    if ts == [] then count
    else
      var r := CompletedCountFrom(if ts[0].completed then count + 1 else count, ts[1..]);
      assert forall i :: 1 <= i < |ts| ==> ts[i] == ts[1..][i - 1];
      r
  }

  /** `completedCount`: how many of the received todos are completed, the
      same number the completed view would show. */
  function CompletedCount(ts: seq<Todos.Todo>): (r: nat)
    ensures r == |App.FilterTodos(ts, App.Completed)|
    ensures r <= |ts|
    ensures r == |ts| <==> forall i :: 0 <= i < |ts| ==> ts[i].completed
  {
    CompletedCountFrom(0, ts)
  }

  /** The checkbox's `checked` attribute. */
  function Checked(ts: seq<Todos.Todo>): (r: bool)
    ensures r <==> forall i :: 0 <= i < |ts| ==> ts[i].completed
    ensures ts == [] ==> r
  {
    CompletedCount(ts) == |ts|
  }

  /** Given the whole list, the box agrees with the view's `allCompleted`. */
  lemma CheckedOnFullList(ts: seq<Todos.Todo>)
    ensures Checked(ts) == App.AllCompleted(ts)
  {
  }

  /** The box as drawn: the main section receives the visible todos, so under
      the completed view the box is always checked, and under every other view
      it is checked exactly when every todo of the whole list is completed. */
  function CheckedInView(ts: seq<Todos.Todo>, v: App.Visibility): (r: bool)
    ensures v.Completed? ==> r
    ensures !v.Completed? ==> (r <==> forall i :: 0 <= i < |ts| ==> ts[i].completed)
  {
    var visible := App.FilterTodos(ts, v);
    if v.Completed? then
      assert forall i :: 0 <= i < |visible| ==> visible[i].completed by {
        forall i | 0 <= i < |visible|
          ensures visible[i].completed
        {
          Seqs.FilterMembers(ts, App.IsCompleted, visible[i]);
        }
      }
      Checked(visible)
    else if v.Active? then
      if forall i :: 0 <= i < |ts| ==> ts[i].completed then
        Seqs.FilterDropsAll(ts, App.IsActive);
        Checked(visible)
      else
        var k :| 0 <= k < |ts| && !ts[k].completed;
        assert multiset(visible)[ts[k]] > 0;
        assert !Checked(visible) by {
          var j :| 0 <= j < |visible| && visible[j] == ts[k];
        }
        Checked(visible)
    else
      Checked(visible)
  }

  /** Under the active view the box is unchecked whenever any todo shows. */
  lemma ActiveViewUnchecked(ts: seq<Todos.Todo>)
    requires App.FilterTodos(ts, App.Active) != []
    ensures !CheckedInView(ts, App.Active)
  {
    var visible := App.FilterTodos(ts, App.Active);
    Seqs.FilterMembers(ts, App.IsActive, visible[0]);
  }

  /** Under the completed view the box is always checked, even while some
      todo is still active; clicking it then completes every todo instead of
      clearing them, because the dispatched flag comes from the whole list. */
  lemma CompletedViewAlwaysChecked(s: Todos.Store)
    requires !App.AllCompleted(s.todos)
    ensures CheckedInView(s.todos, App.Completed)
    ensures var after := Todos.Reduce(s, App.OnToggleAllChange(s.todos));
      && CheckedInView(after.todos, App.Completed)
      && App.AllCompleted(after.todos)
  {
    var visible := App.FilterTodos(s.todos, App.Completed);
    forall i | 0 <= i < |visible|
      ensures visible[i].completed
    {
      Seqs.FilterMembers(s.todos, App.IsCompleted, visible[i]);
    }
    var after := Todos.Reduce(s, App.OnToggleAllChange(s.todos)).todos;
    var visibleAfter := App.FilterTodos(after, App.Completed);
    forall i | 0 <= i < |visibleAfter|
      ensures visibleAfter[i].completed
    {
      Seqs.FilterMembers(after, App.IsCompleted, visibleAfter[i]);
    }
  }
}
