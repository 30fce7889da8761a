/** The task screen put together: the form's submit feeds `handleAddTask`,
    the list shows the tasks in display order, and the list's buttons feed
    toggle and delete. */
module Home {
  import opened Tasks
  import Text
  import TaskStore
  import TaskForm
  import TaskOrder

  /** The task screen and its form. */
  datatype Page = Page(screen: TaskStore.Screen, form: TaskForm.Form)

  /** Pressing "Add Task": the form decides whether anything is submitted;
      a submitted task is added under the id and creation day the screen
      supplies, and `written` says whether storing the new list succeeded. */
  function PressAdd(h: Page, today: Day, id: string, now: Day, written: bool): (r: Page)
    ensures Text.AllWhitespace(h.form.title) ==> r == h
    ensures !Text.AllWhitespace(h.form.title) ==>
      && r.form == TaskForm.Initial(today)
      && r.screen.tasks == h.screen.tasks + [TaskStore.NewTask(
           TaskFields(h.form.title, h.form.description, h.form.dueDate, h.form.priority, h.form.category),
           id, now)]
  {
    var out := TaskForm.Submit(h.form, today);
    match out.emitted
    case None => Page(h.screen, out.form)
    case Some(fields) => Page(TaskStore.Commit(h.screen, TaskStore.Add(fields, id, now), written), out.form)
  }

  /** A mutation the screen can produce: an added task always comes from the
      form, so its title is not blank. */
  predicate FromScreen(m: TaskStore.Mutation) {
    m.Add? ==> !Text.AllWhitespace(m.fields.title)
  }

  /** Mutations from the screen keep every title non-blank. */
  lemma ApplyKeepsTitled(ts: seq<Task>, m: TaskStore.Mutation)
    requires AllTitled(ts) && FromScreen(m)
    ensures AllTitled(TaskStore.Apply(ts, m))
  {
    var r := TaskStore.Apply(ts, m);
    forall i | 0 <= i < |r|
      ensures !Text.AllWhitespace(r[i].title)
    {
      if m.Delete? {
        assert r[i] in ts;
      }
    }
  }

  /** Pressing "Add Task" keeps every title in the list non-blank. */
  lemma PressAddKeepsTitled(h: Page, today: Day, id: string, now: Day, written: bool)
    requires AllTitled(h.screen.tasks)
    ensures AllTitled(PressAdd(h, today, id, now, written).screen.tasks)
  {
    var out := TaskForm.Submit(h.form, today);
    if out.emitted.Some? {
      ApplyKeepsTitled(h.screen.tasks, TaskStore.Add(out.emitted.value, id, now));
    }
  }

  /** What the list shows: the tasks in display order. */
  function Shown(h: Page): (r: seq<Task>)
    ensures multiset(r) == multiset(h.screen.tasks)
    ensures TaskOrder.Sorted(r)
  {
    TaskOrder.Sort(h.screen.tasks)
  }

  /** Toggling a task through the list changes what is shown only in that
      task's flag and place: the shown tasks are the toggled list's tasks. */
  lemma ToggleShown(h: Page, id: string, written: bool)
    ensures var h' := h.(screen := TaskStore.Commit(h.screen, TaskStore.Toggle(id), written));
      multiset(Shown(h')) == multiset(TaskStore.ToggleTask(h.screen.tasks, id))
  {
  }

  /** Deleting through the list shows the list shown before with the
      deleted task taken out, every other task keeping its place. */
  lemma DeleteShown(h: Page, id: string, written: bool)
    ensures var h' := h.(screen := TaskStore.Commit(h.screen, TaskStore.Delete(id), written));
      Shown(h') == TaskStore.DeleteTask(Shown(h), id)
  {
    SortCommutesWithDelete(h.screen.tasks, id);
  }

  /** Sorting and then deleting gives the same list as deleting and then
      sorting: both are sorted, hold the same tasks and keep every group of
      ties in list order, and only one list does that. */
  lemma SortCommutesWithDelete(s: seq<Task>, id: string)
    ensures TaskOrder.Sort(TaskStore.DeleteTask(s, id)) == TaskStore.DeleteTask(TaskOrder.Sort(s), id)
  {
    var d, r := TaskStore.DeleteTask(s, id), TaskStore.DeleteTask(TaskOrder.Sort(s), id);
    DeleteKeepsSorted(TaskOrder.Sort(s), id);
    forall e
      ensures multiset(r)[e] == multiset(d)[e]
    {
      TaskStore.DeleteMultiplicity(TaskOrder.Sort(s), id, e);
      TaskStore.DeleteMultiplicity(s, id, e);
    }
    assert multiset(r) == multiset(d);
    forall t
      ensures TaskOrder.Ties(r, t) == TaskOrder.Ties(d, t)
    {
      DeleteTies(TaskOrder.Sort(s), id, t);
      TaskOrder.SortStable(s, t);
      DeleteTies(s, id, t);
    }
    assert TaskOrder.SameTies(r, d);
    TaskOrder.StableSortIsUnique(d, r);
  }

  /** Deleting from a sorted list leaves it sorted. */
  lemma {:induction false} DeleteKeepsSorted(s: seq<Task>, id: string)
    requires TaskOrder.Sorted(s)
    ensures TaskOrder.Sorted(TaskStore.DeleteTask(s, id))
  {
    if s != [] {
      var init, last := s[..|s| - 1], s[|s| - 1];
      assert s == init + [last];
      assert TaskOrder.Sorted(init);
      DeleteKeepsSorted(init, id);
      TaskStore.DeleteSnoc(init, last, id);
      var front := TaskStore.DeleteTask(init, id);
      if last.id != id {
        forall i | 0 <= i < |front|
          ensures TaskOrder.KeyLe(front[i], last)
        {
          assert front[i] in front;
          var k :| 0 <= k < |init| && init[k] == front[i];
          assert s[k] == front[i];
        }
        TaskOrder.SortedSnoc(front, last);
      }
    }
  }

  /** The ties of the tasks a delete keeps are the kept ties. */
  lemma {:induction false} DeleteTies(s: seq<Task>, id: string, t: Task)
    ensures TaskOrder.Ties(TaskStore.DeleteTask(s, id), t) == TaskStore.DeleteTask(TaskOrder.Ties(s, t), id)
  {
    if s != [] {
      var init, last := s[..|s| - 1], s[|s| - 1];
      assert s == init + [last];
      DeleteTies(init, id, t);
      TaskStore.DeleteSnoc(init, last, id);
      TaskOrder.TiesSnoc(init, last, t);
      var front, ties := TaskStore.DeleteTask(init, id), TaskOrder.Ties(init, t);
      if last.id != id {
        TaskOrder.TiesSnoc(front, last, t);
      }
      if TaskOrder.SameKey(last, t) {
        TaskStore.DeleteSnoc(ties, last, id);
      } else {
        assert ties + [] == ties;
      }
      if last.id == id {
        assert front + [] == front;
      }
    }
  }
}
