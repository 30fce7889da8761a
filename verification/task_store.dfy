/** The task screen's collection operations: add, toggle and delete, each a
    whole-list transform whose result becomes both the in-memory list and
    the value written under the storage key "tasks"; and the load that runs
    when the screen mounts. */
module TaskStore {
  import opened Tasks
  import opened Sequences

  /** What `AsyncStorage.getItem('tasks')` yields: nothing (null, or the
      empty string, which the screen's truthiness test treats alike), a
      readable task list, or a value that `JSON.parse` rejects. */
  datatype Stored = Absent | Blob(tasks: seq<Task>) | Unreadable

  /** The screen's in-memory list next to the durable copy. */
  datatype Screen = Screen(tasks: seq<Task>, stored: Stored)

  /** The screen starts with an empty list before anything is loaded. */
  function Mount(stored: Stored): (s: Screen)
    ensures s.tasks == [] && s.stored == stored
  {
    Screen([], stored)
  }

  /** `loadTasks`: a readable stored list replaces the in-memory one; an
      absent or unreadable value leaves the in-memory list as it was (the
      parse error is only logged). */
  function Load(s: Screen): (r: Screen)
    ensures r.stored == s.stored
    ensures s.stored.Blob? ==> r.tasks == s.stored.tasks
    ensures !s.stored.Blob? ==> r == s
  {
    match s.stored
    case Blob(ts) => s.(tasks := ts)
    case _ => s
  }

  /** The task `handleAddTask` builds from the submitted fields, a fresh id
      and the creation day. */
  function NewTask(f: TaskFields, id: string, now: Day): (t: Task)
    ensures !t.completed && t.id == id && t.createdAt == now
    ensures t.title == f.title && t.description == f.description && t.dueDate == f.dueDate
    ensures t.priority == f.priority && t.category == f.category
  {
    Task(id, f.title, f.description, f.dueDate, f.priority, f.category, false, now)
  }

  /** `handleAddTask`'s list: the old list with one new, not completed task
      after it. The id is not checked against the ids already present. */
  function AddTask(ts: seq<Task>, f: TaskFields, id: string, now: Day): (r: seq<Task>)
    ensures |r| == |ts| + 1
    ensures r[..|ts|] == ts
    ensures r[|ts|] == NewTask(f, id, now)
  {
    ts + [NewTask(f, id, now)]
  }

  /** Toggling one task: only `completed` may change, and it changes exactly
      when the id matches. */
  function Flip(t: Task, id: string): (r: Task)
    ensures r.completed == (t.completed != (t.id == id))
    ensures r.(completed := t.completed) == t
  {
    if t.id == id then t.(completed := !t.completed) else t
  }

  /** `handleToggleTask`'s list: same length and order, every task with a
      matching id has its completion flag flipped, and nothing else changes. */
  function ToggleTask(ts: seq<Task>, id: string): (r: seq<Task>)
    ensures |r| == |ts|
    ensures forall i :: 0 <= i < |ts| ==> r[i] == Flip(ts[i], id)
  {
    seq(|ts|, i requires 0 <= i < |ts| => Flip(ts[i], id))
  }

  /** `handleDeleteTask`'s list: exactly the tasks whose id differs, in
      their original order. */
  function DeleteTask(ts: seq<Task>, id: string): (r: seq<Task>)
    ensures IsSubsequence(r, ts)
    ensures forall t :: t in r <==> t in ts && t.id != id
    ensures |r| == |ts| - Count(ts, WithId(id))
  {
    if ts == [] then []
    else
      var init, last := ts[..|ts| - 1], ts[|ts| - 1];
      var r := DeleteTask(init, id);
      assert ts == init + [last];
      if last.id != id then r + [last]
      else
        assert r == (r + [last])[..|r|];
        r
  }

  /** A task with another id is kept as often as it is listed; one with
      the deleted id is gone. */
  lemma {:induction false} DeleteMultiplicity(ts: seq<Task>, id: string, t: Task)
    ensures multiset(DeleteTask(ts, id))[t] == if t.id != id then multiset(ts)[t] else 0
  {
    if ts != [] {
      var init, last := ts[..|ts| - 1], ts[|ts| - 1];
      DeleteMultiplicity(init, id, t);
      assert ts == init + [last];
      DeleteSnoc(init, last, id);
      var kept := DeleteTask(init, id);
      if last.id != id {
        assert multiset(kept + [last]) == multiset(kept) + multiset{last};
      }
    }
  }

  /** Deleting from a list with one more task at the end deletes from the
      list and keeps that task exactly when its id differs. */
  lemma DeleteSnoc(ts: seq<Task>, e: Task, id: string)
    ensures DeleteTask(ts + [e], id) == DeleteTask(ts, id) + (if e.id != id then [e] else [])
  {
    assert (ts + [e])[..|ts|] == ts;
  }

  /** The three mutations the task list and the form can ask for. */
  datatype Mutation =
    | Add(fields: TaskFields, id: string, now: Day)
    | Toggle(id: string)
    | Delete(id: string)

  function Apply(ts: seq<Task>, m: Mutation): seq<Task> {
    match m
    case Add(f, id, now) => AddTask(ts, f, id, now)
    case Toggle(id) => ToggleTask(ts, id)
    case Delete(id) => DeleteTask(ts, id)
  }

  /** One mutation as the screen performs it: the new list becomes the
      in-memory list; when the write succeeds it also becomes the stored
      value, and when it fails (the error is only logged) the stored value
      is what it was. */
  function Commit(s: Screen, m: Mutation, written: bool): (r: Screen)
    ensures r.tasks == Apply(s.tasks, m)
    ensures written ==> r.stored == Blob(r.tasks)
    ensures !written ==> r.stored == s.stored
  {
    var ts := Apply(s.tasks, m);
    Screen(ts, if written then Blob(ts) else s.stored)
  }

  /** The durable copy equals the in-memory list. */
  predicate Synced(s: Screen) {
    s.stored == Blob(s.tasks)
  }

  /** A run of mutations, each with whether its write succeeded. */
  function Run(s: Screen, steps: seq<(Mutation, bool)>): Screen
    decreases |steps|
  {
    if steps == [] then s
    else Run(Commit(s, steps[0].0, steps[0].1), steps[1..])
  }

  /** After a mutation whose write succeeded, reloading gives back the
      in-memory list: loading is the inverse of the write. */
  lemma CommitThenLoad(s: Screen, m: Mutation)
    ensures Synced(Commit(s, m, true))
    ensures Load(Commit(s, m, true)) == Commit(s, m, true)
  {
  }

  /** If every write in a run succeeds, the stored value tracks the
      in-memory list after every step; in particular after the last one. */
  lemma {:induction false} RunStaysSynced(s: Screen, steps: seq<(Mutation, bool)>)
    requires Synced(s) || steps != []
    requires forall k :: 0 <= k < |steps| ==> steps[k].1
    ensures Synced(Run(s, steps))
    decreases |steps|
  {
    if steps != [] {
      var s' := Commit(s, steps[0].0, steps[0].1);
      RunStaysSynced(s', steps[1..]);
    }
  }

  /** Adding keeps every old task where it was and adds one task that is
      not completed. */
  lemma AddCounts(ts: seq<Task>, f: TaskFields, id: string, now: Day, c: Criterion)
    ensures Count(AddTask(ts, f, id, now), c)
         == Count(ts, c) + (if Satisfies(NewTask(f, id, now), c) then 1 else 0)
    ensures Count(AddTask(ts, f, id, now), Done) == Count(ts, Done)
  {
    assert AddTask(ts, f, id, now)[..|ts|] == ts;
  }

  /** Ids stay unique after an add exactly when the new id is not already
      present; nothing in the add itself checks this. */
  lemma AddKeepsIdsUnique(ts: seq<Task>, f: TaskFields, id: string, now: Day)
    requires UniqueIds(ts)
    ensures UniqueIds(AddTask(ts, f, id, now)) <==> !HasId(ts, id)
  {
    var r := AddTask(ts, f, id, now);
    if HasId(ts, id) {
      var i :| 0 <= i < |ts| && ts[i].id == id;
      assert r[i].id == r[|ts|].id;
    }
  }

  /** Toggling the same id twice gives back the original list. */
  lemma ToggleInvolution(ts: seq<Task>, id: string)
    ensures ToggleTask(ToggleTask(ts, id), id) == ts
  {
  }

  /** Toggling an id no task carries changes nothing. */
  lemma ToggleAbsent(ts: seq<Task>, id: string)
    requires !HasId(ts, id)
    ensures ToggleTask(ts, id) == ts
  {
  }

  /** Toggling keeps every id where it was, so unique ids stay unique. */
  lemma ToggleKeepsIdsUnique(ts: seq<Task>, id: string)
    requires UniqueIds(ts)
    ensures UniqueIds(ToggleTask(ts, id))
  {
  }

  /** Toggling moves the completed count up by the matching tasks that
      were pending and down by the matching tasks that were completed. */
  lemma {:induction false} ToggleCompletedCount(ts: seq<Task>, id: string)
    ensures Count(ToggleTask(ts, id), Done) + Count(ts, WithIdAndStatus(id, true))
         == Count(ts, Done) + Count(ts, WithIdAndStatus(id, false))
  {
    if ts != [] {
      var init := ts[..|ts| - 1];
      ToggleCompletedCount(init, id);
      assert ToggleTask(ts, id)[..|init|] == ToggleTask(init, id);
    }
  }

  /** With unique ids, toggling the task at position `i` moves the completed
      count by exactly one, towards that task's new flag. */
  lemma ToggleUniqueCompletedCount(ts: seq<Task>, i: int)
    requires UniqueIds(ts) && 0 <= i < |ts|
    ensures Count(ToggleTask(ts, ts[i].id), Done)
         == if ts[i].completed then Count(ts, Done) - 1 else Count(ts, Done) + 1
  {
    var id := ts[i].id;
    ToggleCompletedCount(ts, id);
    UniqueIdsCount(ts, id);
    CountSplit(ts, WithId(id), WithIdAndStatus(id, true), WithIdAndStatus(id, false));
    var other := WithIdAndStatus(id, !ts[i].completed);
    CountZero(ts, other);
    assert Count(ts, other) == 0 by {
      forall j | 0 <= j < |ts|
        ensures !Satisfies(ts[j], other)
      {
        if ts[j].id == id {
          assert j == i;
        }
      }
    }
  }

  /** Deleting twice is deleting once. */
  lemma DeleteIdempotent(ts: seq<Task>, id: string)
    ensures DeleteTask(DeleteTask(ts, id), id) == DeleteTask(ts, id)
  {
    DeleteAbsent(DeleteTask(ts, id), id);
  }

  /** Deleting an id no task carries changes nothing. */
  lemma {:induction false} DeleteAbsent(ts: seq<Task>, id: string)
    requires !HasId(ts, id)
    ensures DeleteTask(ts, id) == ts
  {
    if ts != [] {
      var init := ts[..|ts| - 1];
      DeleteAbsent(init, id);
      assert ts == init + [ts[|ts| - 1]];
    }
  }

  /** Deleting a task just added under a fresh id gives back the list from
      before the add. */
  lemma DeleteUndoesAdd(ts: seq<Task>, f: TaskFields, id: string, now: Day)
    requires !HasId(ts, id)
    ensures DeleteTask(AddTask(ts, f, id, now), id) == ts
  {
    var r := AddTask(ts, f, id, now);
    assert r[..|r| - 1] == ts;
    DeleteAbsent(ts, id);
  }

  /** Deleting keeps the ids it keeps, so unique ids stay unique. */
  lemma {:induction false} DeleteKeepsIdsUnique(ts: seq<Task>, id: string)
    requires UniqueIds(ts)
    ensures UniqueIds(DeleteTask(ts, id))
  {
    if ts != [] {
      var init, last := ts[..|ts| - 1], ts[|ts| - 1];
      DeleteKeepsIdsUnique(init, id);
      var d := DeleteTask(init, id);
      if last.id != id {
        var r := d + [last];
        forall i | 0 <= i < |d|
          ensures d[i].id != last.id
        {
          assert d[i] in init;
          var k :| 0 <= k < |init| && init[k] == d[i];
          assert ts[k].id != ts[|ts| - 1].id;
        }
      }
    }
  }
}
