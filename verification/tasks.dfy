/** The task record shared by every screen, and counting over a collection
    of tasks. */
module Tasks {
  import Text

  /** A calendar day, counted in whole days. Due dates and creation dates are
      only ever compared or bucketed by day, so a day number is all the model
      keeps of them. */
  type Day = int

  datatype Priority = Low | Medium | High

  datatype Task = Task(
    id: string,
    title: string,
    description: string,
    dueDate: Day,
    priority: Priority,
    category: string,
    completed: bool,
    createdAt: Day)

  /** What the form hands to the task screen: a task without `id`,
      `completed` and `createdAt`. */
  datatype TaskFields = TaskFields(
    title: string,
    description: string,
    dueDate: Day,
    priority: Priority,
    category: string)

  /** The conditions the app filters and counts tasks by. */
  datatype Criterion =
    | WithId(id: string)
    | WithIdAndStatus(id: string, completed: bool)
    | WithPriority(priority: Priority)
    | InCategory(category: string)
    | Done
    | DoneCreatedOn(day: Day)
    | DoneCreatedWithin(from: Day, until: Day)  // from <= createdAt < until

  predicate Satisfies(t: Task, c: Criterion) {
    match c
    case WithId(id) => t.id == id
    case WithIdAndStatus(id, done) => t.id == id && t.completed == done
    case WithPriority(p) => t.priority == p
    case InCategory(name) => t.category == name
    case Done => t.completed
    case DoneCreatedOn(day) => t.completed && t.createdAt == day
    case DoneCreatedWithin(from, until) => t.completed && from <= t.createdAt < until
  }

  /** `tasks.filter(t => c).length`. */
  function Count(ts: seq<Task>, c: Criterion): (n: nat)
    ensures n <= |ts|
  {
    if ts == [] then 0
    else Count(ts[..|ts| - 1], c) + (if Satisfies(ts[|ts| - 1], c) then 1 else 0)
  }

  /** No task satisfies `c` exactly when the count is zero. */
  lemma {:induction false} CountZero(ts: seq<Task>, c: Criterion)
    ensures Count(ts, c) == 0 <==> forall i :: 0 <= i < |ts| ==> !Satisfies(ts[i], c)
  {
    if ts != [] {
      CountZero(ts[..|ts| - 1], c);
    }
  }

  /** Appending one task adds one to the count exactly when it qualifies. */
  lemma CountSnoc(ts: seq<Task>, t: Task, c: Criterion)
    ensures Count(ts + [t], c) == Count(ts, c) + (if Satisfies(t, c) then 1 else 0)
  {
    assert (ts + [t])[..|ts|] == ts;
  }

  /** Counting distributes over concatenation. */
  lemma {:induction false} CountAppend(a: seq<Task>, b: seq<Task>, c: Criterion)
    ensures Count(a + b, c) == Count(a, c) + Count(b, c)
    decreases |b|
  {
    if b != [] {
      var ab := a + b;
      assert ab[..|ab| - 1] == a + b[..|b| - 1];
      assert ab[|ab| - 1] == b[|b| - 1];
      CountAppend(a, b[..|b| - 1], c);
    } else {
      assert a + b == a;
    }
  }

  /** A criterion implied by another counts at least as many tasks. */
  lemma {:induction false} CountMonotone(ts: seq<Task>, weaker: Criterion, stronger: Criterion)
    requires forall t :: Satisfies(t, stronger) ==> Satisfies(t, weaker)
    ensures Count(ts, stronger) <= Count(ts, weaker)
  {
    if ts != [] {
      CountMonotone(ts[..|ts| - 1], weaker, stronger);
    }
  }

  /** Counting by a criterion that is the disjoint union of two others adds
      their counts. */
  lemma {:induction false} CountSplit(ts: seq<Task>, whole: Criterion, left: Criterion, right: Criterion)
    requires forall t :: Satisfies(t, whole) <==> Satisfies(t, left) || Satisfies(t, right)
    requires forall t :: !(Satisfies(t, left) && Satisfies(t, right))
    ensures Count(ts, whole) == Count(ts, left) + Count(ts, right)
  {
    if ts != [] {
      CountSplit(ts[..|ts| - 1], whole, left, right);
    }
  }

  /** Some task in the collection carries `id`. */
  predicate HasId(ts: seq<Task>, id: string) {
    exists i :: 0 <= i < |ts| && ts[i].id == id
  }

  /** No two tasks share an id. */
  predicate UniqueIds(ts: seq<Task>) {
    forall i, j :: 0 <= i < |ts| && 0 <= j < |ts| && ts[i].id == ts[j].id ==> i == j
  }

  /** With unique ids, at most one task carries any given id. */
  lemma {:induction false} UniqueIdsCount(ts: seq<Task>, id: string)
    requires UniqueIds(ts)
    ensures Count(ts, WithId(id)) == if HasId(ts, id) then 1 else 0
  {
    if ts != [] {
      var init := ts[..|ts| - 1];
      UniqueIdsCount(init, id);
      if ts[|ts| - 1].id != id && HasId(ts, id) {
        var i :| 0 <= i < |ts| && ts[i].id == id;
        assert init[i].id == id;
      }
    }
  }

  /** Every task has a title that is not blank once trimmed. */
  predicate AllTitled(ts: seq<Task>) {
    forall i :: 0 <= i < |ts| ==> !Text.AllWhitespace(ts[i].title)
  }
}
