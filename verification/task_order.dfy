/** The order the task list shows: pending tasks before completed ones,
    each group by due date, earliest first. The list is a sorted copy made
    with a stable sort, so tasks that tie keep the order they have in the
    task list. */
module TaskOrder {
  import opened Tasks

  /** The order the comparator describes: by completion (pending first),
      then by due date. */
  predicate KeyLe(a: Task, b: Task) {
    (!a.completed && b.completed) || (a.completed == b.completed && a.dueDate <= b.dueDate)
  }

  /** `a` and `b` tie. */
  predicate SameKey(a: Task, b: Task) {
    a.completed == b.completed && a.dueDate == b.dueDate
  }

  /** The list's comparator: negative when `a` goes first, positive when
      `b` does, zero when they tie. It allows `a` before `b` exactly when
      the key order does and ties exactly on equal keys. Dates are day
      numbers here, so the difference is in days rather than milliseconds;
      only its sign matters to the sort. */
  function Compare(a: Task, b: Task): (r: int)
    ensures r <= 0 <==> KeyLe(a, b)
    ensures r == 0 <==> SameKey(a, b)
  {
    if a.completed == b.completed then a.dueDate - b.dueDate
    else if a.completed then 1 else -1
  }

  /** The comparator is consistent, as `Array.prototype.sort` needs:
      swapping the arguments flips the sign. */
  lemma CompareConsistent(a: Task, b: Task)
    ensures Compare(b, a) == -Compare(a, b)
  {
  }

  /** The key order is total and transitive. */
  lemma KeyLeTotalPreorder(a: Task, b: Task, c: Task)
    ensures KeyLe(a, b) || KeyLe(b, a)
    ensures KeyLe(a, b) && KeyLe(b, c) ==> KeyLe(a, c)
    ensures KeyLe(a, b) && KeyLe(b, a) <==> SameKey(a, b)
  {
  }

  predicate Sorted(s: seq<Task>) {
    forall i, j :: 0 <= i < j < |s| ==> KeyLe(s[i], s[j])
  }

  /** The tasks of `s` that tie with `t`, in their order in `s`. */
  function Ties(s: seq<Task>, t: Task): seq<Task> {
    if s == [] then []
    else Ties(s[..|s| - 1], t) + (if SameKey(s[|s| - 1], t) then [s[|s| - 1]] else [])
  }

  /** Inserting `x` after every task that does not come after it. */
  function Insert(x: Task, s: seq<Task>): (r: seq<Task>)
    ensures |r| == |s| + 1
    ensures multiset(r) == multiset(s) + multiset{x}
    ensures forall t :: t in r <==> t == x || t in s
  {
    if s == [] then [x]
    else
      var init, last := s[..|s| - 1], s[|s| - 1];
      assert s == init + [last];
      if Compare(last, x) <= 0 then s + [x]
      else Insert(x, init) + [last]
  }

  /** Appending a task adds it to its own group of ties. */
  lemma TiesSnoc(s: seq<Task>, e: Task, t: Task)
    ensures Ties(s + [e], t) == Ties(s, t) + (if SameKey(e, t) then [e] else [])
  {
    assert (s + [e])[..|s|] == s;
  }

  /** `x` lands behind the tasks it ties with. */
  lemma {:induction false} InsertTies(x: Task, s: seq<Task>, t: Task)
    ensures Ties(Insert(x, s), t) == Ties(s, t) + (if SameKey(x, t) then [x] else [])
  {
    if s == [] {
      TiesSnoc([], x, t);
      assert [] + [x] == [x];
    } else {
      var init, last := s[..|s| - 1], s[|s| - 1];
      assert s == init + [last];
      if Compare(last, x) <= 0 {
        assert Insert(x, s) == s + [x];
        TiesSnoc(s, x, t);
      } else {
        assert !SameKey(last, x);
        InsertTies(x, init, t);
        var front := Insert(x, init);
        assert Insert(x, s) == front + [last];
        TiesSnoc(front, last, t);
        TiesSnoc(init, last, t);
      }
    }
  }

  /** Inserting into a sorted list keeps it sorted. */
  lemma {:induction false} InsertSorted(x: Task, s: seq<Task>)
    requires Sorted(s)
    ensures Sorted(Insert(x, s))
  {
    if s != [] {
      var init, last := s[..|s| - 1], s[|s| - 1];
      assert s == init + [last];
      if Compare(last, x) > 0 {
        InsertSorted(x, init);
        var front := Insert(x, init);
        assert Insert(x, s) == front + [last];
        forall i | 0 <= i < |front|
          ensures KeyLe(front[i], last)
        {
          if front[i] != x {
            assert front[i] in init;
            var k :| 0 <= k < |init| && init[k] == front[i];
            assert s[k] == front[i];
          }
        }
        SortedSnoc(front, last);
      } else {
        assert Insert(x, s) == s + [x];
        forall i | 0 <= i < |s|
          ensures KeyLe(s[i], x)
        {
          assert KeyLe(s[i], last);
        }
        SortedSnoc(s, x);
      }
    }
  }

  /** Appending a task that no listed task comes after keeps a list sorted. */
  lemma SortedSnoc(s: seq<Task>, y: Task)
    requires Sorted(s)
    requires forall i :: 0 <= i < |s| ==> KeyLe(s[i], y)
    ensures Sorted(s + [y])
  {
  }

  /** The list's sorted copy, computed by insertion sort, one task at a time
      from the front of the list. Any stable sort gives the same list
      (`StableSortIsUnique`). */
  function Sort(s: seq<Task>): (r: seq<Task>)
    ensures multiset(r) == multiset(s)
    ensures Sorted(r)
  {
    if s == [] then []
    else
      var init := s[..|s| - 1];
      assert s == init + [s[|s| - 1]];
      InsertSorted(s[|s| - 1], Sort(init));
      Insert(s[|s| - 1], Sort(init))
  }

  /** The sort is stable: tasks that tie appear in the order they have in
      the task list. */
  lemma {:induction false} SortStable(s: seq<Task>, t: Task)
    ensures Ties(Sort(s), t) == Ties(s, t)
  {
    if s != [] {
      var init := s[..|s| - 1];
      SortStable(init, t);
      InsertTies(s[|s| - 1], Sort(init), t);
    }
  }

  /** Every pending task is listed before every completed one, and within
      each group due dates never decrease. */
  lemma PendingFirst(s: seq<Task>)
    ensures forall i, j :: 0 <= i < j < |Sort(s)| && Sort(s)[i].completed ==> Sort(s)[j].completed
    ensures forall i, j :: 0 <= i < j < |Sort(s)| && Sort(s)[i].completed == Sort(s)[j].completed ==>
              Sort(s)[i].dueDate <= Sort(s)[j].dueDate
  {
  }

  /** A list already in order is left as it is. */
  lemma {:induction false} SortKeepsSorted(s: seq<Task>)
    requires Sorted(s)
    ensures Sort(s) == s
  {
    if s != [] {
      var init, last := s[..|s| - 1], s[|s| - 1];
      assert s == init + [last];
      assert Sorted(init);
      SortKeepsSorted(init);
      assert Sort(s) == Insert(last, init);
      if init != [] {
        assert KeyLe(init[|init| - 1], last);
        assert Insert(last, init) == init + [last];
      }
    }
  }

  /** Sorting twice is sorting once. */
  lemma SortIdempotent(s: seq<Task>)
    ensures Sort(Sort(s)) == Sort(s)
  {
    SortKeepsSorted(Sort(s));
  }

  /** In a sorted list every task comes no later than the last one. */
  lemma SortedLast(s: seq<Task>, e: Task)
    requires Sorted(s) && s != [] && e in s
    ensures KeyLe(e, s[|s| - 1])
  {
    var k :| 0 <= k < |s| && s[k] == e;
    if k == |s| - 1 {
      KeyLeTotalPreorder(e, e, e);
    }
  }

  /** `a` and `b` list the tasks of every group of ties in the same order. */
  ghost predicate SameTies(a: seq<Task>, b: seq<Task>) {
    forall t :: Ties(a, t) == Ties(b, t)
  }

  /** Two sorted lists with the same tasks, whose tasks appear in the same
      order within every group of ties, are the same list. */
  lemma {:induction false} TiesDetermine(a: seq<Task>, b: seq<Task>)
    requires Sorted(a) && Sorted(b) && multiset(a) == multiset(b)
    requires SameTies(a, b)
    ensures a == b
    decreases |a|
  {
    if a != [] {
      DropLast(a, b);
      TiesDetermine(a[..|a| - 1], b[..|b| - 1]);
      assert a == a[..|a| - 1] + [a[|a| - 1]];
      assert b == b[..|b| - 1] + [b[|b| - 1]];
    } else {
      assert |b| == |multiset(b)| == |multiset(a)| == 0;
    }
  }

  /** Two such lists end with the same task, and without it they are again
      two such lists. */
  lemma DropLast(a: seq<Task>, b: seq<Task>)
    requires Sorted(a) && Sorted(b) && multiset(a) == multiset(b)
    requires SameTies(a, b)
    requires a != []
    ensures b != [] && a[|a| - 1] == b[|b| - 1]
    ensures Sorted(a[..|a| - 1]) && Sorted(b[..|b| - 1])
    ensures multiset(a[..|a| - 1]) == multiset(b[..|b| - 1])
    ensures SameTies(a[..|a| - 1], b[..|b| - 1])
  {
    assert |b| == |multiset(b)| == |multiset(a)| == |a|;
    var a', x := a[..|a| - 1], a[|a| - 1];
    var b', y := b[..|b| - 1], b[|b| - 1];
    assert a == a' + [x] && b == b' + [y];
    assert Ties(a, x) == Ties(b, x);
    LastSame(a', x, b', y);
    TiesInit(a', b', x);
    SnocParts(a', x);
    SnocParts(b', x);
  }

  /** Without its last task a sorted list is sorted and has one copy of
      that task fewer. */
  lemma SnocParts(a: seq<Task>, x: Task)
    ensures multiset(a) == multiset(a + [x]) - multiset{x}
    ensures Sorted(a + [x]) ==> Sorted(a)
  {
    assert forall i :: 0 <= i < |a| ==> (a + [x])[i] == a[i];
  }

  /** Two sorted lists with the same tasks whose groups of ties agree end
      with the same task. */
  lemma LastSame(a: seq<Task>, x: Task, b: seq<Task>, y: Task)
    requires Sorted(a + [x]) && Sorted(b + [y]) && multiset(a + [x]) == multiset(b + [y])
    requires Ties(a + [x], x) == Ties(b + [y], x)
    ensures x == y
  {
    assert y in multiset(b + [y]) && x in multiset(a + [x]);
    SortedLast(a + [x], y);
    SortedLast(b + [y], x);
    LastAgree(a, x, b, y);
  }

  /** Two lists that end with tasks that tie, and whose groups of ties with
      the first of them agree, end with the same task. */
  lemma LastAgree(a: seq<Task>, x: Task, b: seq<Task>, y: Task)
    requires KeyLe(x, y) && KeyLe(y, x)
    requires Ties(a + [x], x) == Ties(b + [y], x)
    ensures x == y
  {
    TiesSnoc(a, x, x);
    TiesSnoc(b, y, x);
    var ta, tb := Ties(a, x) + [x], Ties(b, x) + [y];
    assert ta[|ta| - 1] == x && tb[|tb| - 1] == y;
  }

  /** Dropping the same last task from two lists with the same groups of
      ties leaves lists with the same groups of ties. */
  lemma TiesInit(a: seq<Task>, b: seq<Task>, x: Task)
    requires SameTies(a + [x], b + [x])
    ensures SameTies(a, b)
  {
    forall t
      ensures Ties(a, t) == Ties(b, t)
    {
      TiesSnoc(a, x, t);
      TiesSnoc(b, x, t);
      var tail := if SameKey(x, t) then [x] else [];
      assert Ties(a, t) == (Ties(a, t) + tail)[..|Ties(a, t)|];
      assert Ties(b, t) == (Ties(b, t) + tail)[..|Ties(b, t)|];
    }
  }

  /** Any sorted permutation of the list that keeps every group of ties in
      list order is the list `Sort` computes: a stable sort with this
      comparator has exactly one possible result. */
  lemma StableSortIsUnique(s: seq<Task>, r: seq<Task>)
    requires multiset(r) == multiset(s) && Sorted(r)
    requires SameTies(r, s)
    ensures r == Sort(s)
  {
    forall t
      ensures Ties(r, t) == Ties(Sort(s), t)
    {
      SortStable(s, t);
    }
    TiesDetermine(r, Sort(s));
  }
}
