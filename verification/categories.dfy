/** Grouping tasks by category the way the analytics hook does it: a
    `reduce` into a plain object, `acc[category] = (acc[category] || 0) + 1`,
    read back with `Object.entries`. An object lists its own string keys in
    the order of section 10.1.11.1 of ECMA-262 (OrdinaryOwnPropertyKeys):
    keys that are array indices first, in ascending numeric order, then the
    other keys in the order they were created. */
module Categories {
  import opened Tasks

  /** One own property of the accumulator: a category and its count. */
  datatype Entry = Entry(name: string, value: nat)

  predicate DistinctNames(es: seq<Entry>) {
    forall i, j :: 0 <= i < j < |es| ==> es[i].name != es[j].name
  }

  predicate HasName(es: seq<Entry>, name: string) {
    exists i :: 0 <= i < |es| && es[i].name == name
  }

  /** The sum of the counts. */
  function Total(es: seq<Entry>): nat {
    if es == [] then 0 else Total(es[..|es| - 1]) + es[|es| - 1].value
  }

  lemma {:induction false} TotalAppend(a: seq<Entry>, b: seq<Entry>)
    ensures Total(a + b) == Total(a) + Total(b)
    decreases |b|
  {
    if b == [] {
      assert a + b == a;
    } else {
      var ab := a + b;
      assert ab[..|ab| - 1] == a + b[..|b| - 1];
      TotalAppend(a, b[..|b| - 1]);
    }
  }

  /** Raising one count by one raises the total by one. */
  lemma {:induction false} TotalBump(es: seq<Entry>, k: int, e: Entry)
    requires 0 <= k < |es| && e.value == es[k].value + 1
    ensures Total(es[k := e]) == Total(es) + 1
  {
    var init := es[..|es| - 1];
    if k == |es| - 1 {
      assert es[k := e] == init + [e];
      TotalAppend(init, [e]);
    } else {
      TotalBump(init, k, e);
      assert es[k := e] == init[k := e] + [es[|es| - 1]];
      TotalAppend(init[k := e], [es[|es| - 1]]);
    }
  }

  /** The position of the property called `name`, or `|es|` if there is none. */
  function Find(es: seq<Entry>, name: string): (k: nat)
    ensures k <= |es|
    ensures k < |es| ==> es[k].name == name
    ensures forall i :: 0 <= i < k ==> es[i].name != name
  {
    if es == [] then 0
    else if es[0].name == name then 0
    else 1 + Find(es[1..], name)
  }

  /** One step of the reduce: an existing property is raised by one, a new
      one is created at the end with count one. Names and their positions
      are kept, and every other property is left alone. */
  function Bump(es: seq<Entry>, name: string): (r: seq<Entry>)
    ensures |es| <= |r| <= |es| + 1
    ensures forall i :: 0 <= i < |es| ==> r[i].name == es[i].name
    ensures forall i :: 0 <= i < |es| && es[i].name != name ==> r[i] == es[i]
    ensures DistinctNames(es) ==>
      forall i :: 0 <= i < |es| && es[i].name == name ==> r[i].value == es[i].value + 1
    ensures |r| == |es| + 1 <==> !HasName(es, name)
    ensures |r| == |es| + 1 ==> r[|es|] == Entry(name, 1)
  {
    var k := Find(es, name);
    if k < |es| then es[k := Entry(name, es[k].value + 1)]
    else es + [Entry(name, 1)]
  }

  /** The position of the first task in category `name`, or `|ts|` if no
      task is in it. */
  function FirstIn(ts: seq<Task>, name: string): (k: nat)
    ensures k <= |ts|
    ensures k < |ts| ==> ts[k].category == name
    ensures forall i :: 0 <= i < k ==> ts[i].category != name
  {
    if ts == [] then 0
    else if ts[0].category == name then 0
    else 1 + FirstIn(ts[1..], name)
  }

  /** A category occurs in the list exactly when its first position is in
      range. */
  lemma FirstInOccurs(ts: seq<Task>, name: string)
    ensures Count(ts, InCategory(name)) > 0 <==> FirstIn(ts, name) < |ts|
  {
    CountZero(ts, InCategory(name));
  }

  /** Appending a task does not move a first position that is in range, and
      a category that did not occur now first occurs at the end or later. */
  lemma FirstInSnoc(ts: seq<Task>, t: Task, name: string)
    ensures FirstIn(ts, name) < |ts| ==> FirstIn(ts + [t], name) == FirstIn(ts, name)
    ensures FirstIn(ts, name) == |ts| ==> FirstIn(ts + [t], name) >= |ts|
  {
    var k, k' := FirstIn(ts, name), FirstIn(ts + [t], name);
    if k < |ts| {
      assert (ts + [t])[k].category == name;
    }
  }

  predicate Counts(ts: seq<Task>, es: seq<Entry>) {
    forall i :: 0 <= i < |es| ==> es[i].value == Count(ts, InCategory(es[i].name)) >= 1
  }

  predicate Covers(ts: seq<Task>, es: seq<Entry>) {
    forall k :: 0 <= k < |ts| ==> HasName(es, ts[k].category)
  }

  predicate FirstSeenOrder(ts: seq<Task>, es: seq<Entry>) {
    forall i, j :: 0 <= i < j < |es| ==> FirstIn(ts, es[i].name) < FirstIn(ts, es[j].name)
  }

  /** What the accumulator holds after the tasks in `ts`: one property per
      distinct category, counting that category's tasks, in the order the
      categories first occur, with counts adding up to the number of tasks. */
  predicate TallyOf(ts: seq<Task>, es: seq<Entry>) {
    && DistinctNames(es)
    && Counts(ts, es)
    && Covers(ts, es)
    && Total(es) == |ts|
    && FirstSeenOrder(ts, es)
  }

  lemma BumpDistinct(es: seq<Entry>, c: string)
    requires DistinctNames(es)
    ensures DistinctNames(Bump(es, c))
  {
  }

  lemma BumpCounts(ts: seq<Task>, es: seq<Entry>, t: Task)
    requires DistinctNames(es) && Counts(ts, es) && Covers(ts, es)
    ensures Counts(ts + [t], Bump(es, t.category))
  {
    var r, c := Bump(es, t.category), t.category;
    forall i | 0 <= i < |r|
      ensures r[i].value == Count(ts + [t], InCategory(r[i].name)) >= 1
    {
      CountSnoc(ts, t, InCategory(r[i].name));
      if i == |es| {
        CountZero(ts, InCategory(c));
      }
    }
  }

  lemma BumpCovers(ts: seq<Task>, es: seq<Entry>, t: Task)
    requires Covers(ts, es)
    ensures Covers(ts + [t], Bump(es, t.category))
  {
    var ts', r, c := ts + [t], Bump(es, t.category), t.category;
    forall m | 0 <= m < |ts'|
      ensures HasName(r, ts'[m].category)
    {
      if m < |ts| {
        assert ts'[m] == ts[m];
        var i :| 0 <= i < |es| && es[i].name == ts[m].category;
        assert r[i].name == es[i].name;
      } else if HasName(es, c) {
        var i :| 0 <= i < |es| && es[i].name == c;
        assert r[i].name == c;
      } else {
        assert r[|es|].name == c;
      }
    }
  }

  lemma BumpTotal(es: seq<Entry>, c: string)
    ensures Total(Bump(es, c)) == Total(es) + 1
  {
    var k := Find(es, c);
    if k < |es| {
      TotalBump(es, k, Entry(c, es[k].value + 1));
    } else {
      TotalAppend(es, [Entry(c, 1)]);
    }
  }

  lemma BumpOrder(ts: seq<Task>, es: seq<Entry>, t: Task)
    requires Counts(ts, es) && Covers(ts, es) && FirstSeenOrder(ts, es)
    ensures FirstSeenOrder(ts + [t], Bump(es, t.category))
  {
    var r, c := Bump(es, t.category), t.category;
    forall i | 0 <= i < |es|
      ensures FirstIn(ts + [t], es[i].name) == FirstIn(ts, es[i].name) < |ts|
    {
      FirstInOccurs(ts, es[i].name);
      FirstInSnoc(ts, t, es[i].name);
    }
    if |r| == |es| + 1 {
      FirstInSnoc(ts, t, c);
      FirstInCovered(ts, es, c);
    }
  }

  /** A category some task is in has a property. */
  lemma FirstInCovered(ts: seq<Task>, es: seq<Entry>, c: string)
    requires Covers(ts, es)
    ensures FirstIn(ts, c) < |ts| ==> HasName(es, c)
  {
    if FirstIn(ts, c) < |ts| {
      assert HasName(es, ts[FirstIn(ts, c)].category);
    }
  }

  /** One step of the reduce keeps the accumulator a tally of the tasks seen. */
  lemma BumpTally(ts: seq<Task>, es: seq<Entry>)
    requires ts != [] && TallyOf(ts[..|ts| - 1], es)
    ensures TallyOf(ts, Bump(es, ts[|ts| - 1].category))
  {
    var init, t := ts[..|ts| - 1], ts[|ts| - 1];
    assert ts == init + [t];
    BumpDistinct(es, t.category);
    BumpCounts(init, es, t);
    BumpCovers(init, es, t);
    BumpTotal(es, t.category);
    BumpOrder(init, es, t);
  }

  /** The accumulator after the reduce, its properties in creation order:
      one per distinct category, each counting the tasks in that category,
      in the order the categories first occur, with counts that add up to
      the number of tasks. */
  function Tally(ts: seq<Task>): (es: seq<Entry>)
    ensures TallyOf(ts, es)
  {
    if ts == [] then []
    else
      var es := Tally(ts[..|ts| - 1]);
      BumpTally(ts, es);
      Bump(es, ts[|ts| - 1].category)
  }

  // ----- Array-index keys -----

  predicate IsDigit(c: char) {
    '0' <= c <= '9'
  }

  function DigitValue(c: char): nat
    requires IsDigit(c)
  {
    c as int - '0' as int
  }

  /** The number a string of decimal digits denotes. */
  function DecimalValue(s: string): nat
    requires forall i :: 0 <= i < |s| ==> IsDigit(s[i])
  {
    if s == [] then 0
    else 10 * DecimalValue(s[..|s| - 1]) + DigitValue(s[|s| - 1])
  }

  /** A key that is an array index: the canonical decimal form (no sign, no
      leading zero) of an integer from 0 to 2^32 - 2. */
  predicate IsArrayIndex(name: string) {
    && |name| > 0
    && (forall i :: 0 <= i < |name| ==> IsDigit(name[i]))
    && (name[0] != '0' || |name| == 1)
    && DecimalValue(name) < 0xFFFF_FFFF
  }

  /** The numeric value an entry is ordered by among array-index keys. */
  function IndexValue(e: Entry): nat {
    if IsArrayIndex(e.name) then DecimalValue(e.name) else 0
  }

  predicate AllIndexKeys(es: seq<Entry>, indexKeys: bool) {
    forall i :: 0 <= i < |es| ==> IsArrayIndex(es[i].name) == indexKeys
  }

  /** The entries whose key is (or, with `indexKeys` false, is not) an array
      index, in their original order. */
  function Select(es: seq<Entry>, indexKeys: bool): (r: seq<Entry>)
    ensures AllIndexKeys(r, indexKeys)
    ensures forall e :: e in r <==> e in es && IsArrayIndex(e.name) == indexKeys
  {
    if es == [] then []
    else
      var init, last := es[..|es| - 1], es[|es| - 1];
      assert es == init + [last];
      Select(init, indexKeys) + (if IsArrayIndex(last.name) == indexKeys then [last] else [])
  }

  /** The two selections split the entries. */
  lemma {:induction false} SelectPartition(es: seq<Entry>)
    ensures multiset(Select(es, true)) + multiset(Select(es, false)) == multiset(es)
  {
    if es != [] {
      var init, last := es[..|es| - 1], es[|es| - 1];
      assert es == init + [last];
      SelectPartition(init);
      SelectSnoc(init, last, true);
      SelectSnoc(init, last, false);
    }
  }

  /** The two selections split the total. */
  lemma {:induction false} SelectTotal(es: seq<Entry>)
    ensures Total(Select(es, true)) + Total(Select(es, false)) == Total(es)
  {
    if es != [] {
      var init, last := es[..|es| - 1], es[|es| - 1];
      assert es == init + [last];
      SelectTotal(init);
      SelectSnoc(init, last, true);
      SelectSnoc(init, last, false);
      var a, b := Select(init, true), Select(init, false);
      assert Total(es) == Total(init) + last.value;
      if IsArrayIndex(last.name) {
        assert Select(es, true) == a + [last] && Select(es, false) == b + [];
        TotalAppend(a, [last]);
        assert b + [] == b;
      } else {
        assert Select(es, true) == a + [] && Select(es, false) == b + [last];
        TotalAppend(b, [last]);
        assert a + [] == a;
      }
    }
  }

  lemma SelectSnoc(es: seq<Entry>, x: Entry, indexKeys: bool)
    ensures Select(es + [x], indexKeys)
         == Select(es, indexKeys) + (if IsArrayIndex(x.name) == indexKeys then [x] else [])
  {
    assert (es + [x])[..|es|] == es;
  }

  /** Appending an entry whose name is new and whose category first occurs
      after every listed one keeps names distinct and in first-seen order. */
  lemma OrderedSnoc(ts: seq<Task>, es: seq<Entry>, x: Entry)
    requires DistinctNames(es) && FirstSeenOrder(ts, es)
    requires forall i :: 0 <= i < |es| ==>
      es[i].name != x.name && FirstIn(ts, es[i].name) < FirstIn(ts, x.name)
    ensures DistinctNames(es + [x]) && FirstSeenOrder(ts, es + [x])
  {
  }

  /** Selecting keeps names distinct and keeps the first-seen order. */
  lemma {:induction false} SelectKeepsOrder(ts: seq<Task>, es: seq<Entry>, indexKeys: bool)
    requires DistinctNames(es) && FirstSeenOrder(ts, es)
    ensures DistinctNames(Select(es, indexKeys)) && FirstSeenOrder(ts, Select(es, indexKeys))
  {
    if es != [] {
      var init, last := es[..|es| - 1], es[|es| - 1];
      assert es == init + [last];
      SelectKeepsOrder(ts, init, indexKeys);
      var s := Select(init, indexKeys);
      SelectSnoc(init, last, indexKeys);
      if IsArrayIndex(last.name) == indexKeys {
        forall i | 0 <= i < |s|
          ensures s[i].name != last.name && FirstIn(ts, s[i].name) < FirstIn(ts, last.name)
        {
          assert s[i] in init;
          var k :| 0 <= k < |init| && init[k] == s[i];
          assert es[k] == s[i];
        }
        OrderedSnoc(ts, s, last);
      }
    }
  }

  predicate SortedByIndex(es: seq<Entry>) {
    forall i, j :: 0 <= i < j < |es| ==> IndexValue(es[i]) <= IndexValue(es[j])
  }

  /** Inserting one entry before the first entry whose index value is not
      smaller. */
  function InsertByIndex(x: Entry, es: seq<Entry>): (r: seq<Entry>)
    ensures forall e :: e in r <==> e == x || e in es
    ensures multiset(r) == multiset{x} + multiset(es)
    ensures Total(r) == x.value + Total(es)
  {
    if es == [] then
      assert [x] == [] + [x];
      [x]
    else if IndexValue(x) <= IndexValue(es[0]) then
      TotalAppend([x], es);
      [x] + es
    else
      var rest := InsertByIndex(x, es[1..]);
      assert es == [es[0]] + es[1..];
      TotalAppend([es[0]], es[1..]);
      TotalAppend([es[0]], rest);
      [es[0]] + rest
  }

  /** Inserting into a sorted list keeps it sorted. */
  lemma {:induction false} InsertByIndexSorted(x: Entry, es: seq<Entry>)
    requires SortedByIndex(es)
    ensures SortedByIndex(InsertByIndex(x, es))
  {
    if es != [] && IndexValue(x) > IndexValue(es[0]) {
      var head, tail := es[0], es[1..];
      assert SortedByIndex(tail);
      InsertByIndexSorted(x, tail);
      var rest := InsertByIndex(x, tail);
      forall j | 0 <= j < |rest|
        ensures IndexValue(head) <= IndexValue(rest[j])
      {
        assert rest[j] in rest;
        if rest[j] != x {
          var k :| 0 <= k < |tail| && tail[k] == rest[j];
          assert es[k + 1] == rest[j];
        }
      }
      assert InsertByIndex(x, es) == [head] + rest;
    }
  }

  /** Sorting array-index entries into ascending numeric order. */
  function SortByIndex(es: seq<Entry>): (r: seq<Entry>)
    ensures forall e :: e in r <==> e in es
    ensures SortedByIndex(r)
    ensures multiset(r) == multiset(es)
    ensures Total(r) == Total(es)
  {
    if es == [] then []
    else
      assert es == [es[0]] + es[1..];
      TotalAppend([es[0]], es[1..]);
      var rest := SortByIndex(es[1..]);
      InsertByIndexSorted(es[0], rest);
      InsertByIndex(es[0], rest)
  }

  /** Two entries of a list with distinct names differ in name, stated on
      the multiset so that it survives reordering. */
  lemma DistinctFromMultiset(es: seq<Entry>, r: seq<Entry>)
    requires DistinctNames(es) && multiset(r) <= multiset(es)
    ensures DistinctNames(r)
  {
    forall i, j | 0 <= i < j < |r|
      ensures r[i].name != r[j].name
    {
      if r[i].name == r[j].name {
        assert r[i] in multiset(es) && r[j] in multiset(es);
        var a :| 0 <= a < |es| && es[a] == r[i];
        var b :| 0 <= b < |es| && es[b] == r[j];
        assert a == b;
        TwiceInMultiset(r, i, j);
        OccursOnce(es, a);
      }
    }
  }

  /** An entry at two positions occurs at least twice. */
  lemma TwiceInMultiset(r: seq<Entry>, i: int, j: int)
    requires 0 <= i < j < |r| && r[i] == r[j]
    ensures multiset(r)[r[i]] >= 2
  {
    assert r == r[..i] + [r[i]] + r[i + 1..j] + [r[j]] + r[j + 1..];
  }

  /** In a list with distinct names an entry occurs only once. */
  lemma OccursOnce(es: seq<Entry>, a: int)
    requires DistinctNames(es) && 0 <= a < |es|
    ensures multiset(es)[es[a]] == 1
  {
    assert es == es[..a] + [es[a]] + es[a + 1..];
    assert es[a] !in es[..a];
    assert es[a] !in es[a + 1..];
  }

  /** Array-index keys come before every other key. */
  predicate IndexKeysFirst(es: seq<Entry>) {
    forall i, j :: 0 <= i < j < |es| && IsArrayIndex(es[j].name) ==> IsArrayIndex(es[i].name)
  }

  /** Array-index keys are in ascending numeric order. */
  predicate IndexKeysAscending(es: seq<Entry>) {
    forall i, j :: 0 <= i < j < |es| && IsArrayIndex(es[i].name) && IsArrayIndex(es[j].name) ==>
      DecimalValue(es[i].name) <= DecimalValue(es[j].name)
  }

  /** The other keys are in the order their categories first occur in `ts`. */
  predicate OtherKeysFirstSeen(ts: seq<Task>, es: seq<Entry>) {
    forall i, j :: 0 <= i < j < |es| && !IsArrayIndex(es[i].name) ==>
      FirstIn(ts, es[i].name) < FirstIn(ts, es[j].name)
  }

  /** `Object.entries` of the accumulator: array-index keys first in
      ascending numeric order, then the other keys in creation order. */
  function OwnKeysOrder(es: seq<Entry>): (r: seq<Entry>)
    ensures multiset(r) == multiset(es)
    ensures Total(r) == Total(es)
    ensures IndexKeysFirst(r) && IndexKeysAscending(r)
  {
    var a, b := SortByIndex(Select(es, true)), Select(es, false);
    SelectPartition(es);
    SelectTotal(es);
    TotalAppend(a, b);
    IndexKeysInOrder(a, b);
    a + b
  }

  /** Sorted array-index keys followed by other keys are in own-key order. */
  lemma IndexKeysInOrder(a: seq<Entry>, b: seq<Entry>)
    requires AllIndexKeys(a, true) && AllIndexKeys(b, false) && SortedByIndex(a)
    ensures IndexKeysFirst(a + b) && IndexKeysAscending(a + b)
  {
    var r := a + b;
    forall i, j | 0 <= i < j < |r| && IsArrayIndex(r[i].name) && IsArrayIndex(r[j].name)
      ensures DecimalValue(r[i].name) <= DecimalValue(r[j].name)
    {
      assert j < |a| && r[i] == a[i] && r[j] == a[j];
      assert IndexValue(a[i]) <= IndexValue(a[j]);
    }
  }

  /** Putting array-index keys in front of a list in first-seen order keeps
      the other keys in first-seen order. */
  lemma IndexKeysInFront(ts: seq<Task>, a: seq<Entry>, b: seq<Entry>)
    requires AllIndexKeys(a, true) && FirstSeenOrder(ts, b)
    ensures OtherKeysFirstSeen(ts, a + b)
  {
    var r := a + b;
    forall i, j | 0 <= i < j < |r| && !IsArrayIndex(r[i].name)
      ensures FirstIn(ts, r[i].name) < FirstIn(ts, r[j].name)
    {
      assert r[i] == b[i - |a|] && r[j] == b[j - |a|];
    }
  }

  /** Reordering the accumulator keeps the first-seen order among the keys
      that are not array indices. */
  lemma OwnKeysOrderFirstSeen(ts: seq<Task>, es: seq<Entry>)
    requires DistinctNames(es) && FirstSeenOrder(ts, es)
    ensures OtherKeysFirstSeen(ts, OwnKeysOrder(es))
  {
    var a, b := SortByIndex(Select(es, true)), Select(es, false);
    SelectKeepsOrder(ts, es, false);
    assert AllIndexKeys(a, true);
    IndexKeysInFront(ts, a, b);
  }

  /** Reordering keeps each entry's count and the categories it covers. */
  lemma OwnKeysOrderCounts(ts: seq<Task>, es: seq<Entry>)
    requires Counts(ts, es) && Covers(ts, es)
    ensures Counts(ts, OwnKeysOrder(es)) && Covers(ts, OwnKeysOrder(es))
  {
    var r := OwnKeysOrder(es);
    forall i | 0 <= i < |r|
      ensures r[i].value == Count(ts, InCategory(r[i].name)) >= 1
    {
      assert r[i] in multiset(es);
    }
    forall m | 0 <= m < |ts|
      ensures HasName(r, ts[m].category)
    {
      var k :| 0 <= k < |es| && es[k].name == ts[m].category;
      assert es[k] in multiset(r);
    }
  }

  /** The category list the analytics hook charts. Each entry is a distinct
      category with the number of tasks in it; every category of a task
      appears; the counts add up to the number of tasks; array-index names
      come first, ascending; the other names follow in the order of their
      first task. */
  function CategoryEntries(ts: seq<Task>): (r: seq<Entry>)
    ensures DistinctNames(r)
    ensures forall i :: 0 <= i < |r| ==> r[i].value == Count(ts, InCategory(r[i].name)) >= 1
    ensures forall k :: 0 <= k < |ts| ==> HasName(r, ts[k].category)
    ensures Total(r) == |ts|
    ensures IndexKeysFirst(r) && IndexKeysAscending(r)
    ensures OtherKeysFirstSeen(ts, r)
  {
    var es := Tally(ts);
    DistinctFromMultiset(es, OwnKeysOrder(es));
    OwnKeysOrderFirstSeen(ts, es);
    OwnKeysOrderCounts(ts, es);
    OwnKeysOrder(es)
  }

  /** When no category is an array index, the list is in first-occurrence
      order: it is exactly the accumulator in creation order. */
  lemma NoIndexKeysKeepCreationOrder(ts: seq<Task>)
    requires forall i :: 0 <= i < |ts| ==> !IsArrayIndex(ts[i].category)
    ensures CategoryEntries(ts) == Tally(ts)
  {
    TallyNamesAreCategories(ts);
    OwnKeysOrderWithoutIndexKeys(Tally(ts));
  }

  /** Every name in the tally is the category of some task. */
  lemma TallyNamesAreCategories(ts: seq<Task>)
    ensures forall i :: 0 <= i < |Tally(ts)| ==>
      FirstIn(ts, Tally(ts)[i].name) < |ts| && ts[FirstIn(ts, Tally(ts)[i].name)].category == Tally(ts)[i].name
  {
    var es := Tally(ts);
    forall i | 0 <= i < |es|
      ensures FirstIn(ts, es[i].name) < |ts|
    {
      FirstInOccurs(ts, es[i].name);
    }
  }

  /** Without array-index keys the own-key order is the creation order. */
  lemma OwnKeysOrderWithoutIndexKeys(es: seq<Entry>)
    requires forall i :: 0 <= i < |es| ==> !IsArrayIndex(es[i].name)
    ensures OwnKeysOrder(es) == es
  {
    SelectAll(es, false);
    SelectAll(es, true);
    assert SortByIndex([]) == [];
    assert [] + es == es;
  }

  /** Selecting by a property every entry has keeps them all; by one no entry
      has keeps none. */
  lemma {:induction false} SelectAll(es: seq<Entry>, indexKeys: bool)
    requires AllIndexKeys(es, false)
    ensures Select(es, indexKeys) == if indexKeys then [] else es
  {
    if es != [] {
      var init, last := es[..|es| - 1], es[|es| - 1];
      assert es == init + [last];
      assert AllIndexKeys(init, false) by {
        forall i | 0 <= i < |init|
          ensures !IsArrayIndex(init[i].name)
        {
          assert init[i] == es[i];
        }
      }
      SelectAll(init, indexKeys);
      SelectSnoc(init, last, indexKeys);
    }
  }
}
