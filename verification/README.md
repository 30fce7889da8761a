# Task manager core in Dafny

A model of the logic of a small React Native study-planner app. The app has
three screens:

- the task screen, where a form adds tasks and a list toggles and deletes them;
- the analytics screen, which charts the tasks;
- the resources screen, which searches a fixed list of study resources.

The task screen keeps its list in memory and writes the whole list, as one
value, under the storage key `tasks` after every change. The analytics screen
reads that same value when it mounts.

Modules:

- `Text`: `trim`, ASCII `toLowerCase` and `includes`.
- `Sequences`: the subsequence relation that every `filter` establishes.
- `Tasks`: the task record and counting tasks by a criterion.
- `TaskStore`: loading, adding, toggling and deleting, and how the stored
  value follows the in-memory list.
- `TaskOrder`: the task list's display order, a stable sort by completion and
  due date.
- `TaskForm`: the add-task form, its edits and its submit.
- `Home`: the task screen put together from the form, the list and the store.
- `Categories`: grouping tasks by category through a plain JavaScript object.
  It includes the order in which `Object.entries` lists the keys: array-index
  keys first in ascending order, then the other keys in creation order
  (section 10.1.11.1 of ECMA-262, OrdinaryOwnPropertyKeys).
- `Analytics`: the priority chart, the category chart, the seven-day
  completion trend, the totals and the success rate. The success rate is
  computed from the hook's two totals by the analytics tab itself, at line 46
  of `app/(tabs)/analytics.tsx`; its rows in the table cite the totals.
- `Resources`: the sample resources and the case-insensitive search.

The model makes these choices:

- Dates are whole day numbers (`Tasks.Day`).
- The current day, the creation day and the new task's id are parameters.
- Whether a storage write succeeded is a boolean parameter.
- A stored value is absent, a readable task list, or unreadable.

The model follows the code in these details:

- The check that rejects a blank title is in the form's submit handler, not
  in the add handler. `TaskStore.AddTask` accepts any fields. `Home.PressAdd`
  is where blank titles are refused.
- The category hue is `index * 50` with no reduction modulo 360. A CSS
  `hsl()` colour wraps the hue when it is drawn.
- A stored value that is missing or unreadable leaves the in-memory list as it
  was. At mount that list is empty, so the screen recovers to an empty list.
- The new id comes from the clock and is not checked for uniqueness.
  `TaskStore.AddKeepsIdsUnique` states when ids stay unique.

## Model

| member | source | states |
|---|---|---|
| Text.Trim | components/TaskForm.tsx:24 | the trimmed title is the slice of the title left after removing the white space before and after it: only white space surrounds it, it neither starts nor ends with white space, and it is empty exactly when the title is all white space |
| Text.TrimIsUnique | components/TaskForm.tsx:24 | any slice with only white space around it and non-blank ends, empty only for an all-white-space title, is the trimmed title |
| Text.Lower | resources.tsx:33-34 | lower-casing keeps the length, turns each ASCII capital into its lower-case letter and keeps every other character |
| Text.LowerIdempotent | resources.tsx:33-34 | lower-casing twice is lower-casing once |
| TaskStore.Mount | index.tsx:9 | the screen starts with an empty list and leaves storage alone |
| TaskStore.Load | index.tsx:15-24 | a readable stored list replaces the in-memory list; an absent or unreadable value changes nothing |
| TaskStore.NewTask | index.tsx:27-32 | the new task carries the submitted fields, the given id and creation day, and is not completed |
| TaskStore.AddTask | index.tsx:34 | the old tasks stay in place and the new task follows them |
| TaskStore.Flip | index.tsx:46 | only the completion flag may change, and it flips exactly when the id matches |
| TaskStore.ToggleTask | index.tsx:45-47 | same length and order, each task flipped by its id |
| TaskStore.DeleteTask | index.tsx:58 | the result is an order-preserving selection holding exactly the tasks with another id, shorter by the number of matching tasks |
| TaskStore.Commit | index.tsx:26-66 | the new list becomes the in-memory list; a successful write also stores it, and a failed write leaves storage as it was |
| TaskStore.CommitThenLoad | index.tsx:15-42 | after a successful write, loading gives back the in-memory list |
| TaskStore.RunStaysSynced | index.tsx:26-66 | while every write succeeds, storage equals the in-memory list after each step |
| TaskStore.AddCounts | index.tsx:34 | an add raises each count by one exactly when the new task passes the filter, and never changes the completed count |
| TaskStore.AddKeepsIdsUnique | index.tsx:29 | ids stay unique after an add exactly when the new id was not present |
| TaskStore.ToggleInvolution | index.tsx:45-47 | toggling the same id twice restores the list |
| TaskStore.ToggleAbsent | index.tsx:45-47 | toggling an unknown id changes nothing |
| TaskStore.ToggleKeepsIdsUnique | index.tsx:45-47 | toggling keeps ids unique |
| TaskStore.ToggleCompletedCount | index.tsx:45-47 | the completed count rises by the matching pending tasks and falls by the matching completed ones |
| TaskStore.ToggleUniqueCompletedCount | index.tsx:45-47 | with unique ids, a toggle moves the completed count by exactly one in the direction of the flag's new value |
| TaskStore.DeleteMultiplicity | index.tsx:58 | a task with another id is kept as many times as it is listed, and one with the deleted id not at all |
| TaskStore.DeleteIdempotent | index.tsx:58 | deleting twice is deleting once |
| TaskStore.DeleteAbsent | index.tsx:58 | deleting an unknown id changes nothing |
| TaskStore.DeleteUndoesAdd | index.tsx:57-58 | deleting a task just added under a fresh id restores the list |
| TaskStore.DeleteKeepsIdsUnique | index.tsx:58 | deleting keeps ids unique |
| TaskOrder.Compare | components/TaskList.tsx:15-18 | the comparator allows `a` before `b` exactly when the key order does, and returns zero exactly on equal keys |
| TaskOrder.CompareConsistent | components/TaskList.tsx:15-18 | swapping the comparator's arguments flips the sign of its result |
| TaskOrder.KeyLeTotalPreorder | components/TaskList.tsx:15-18 | the key order is total and transitive, and ties are mutual |
| TaskOrder.Sort | components/TaskList.tsx:14 | the sorted copy is a permutation of the tasks in key order |
| TaskOrder.SortStable | components/TaskList.tsx:14 | tasks that tie keep their relative order from the task list |
| TaskOrder.PendingFirst | components/TaskList.tsx:15-18 | pending tasks come before completed ones, and due dates do not decrease within each group |
| TaskOrder.SortKeepsSorted | components/TaskList.tsx:14-19 | a list already in order is unchanged |
| TaskOrder.SortIdempotent | components/TaskList.tsx:14-19 | sorting twice is sorting once |
| TaskOrder.TiesDetermine | components/TaskList.tsx:14-19 | two sorted permutations that keep every group of ties in the same order are equal |
| TaskOrder.StableSortIsUnique | components/TaskList.tsx:14-19 | any stable sort with this comparator yields exactly the list `Sort` computes, so the model does not depend on which stable algorithm the engine uses |
| TaskForm.Initial | components/TaskForm.tsx:17-21 | the form starts with empty texts, today's date and medium priority |
| TaskForm.Step | components/TaskForm.tsx:49-103 | each input sets its own field and leaves the other four alone |
| TaskForm.StepsInteract | components/TaskForm.tsx:49-103 | a second edit of a field overrides the first; edits of different fields commute |
| TaskForm.Submit | components/TaskForm.tsx:23-39 | a blank title emits nothing and keeps the form; otherwise the fields go out untrimmed and the form is reset |
| TaskForm.SubmitEmitsTitled | components/TaskForm.tsx:24-32 | whatever is emitted has a title that is not blank |
| TaskForm.SubmitTwiceEmitsOnce | components/TaskForm.tsx:24-38 | a second press right after an accepted submit emits nothing |
| TaskForm.FillAndSubmit | components/TaskForm.tsx:26-32 | filling in all five fields and submitting emits exactly what was typed, whatever the form held before |
| Home.PressAdd | index.tsx:76 | a blank title changes nothing; otherwise the form resets and the new task is appended to the list |
| Home.ApplyKeepsTitled | index.tsx:26-66 | add, toggle and delete keep every title non-blank when added titles come from the form |
| Home.PressAddKeepsTitled | index.tsx:76 | pressing "Add Task" keeps every title in the list non-blank |
| Home.Shown | components/TaskList.tsx:14-19 | the list shows every task once, in key order |
| Home.ToggleShown | index.tsx:77-80 | after a toggle the list shows exactly the toggled tasks |
| Home.DeleteShown | index.tsx:77-80 | after a delete the list shows the list shown before with the deleted id's tasks taken out, every other task keeping its place |
| Home.SortCommutesWithDelete | components/TaskList.tsx:14-19 | sorting the list and then deleting an id gives the same list as deleting and then sorting |
| Home.DeleteKeepsSorted | index.tsx:58 | deleting from a list in display order leaves it in display order |
| Categories.Bump | hooks/useTaskAnalytics.ts:47 | a category's existing property goes up by one and keeps its place; a new category gets a property with count one at the end; every other property is unchanged |
| Categories.BumpTally | hooks/useTaskAnalytics.ts:47 | one reduce step keeps the accumulator a tally: distinct names, exact counts, every category covered, counts adding up, names in first-seen order |
| Categories.Tally | hooks/useTaskAnalytics.ts:46-49 | the accumulator is a tally of all the tasks |
| Categories.OwnKeysOrder | hooks/useTaskAnalytics.ts:45 | `Object.entries` lists the same entries with array-index keys first and ascending |
| Categories.OwnKeysOrderFirstSeen | hooks/useTaskAnalytics.ts:45 | the other keys keep the order in which their categories first occur |
| Categories.CategoryEntries | hooks/useTaskAnalytics.ts:45-49 | one entry per distinct category with its task count; every task's category appears; the counts add up to the number of tasks; and the entries follow own-key order |
| Categories.NoIndexKeysKeepCreationOrder | hooks/useTaskAnalytics.ts:45-49 | without numeric category names the entries are in order of first occurrence |
| Analytics.PriorityBreakdown | hooks/useTaskAnalytics.ts:24-43 | three slices, high first, each counting its priority's tasks with its fixed colour |
| Analytics.PriorityCountsAddUp | hooks/useTaskAnalytics.ts:27-39 | the three priority counts add up to the number of tasks |
| Analytics.PriorityChartTotal | hooks/useTaskAnalytics.ts:24-43 | the priority chart shares out all the tasks |
| Analytics.Slices | hooks/useTaskAnalytics.ts:50-55 | each entry becomes a slice with its name and count, and slice `i` gets hue `50 * i` |
| Analytics.SlicesTotal | hooks/useTaskAnalytics.ts:50-55 | the slices add up to the entries' total |
| Analytics.CategoryBreakdown | hooks/useTaskAnalytics.ts:45-55 | slice `i` is the `i`-th category `Object.entries` lists and gets hue `50 * i`; one slice per distinct category with its count; every category has a slice; the slices share out all the tasks |
| Analytics.ChartsAgree | hooks/useTaskAnalytics.ts:24-55 | both charts add up to the same total |
| Analytics.LastSevenDays | hooks/useTaskAnalytics.ts:57-60 | seven consecutive days, oldest first, ending today |
| Analytics.CompletedPerDay | hooks/useTaskAnalytics.ts:66-71 | one bucket per day holding the completed tasks created that day |
| Analytics.CompletedPerDaySum | hooks/useTaskAnalytics.ts:66-71 | the buckets add up to the completed tasks created in the whole window |
| Analytics.TrendData | hooks/useTaskAnalytics.ts:66-71 | the trend has seven buckets, one per day of the last week |
| Analytics.TrendBounded | hooks/useTaskAnalytics.ts:66-71 | the trend shows exactly the completions created in the last seven days, never more than the completed total |
| Analytics.LabelDayAsWritten | hooks/useTaskAnalytics.ts:63 | as written, a label shows its bucket's day when the time zone is at or east of UTC and the day before when it is west of UTC |
| Analytics.TrendLabelsShiftedWestOfUtc | hooks/useTaskAnalytics.ts:63 | west of UTC every label is one day behind its bucket, so today never appears |
| Analytics.Analyze | hooks/useTaskAnalytics.ts:100-109 | the hook's report with the trend labels corrected: completed is at most total; both charts add up to total; each trend label is the day its bucket counts; the trend is bounded by the completed count |
| Analytics.HookTasks | hooks/useTaskAnalytics.ts:13-22 | the hook works on the stored list if one is readable and on no tasks otherwise |
| Analytics.AnalyticsSeesTaskScreen | hooks/useTaskAnalytics.ts:9-17 | a hook that mounts after the task screen's last write succeeded loads exactly the task screen's list |
| Analytics.SuccessRate | hooks/useTaskAnalytics.ts:104-105 | the analytics tab's formula applied to the hook's two totals: 0 with no tasks; otherwise `100 * completed / total` rounded to the nearest integer with halves going up, at most 100 when completed does not exceed total |
| Analytics.SuccessRateMonotone | hooks/useTaskAnalytics.ts:104-105 | under the analytics tab's formula, more completed tasks never lower the rate |
| Analytics.SuccessRateExtremes | hooks/useTaskAnalytics.ts:104-105 | under the analytics tab's formula, nothing completed is 0% and everything completed is 100% |
| Analytics.SuccessRateExamples | hooks/useTaskAnalytics.ts:104-105 | under the analytics tab's formula, 2 of 3 is 67% and 1 of 8 is 13% |
| Resources.Search | resources.tsx:32-35 | an order-preserving selection of exactly the resources whose title or description contains the query, ignoring ASCII case |
| Resources.SearchMultiplicity | resources.tsx:32-35 | a matching resource is kept as many times as it is listed, and any other is dropped |
| Resources.SearchEmpty | resources.tsx:32-35 | an empty query lists every resource |
| Resources.SearchIgnoresCase | resources.tsx:33-34 | queries that differ only in ASCII case find the same resources |
| Resources.MatchesPart | resources.tsx:33-34 | a resource that matches a query matches every substring of it |
| Resources.SearchNarrows | resources.tsx:32-35 | what a longer query finds, any substring of it finds too, in the same order |
| Resources.SearchExample | resources.tsx:13-19 | searching "FORMULAS" finds the math notes |

## Left out

- Storage I/O, `JSON.stringify` and `JSON.parse` are not modelled. A stored value is modelled as already parsed. A value that parses to something other than a task array is not modelled.
- Asynchrony, React state batching and re-rendering are not modelled. Each handler runs to completion before the next one.
- The analytics screen loads the stored list only when it mounts and never reloads it. A tab mounted before a later write keeps showing the list it loaded. The model states what a hook that mounts after a write sees (`Analytics.AnalyticsSeesTaskScreen`).
- Interleaved handlers that read a stale `tasks` value are not modelled, for the same reason.
- `Date.now()`, `new Date()` and `toISOString()` are not modelled. Ids and days are parameters.
- Dates and their formatting (`date-fns`, `yyyy-MM-dd` strings, `MM/dd` labels) are reduced to day numbers. Only the label shift listed under Findings is modelled.
- A due date typed in a form that does not parse is not modelled, because dates are day numbers.
- The delete confirmation dialog is not modelled. Only its "Delete" choice reaches `TaskStore.DeleteTask`.
- The root layout, styling, icons and images are not modelled.
- The analytics placeholders (weekly progress, productive hours, streak data) are not modelled. Neither is the unused `weeklyTasks` filter. All of them are constants or unused.
- Category names that collide with `Object.prototype` members (`constructor`, `__proto__`) are not modelled. On those names `acc[name] || 0` reads an inherited value.
- Text.Lower: only ASCII letters are lower-cased. Full Unicode case mapping is not modelled.
- Analytics.SuccessRate: computes the exact percentage and rounds it. The analytics tab multiplies in double precision, which can land just below a half. For example, 29 of 200 gives 14 instead of 15.
- Analytics.Slices: the hue is an integer, not an `hsl(...)` string.
- TaskOrder.Compare: compares day numbers, not millisecond timestamps. Only the sign of the result matters to the sort.

## Findings

| source | as written | input that shows it | evidently intended | confidence | as-written member | corrected member |
|---|---|---|---|---|---|---|
| hooks/useTaskAnalytics.ts:63 | each trend label is `format(new Date(date), 'MM/dd')`, and `new Date` reads a date-only string as midnight UTC | any time zone west of UTC, e.g. UTC-5: the bucket for 10/10 is labelled 10/09 | each label shows the day its bucket counts | high; not executed | Analytics.LabelDayAsWritten | Analytics.Analyze |
