/** The analytics hook: it loads the same stored list the task screen
    writes and derives the pie-chart slices by priority and by category, the
    completion trend over the last seven days, and the overview totals. */
module Analytics {
  import opened Tasks
  import Categories
  import TaskStore

  /** A slice colour: a hex code, or an `hsl(hue, 70%, 50%)` colour of which
      only the hue varies. */
  datatype Color = Hex(code: string) | Hsl(hue: int)

  /** One pie-chart slice. */
  datatype Slice = Slice(name: string, value: nat, color: Color, legendFontColor: string)

  const LegendFontColor: string := "#F8FAFC"

  /** The slices' order in the priority chart. */
  const PriorityOrder: seq<Priority> := [High, Medium, Low]

  function PriorityLabel(p: Priority): string {
    match p
    case High => "High"
    case Medium => "Medium"
    case Low => "Low"
  }

  function PriorityColor(p: Priority): string {
    match p
    case High => "#EF4444"
    case Medium => "#F59E0B"
    case Low => "#10B981"
  }

  /** The sum of the slice values: what the chart divides into the circle. */
  function ChartTotal(ss: seq<Slice>): nat {
    if ss == [] then 0 else ChartTotal(ss[..|ss| - 1]) + ss[|ss| - 1].value
  }

  function Sum(xs: seq<nat>): nat {
    if xs == [] then 0 else Sum(xs[..|xs| - 1]) + xs[|xs| - 1]
  }

  predicate HasSlice(ss: seq<Slice>, name: string) {
    exists i :: 0 <= i < |ss| && ss[i].name == name
  }

  /** `tasksByPriority`: one slice per priority, high first, each counting
      the tasks of that priority. */
  function PriorityBreakdown(ts: seq<Task>): (r: seq<Slice>)
    ensures |r| == |PriorityOrder|
    ensures forall i :: 0 <= i < |r| ==>
      && r[i].name == PriorityLabel(PriorityOrder[i])
      && r[i].value == Count(ts, WithPriority(PriorityOrder[i]))
      && r[i].color == Hex(PriorityColor(PriorityOrder[i]))
      && r[i].legendFontColor == LegendFontColor
  {
    seq(|PriorityOrder|, i requires 0 <= i < |PriorityOrder| =>
      var p := PriorityOrder[i];
      Slice(PriorityLabel(p), Count(ts, WithPriority(p)), Hex(PriorityColor(p)), LegendFontColor))
  }

  /** Every task has exactly one of the three priorities. */
  lemma {:induction false} PriorityCountsAddUp(ts: seq<Task>)
    ensures Count(ts, WithPriority(High)) + Count(ts, WithPriority(Medium))
          + Count(ts, WithPriority(Low)) == |ts|
  {
    if ts != [] {
      PriorityCountsAddUp(ts[..|ts| - 1]);
    }
  }

  /** The priority slices share out all the tasks. */
  lemma PriorityChartTotal(ts: seq<Task>)
    ensures ChartTotal(PriorityBreakdown(ts)) == |ts|
  {
    var r := PriorityBreakdown(ts);
    PriorityCountsAddUp(ts);
    assert r[..1][..0] == [];
    assert ChartTotal(r[..1]) == r[0].value;
    assert r[..2][..1] == r[..1];
    assert ChartTotal(r[..2]) == r[0].value + r[1].value;
    assert r[..|r| - 1] == r[..2];
  }

  /** The category slices, one per entry of the grouped list, the slice at
      position `i` coloured with hue `50 * i`. The hue is not reduced modulo
      360; a CSS colour does that when it is drawn. */
  function Slices(es: seq<Categories.Entry>): (r: seq<Slice>)
    ensures |r| == |es|
    ensures forall i :: 0 <= i < |es| ==>
      && r[i].name == es[i].name && r[i].value == es[i].value
      && r[i].color == Hsl(50 * i) && r[i].legendFontColor == LegendFontColor
  {
    seq(|es|, i requires 0 <= i < |es| => Slice(es[i].name, es[i].value, Hsl(i * 50), LegendFontColor))
  }

  /** The slices carry the entries' counts, so they add up to the same total. */
  lemma {:induction false} SlicesTotal(es: seq<Categories.Entry>)
    ensures ChartTotal(Slices(es)) == Categories.Total(es)
  {
    if es != [] {
      var init := es[..|es| - 1];
      SlicesTotal(init);
      assert Slices(es)[..|es| - 1] == Slices(init);
    }
  }

  /** `tasksByCategory`: a slice per distinct category, counting its tasks,
      in the order `Object.entries` lists the categories (which decides each
      slice's colour); every task's category has a slice; the slices share
      out all the tasks. */
  function CategoryBreakdown(ts: seq<Task>): (r: seq<Slice>)
    ensures |r| == |Categories.CategoryEntries(ts)|
    ensures forall i :: 0 <= i < |r| ==> r[i].name == Categories.CategoryEntries(ts)[i].name
    ensures forall i, j :: 0 <= i < j < |r| ==> r[i].name != r[j].name
    ensures forall i :: 0 <= i < |r| ==>
      r[i].value == Count(ts, InCategory(r[i].name)) >= 1 && r[i].color == Hsl(50 * i)
    ensures forall k :: 0 <= k < |ts| ==> HasSlice(r, ts[k].category)
    ensures ChartTotal(r) == |ts|
  {
    var es := Categories.CategoryEntries(ts);
    SlicesTotal(es);
    SlicesCover(ts, es);
    Slices(es)
  }

  /** A category named by some entry is named by the slice at the same
      position. */
  lemma SlicesCover(ts: seq<Task>, es: seq<Categories.Entry>)
    requires forall k :: 0 <= k < |ts| ==> Categories.HasName(es, ts[k].category)
    ensures forall k :: 0 <= k < |ts| ==> HasSlice(Slices(es), ts[k].category)
  {
    var r := Slices(es);
    forall k | 0 <= k < |ts|
      ensures HasSlice(r, ts[k].category)
    {
      assert Categories.HasName(es, ts[k].category);
      var i :| 0 <= i < |es| && es[i].name == ts[k].category;
      assert 0 <= i < |r| && r[i].name == ts[k].category;
    }
  }

  /** The two charts count the same tasks. */
  lemma ChartsAgree(ts: seq<Task>)
    ensures ChartTotal(PriorityBreakdown(ts)) == ChartTotal(CategoryBreakdown(ts))
  {
    PriorityChartTotal(ts);
  }

  /** `last7Days`: today and the six days before it, oldest first (the
      hook builds them newest first and reverses). */
  function LastSevenDays(today: Day): (r: seq<Day>)
    ensures |r| == 7 && r[6] == today
    ensures forall i :: 0 <= i < 7 ==> r[i] == today - 6 + i
  {
    var newestFirst := seq(7, i requires 0 <= i < 7 => today - i);
    seq(7, i requires 0 <= i < 7 => newestFirst[6 - i])
  }

  /** The completed tasks created on each of `n` consecutive days starting
      at `from`. */
  function CompletedPerDay(ts: seq<Task>, from: Day, n: nat): (r: seq<nat>)
    ensures |r| == n
    ensures forall i :: 0 <= i < n ==> r[i] == Count(ts, DoneCreatedOn(from + i))
  {
    if n == 0 then []
    else CompletedPerDay(ts, from, n - 1) + [Count(ts, DoneCreatedOn(from + n - 1))]
  }

  /** The daily buckets together hold exactly the completed tasks created
      in the whole window. */
  lemma {:induction false} CompletedPerDaySum(ts: seq<Task>, from: Day, n: nat)
    ensures Sum(CompletedPerDay(ts, from, n)) == Count(ts, DoneCreatedWithin(from, from + n))
  {
    if n == 0 {
      CountZero(ts, DoneCreatedWithin(from, from));
    } else {
      var r := CompletedPerDay(ts, from, n);
      CompletedPerDaySum(ts, from, n - 1);
      assert r[..n - 1] == CompletedPerDay(ts, from, n - 1);
      CountSplit(ts, DoneCreatedWithin(from, from + n),
                 DoneCreatedWithin(from, from + n - 1), DoneCreatedOn(from + n - 1));
    }
  }

  /** `completionTrend`'s data: for each of the last seven days, the
      completed tasks created that day. */
  function TrendData(ts: seq<Task>, today: Day): (r: seq<nat>)
    ensures |r| == 7
    ensures forall i :: 0 <= i < 7 ==> r[i] == Count(ts, DoneCreatedOn(LastSevenDays(today)[i]))
  {
    CompletedPerDay(ts, today - 6, 7)
  }

  /** The trend never shows more completions than there are completed
      tasks: it shows exactly those created in the last seven days. */
  lemma TrendBounded(ts: seq<Task>, today: Day)
    ensures Sum(TrendData(ts, today)) == Count(ts, DoneCreatedWithin(today - 6, today + 1))
    ensures Sum(TrendData(ts, today)) <= Count(ts, Done)
  {
    CompletedPerDaySum(ts, today - 6, 7);
    CountMonotone(ts, Done, DoneCreatedWithin(today - 6, today + 1));
  }

  /** Minutes in a day; a time-zone offset is given in minutes, local time
      minus UTC. */
  const MinutesPerDay: int := 1440

  /** The day the hook prints under a trend bucket. The bucket's key is
      the local date as `yyyy-MM-dd`; `new Date` reads such a date-only
      string as midnight UTC, and `format` prints the local date of that
      instant. */
  function LabelDayAsWritten(day: Day, offsetMinutes: int): (r: Day)
    ensures 0 <= offsetMinutes < MinutesPerDay ==> r == day
    ensures -MinutesPerDay <= offsetMinutes < 0 ==> r == day - 1
  {
    (day * MinutesPerDay + offsetMinutes) / MinutesPerDay
  }

  /** West of UTC every label names the day before the day its bucket
      counts: the label under Monday's count says Sunday. */
  lemma TrendLabelsShiftedWestOfUtc(ts: seq<Task>, today: Day, offsetMinutes: int)
    requires -MinutesPerDay < offsetMinutes < 0
    ensures forall i :: 0 <= i < 7 ==>
      LabelDayAsWritten(LastSevenDays(today)[i], offsetMinutes) == LastSevenDays(today)[i] - 1
    ensures LabelDayAsWritten(LastSevenDays(today)[6], offsetMinutes) != today
  {
  }

  /** Everything the analytics screen shows that is computed from the tasks. */
  datatype Report = Report(
    byPriority: seq<Slice>,
    byCategory: seq<Slice>,
    trendLabels: seq<Day>,
    trendData: seq<nat>,
    totalTasks: nat,
    completedTasks: nat)

  /** The hook's result for the loaded tasks on day `today`, with the trend
      labels corrected: each label is the day its bucket counts, whatever the
      time zone. The hook as written labels the buckets with
      `LabelDayAsWritten`, which differs west of UTC. */
  function Analyze(ts: seq<Task>, today: Day): (r: Report)
    ensures r.totalTasks == |ts| && r.completedTasks == Count(ts, Done)
    ensures r.completedTasks <= r.totalTasks
    ensures ChartTotal(r.byPriority) == r.totalTasks == ChartTotal(r.byCategory)
    ensures |r.trendLabels| == |r.trendData| == 7 && r.trendLabels[6] == today
    ensures forall i :: 0 <= i < 7 ==> r.trendData[i] == Count(ts, DoneCreatedOn(r.trendLabels[i]))
    ensures Sum(r.trendData) <= r.completedTasks
  {
    PriorityChartTotal(ts);
    TrendBounded(ts, today);
    Report(PriorityBreakdown(ts), CategoryBreakdown(ts), LastSevenDays(today),
           TrendData(ts, today), |ts|, Count(ts, Done))
  }

  /** The tasks the hook works on: what the first load after mounting finds
      in storage, or nothing. */
  function HookTasks(stored: TaskStore.Stored): (ts: seq<Task>)
    ensures stored.Blob? ==> ts == stored.tasks
    ensures !stored.Blob? ==> ts == []
  {
    TaskStore.Load(TaskStore.Mount(stored)).tasks
  }

  /** A hook that mounts after the task screen's last write has succeeded
      loads exactly the task screen's list. A hook mounted earlier keeps the
      list it loaded then. */
  lemma AnalyticsSeesTaskScreen(s: TaskStore.Screen)
    requires TaskStore.Synced(s)
    ensures HookTasks(s.stored) == s.tasks
  {
  }

  /** The success rate: `100 * completed / total` rounded to the nearest
      integer, halves upward as `Math.round` does, and 0 when there are no
      tasks. It is at most 100 whenever `completed <= total`, which holds for
      the hook's totals (`Analyze`). */
  function SuccessRate(completed: nat, total: nat): (r: nat)
    ensures completed <= total ==> r <= 100
    ensures total == 0 ==> r == 0
    ensures total > 0 ==> 2 * total * r - total <= 200 * completed < 2 * total * r + total
  {
    if total == 0 then 0
    else
      RoundedPercent(completed, total);
      (200 * completed + total) / (2 * total)
  }

  /** `floor((200 c + t) / 2t)` is `100 c / t` rounded half up, and at most
      100 when `c <= t`. */
  lemma RoundedPercent(c: nat, t: nat)
    requires 0 < t
    ensures var r := (200 * c + t) / (2 * t);
      && 2 * t * r - t <= 200 * c < 2 * t * r + t
      && (c <= t ==> r <= 100)
  {
    var d, n := 2 * t, 200 * c + t;
    var r := n / d;
    assert d * r <= n < d * r + d;
    if c <= t && r > 100 {
      MulMonotone(d, 101, r);
    }
  }

  /** More completed tasks never lower the rate. */
  lemma SuccessRateMonotone(c1: nat, c2: nat, total: nat)
    requires c1 <= c2
    ensures SuccessRate(c1, total) <= SuccessRate(c2, total)
  {
    if total > 0 {
      var r1, r2 := SuccessRate(c1, total), SuccessRate(c2, total);
      if r1 > r2 {
        MulMonotone(2 * total, r2 + 1, r1);
      }
    }
  }

  /** None completed is 0% and all completed is 100%. */
  lemma SuccessRateExtremes(total: nat)
    ensures SuccessRate(0, total) == 0
    ensures total > 0 ==> SuccessRate(total, total) == 100
  {
    if total > 0 {
      var r := SuccessRate(total, total);
      if r < 100 {
        MulMonotone(2 * total, r, 99);
      }
    }
  }

  lemma MulMonotone(k: nat, a: nat, b: nat)
    requires a <= b
    ensures k * a <= k * b
  {
    assert k * b - k * a == k * (b - a);
  }

  /** Two of three is 67%; one of eight is 12.5%, rounded up to 13%. */
  lemma SuccessRateExamples()
    ensures SuccessRate(2, 3) == 67
    ensures SuccessRate(1, 8) == 13
  {
  }
}
