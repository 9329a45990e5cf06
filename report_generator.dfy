/**
 * Report aggregation: the tasks are counted by status and priority, grouped
 * into the buckets of the query's date range by their effective date, and
 * picked into the highlight, in-progress, planned, risk and overdue sections.
 * The clock is the parameter `now`.
 */
module ReportGenerator {
  import opened Wrappers
  import opened Text
  import opened Sorting
  import opened ReportTypes
  import opened DateRange

  /** `t.due_date ?? t.updated_at ?? t.created_at`. */
  function EffectiveDate(t: RendererTask): int {
    t.dueDate.GetOr(t.updatedAt.GetOr(t.createdAt))
  }

  /** The tasks whose effective date lies in `[start, end]`. */
  function InPeriod(start: int, end: int): RendererTask -> bool {
    t => start <= EffectiveDate(t) <= end
  }

  predicate IsDone(t: RendererTask) { t.status == "done" }
  predicate IsInProgress(t: RendererTask) { t.status == "in_progress" }
  predicate IsTodo(t: RendererTask) { t.status == "todo" }
  /** Any status the counter files under `todo`: neither done nor in progress. */
  predicate IsOtherStatus(t: RendererTask) { !IsDone(t) && !IsInProgress(t) }

  predicate IsLow(t: RendererTask) { t.priority == "low" }
  predicate IsHigh(t: RendererTask) { t.priority == "high" }
  predicate NotHigh(t: RendererTask) { !IsHigh(t) }
  /** Any priority the counter files under `medium`: neither low nor high. */
  predicate IsOtherPriority(t: RendererTask) { !IsLow(t) && !IsHigh(t) }

  // countByStatus.

  /** The counts after one more task. */
  function TallyStatus(c: StatusCounts, t: RendererTask): StatusCounts {
    if IsDone(t) then c.(total := c.total + 1, done := c.done + 1)
    else if IsInProgress(t) then c.(total := c.total + 1, inProgress := c.inProgress + 1)
    else c.(total := c.total + 1, todo := c.todo + 1)
  }

  /** The counts of the loop of `countByStatus` after the whole list. */
  function StatusCountsOf(list: seq<RendererTask>): StatusCounts {
    if list == [] then StatusCounts(0, 0, 0, 0)
    else TallyStatus(StatusCountsOf(list[..|list| - 1]), list[|list| - 1])
  }

  /** `countByStatus(list)`: one pass of counters over the list. */
  method CountByStatus(list: seq<RendererTask>) returns (c: StatusCounts)
    ensures c == StatusCountsOf(list)
  {
    var total, done, inProgress, todo := 0, 0, 0, 0;
    for i := 0 to |list|
      invariant StatusCounts(total, done, inProgress, todo) == StatusCountsOf(list[..i])
    {
      assert list[..i + 1][..i] == list[..i];
      total := total + 1;
      if list[i].status == "done" {
        done := done + 1;
      } else if list[i].status == "in_progress" {
        inProgress := inProgress + 1;
      } else {
        todo := todo + 1;
      }
    }
    assert list[..|list|] == list;
    c := StatusCounts(total, done, inProgress, todo);
  }

  /**
   * Every task is counted once: the total is the list's length and the sum of
   * the three classes, and each class counts the tasks of its status, with
   * every status other than done and in progress counted as todo.
   */
  lemma {:induction false} StatusCountsSpec(list: seq<RendererTask>, c: StatusCounts)
    requires c == StatusCountsOf(list)
    ensures c.total == |list| && c.total == c.done + c.inProgress + c.todo
    ensures c.done == |Filter(IsDone, list)|
    ensures c.inProgress == |Filter(IsInProgress, list)|
    ensures c.todo == |Filter(IsOtherStatus, list)|
  {
    if list != [] {
      var init, last := list[..|list| - 1], list[|list| - 1];
      assert list == init + [last];
      StatusCountsSpec(init, StatusCountsOf(init));
      FilterSnoc(IsDone, init, last);
      FilterSnoc(IsInProgress, init, last);
      FilterSnoc(IsOtherStatus, init, last);
    }
  }

  // countByPriority.

  /** The counts after one more task. */
  function TallyPriority(c: PriorityCounts, t: RendererTask): PriorityCounts {
    if IsLow(t) then c.(low := c.low + 1)
    else if IsHigh(t) then c.(high := c.high + 1)
    else c.(medium := c.medium + 1)
  }

  /** The counts of the loop of `countByPriority` after the whole list. */
  function PriorityCountsOf(list: seq<RendererTask>): PriorityCounts {
    if list == [] then PriorityCounts(0, 0, 0)
    else TallyPriority(PriorityCountsOf(list[..|list| - 1]), list[|list| - 1])
  }

  /** `countByPriority(list)`: one pass of counters over the list. */
  method CountByPriority(list: seq<RendererTask>) returns (c: PriorityCounts)
    ensures c == PriorityCountsOf(list)
  {
    var low, medium, high := 0, 0, 0;
    for i := 0 to |list|
      invariant PriorityCounts(low, medium, high) == PriorityCountsOf(list[..i])
    {
      assert list[..i + 1][..i] == list[..i];
      if list[i].priority == "low" {
        low := low + 1;
      } else if list[i].priority == "high" {
        high := high + 1;
      } else {
        medium := medium + 1;
      }
    }
    assert list[..|list|] == list;
    c := PriorityCounts(low, medium, high);
  }

  /**
   * Every task is counted once: the three classes add up to the list's
   * length, with every priority other than low and high counted as medium.
   */
  lemma {:induction false} PriorityCountsSpec(list: seq<RendererTask>, c: PriorityCounts)
    requires c == PriorityCountsOf(list)
    ensures c.low + c.medium + c.high == |list|
    ensures c.low == |Filter(IsLow, list)|
    ensures c.high == |Filter(IsHigh, list)|
    ensures c.medium == |Filter(IsOtherPriority, list)|
  {
    if list != [] {
      var init, last := list[..|list| - 1], list[|list| - 1];
      assert list == init + [last];
      PriorityCountsSpec(init, PriorityCountsOf(init));
      FilterSnoc(IsLow, init, last);
      FilterSnoc(IsHigh, init, last);
      FilterSnoc(IsOtherPriority, init, last);
    }
  }

  // Sections.

  /** `t.status !== 'done' && (t.due_date ?? Infinity) < now`. */
  function OverdueAt(now: int): RendererTask -> bool {
    t => !IsDone(t) && t.dueDate.Some? && t.dueDate.value < now
  }

  /** The filter of `pickRisks`: `t.status !== 'done' && (t.due_date ?? now + 1) < now`. */
  function RiskAt(now: int): RendererTask -> bool {
    t => !IsDone(t) && t.dueDate.GetOr(now + 1) < now
  }

  /** The order of the highlight sort: high priority first. */
  function HighFirst(t: RendererTask): int {
    if IsHigh(t) then 0 else 1
  }

  /** `pickHighlights(list)`. */
  function PickHighlights(list: seq<RendererTask>): seq<RendererTask> {
    Take(SortBy(HighFirst, Filter(IsDone, list)), 5) + Take(Filter(IsInProgress, list), 3)
  }

  /** `pickRisks(list)` at time now. */
  function PickRisks(list: seq<RendererTask>, now: int): seq<RendererTask> {
    Take(Filter(RiskAt(now), list), 10)
  }

  /** The highlight sort puts the high-priority done tasks first and keeps input order within each group. */
  lemma HighFirstSplit(done: seq<RendererTask>)
    ensures SortBy(HighFirst, done) == Filter(IsHigh, done) + Filter(NotHigh, done)
  {
    var sorted := SortBy(HighFirst, done);
    SortedTwoKeys(HighFirst, sorted);
    SortStable(HighFirst, done, 0);
    SortStable(HighFirst, done, 1);
    FilterCongruent(KeyIs(HighFirst, 0), IsHigh, done);
    FilterCongruent(KeyIs(HighFirst, 1), NotHigh, done);
  }

  /**
   * The highlights are at most five done tasks, the high-priority ones first,
   * each group in input order, then at most three in-progress tasks in input
   * order.
   */
  lemma HighlightsSpec(list: seq<RendererTask>)
    ensures var done := Filter(IsDone, list);
      PickHighlights(list) ==
        Take(Filter(IsHigh, done) + Filter(NotHigh, done), 5) +
        Take(Filter(IsInProgress, list), 3)
    ensures |PickHighlights(list)| <= 8
  {
    HighFirstSplit(Filter(IsDone, list));
  }

  /** The risk filter is the overdue filter: a missing due date never counts. */
  lemma RiskIsOverdue(now: int, list: seq<RendererTask>)
    ensures Filter(RiskAt(now), list) == Filter(OverdueAt(now), list)
  {
    FilterCongruent(RiskAt(now), OverdueAt(now), list);
  }

  // autoTitleForQuery.

  /** The title prefix of each granularity. */
  function TitlePrefix(g: Granularity): string {
    match g
    case Weekly => "周报 | "
    case Daily => "日报 | "
    case Monthly => "月报 | "
    case HalfYearly => "半年报 | "
    case Yearly => "年报 | "
  }

  /** `autoTitleForQuery(q, firstLabel)`: the query with its title set from the granularity and the label. */
  function AutoTitleForQuery(q: ReportQuery, firstLabel: Option<string>): (r: ReportQuery)
    ensures r.granularity == q.granularity && r.from == q.from && r.until == q.until
    ensures r.title.Some? && TitlePrefix(q.granularity) <= r.title.value
  {
    var labelText := firstLabel.GetOr("");
    q.(title := Some(TitlePrefix(q.granularity) + labelText))
  }

  /** The label of the first bucket, if any. */
  function FirstLabel(bs: seq<Bucket>): Option<string> {
    if bs == [] then None else Some(bs[0].labelText)
  }

  // generateReport.

  /** The report bucket of b: the tasks in b's period, in input order, with their counts. */
  function BucketReport(tasks: seq<RendererTask>): Bucket -> ReportBucket {
    (b: Bucket) => var inRange := Filter(InPeriod(b.start, b.end), tasks);
      ReportBucket(b.labelText, b.start, b.end, inRange, StatusCountsOf(inRange))
  }

  /** `generateReport({ query, tasks })` at time now. */
  function GenerateReport(query: ReportQuery, tasks: seq<RendererTask>, now: int): (r: ReportData)
    ensures r.generatedAt == now
    ensures |r.buckets| == |RangeBuckets(query.granularity, query.from, query.until)|
  {
    var buckets := RangeBuckets(query.granularity, query.from, query.until);
    var overdue := Filter(OverdueAt(now), tasks);
    var sections := Sections(
      PickHighlights(tasks),
      Filter(IsInProgress, tasks),
      Filter(IsTodo, tasks),
      PickRisks(tasks, now),
      overdue);
    var summary := Summary(
      StatusCountsOf(Filter(InPeriod(query.from, query.until), tasks)),
      PriorityCountsOf(tasks),
      |overdue|);
    ReportData(AutoTitleForQuery(query, FirstLabel(buckets)), now, summary, Map(BucketReport(tasks), buckets), sections)
  }

  /**
   * Bucket i reports the period of the i-th bucket of the range; its tasks
   * are exactly the tasks whose effective date lies in that period, and its
   * counts count them.
   */
  lemma BucketSpec(query: ReportQuery, tasks: seq<RendererTask>, now: int, i: int, t: RendererTask)
    requires 0 <= i < |RangeBuckets(query.granularity, query.from, query.until)|
    ensures var b := RangeBuckets(query.granularity, query.from, query.until)[i];
      var rb := GenerateReport(query, tasks, now).buckets[i];
      rb.labelText == b.labelText && rb.start == b.start && rb.end == b.end &&
      (t in rb.tasks <==> t in tasks && b.start <= EffectiveDate(t) <= b.end) &&
      rb.counts.total == |rb.tasks| &&
      rb.counts.done == |Filter(IsDone, rb.tasks)| &&
      rb.counts.inProgress == |Filter(IsInProgress, rb.tasks)| &&
      rb.counts.todo == |Filter(IsOtherStatus, rb.tasks)|
  {
    var b := RangeBuckets(query.granularity, query.from, query.until)[i];
    var rb := GenerateReport(query, tasks, now).buckets[i];
    assert rb == BucketReport(tasks)(b);
    BucketReportSpec(tasks, b, rb, t);
  }

  /** The report of one bucket: its period, the tasks dated in it and their counts. */
  lemma BucketReportSpec(tasks: seq<RendererTask>, b: Bucket, rb: ReportBucket, t: RendererTask)
    requires rb == BucketReport(tasks)(b)
    ensures rb.labelText == b.labelText && rb.start == b.start && rb.end == b.end
    ensures t in rb.tasks <==> t in tasks && b.start <= EffectiveDate(t) <= b.end
    ensures rb.counts.total == |rb.tasks|
    ensures rb.counts.done == |Filter(IsDone, rb.tasks)|
    ensures rb.counts.inProgress == |Filter(IsInProgress, rb.tasks)|
    ensures rb.counts.todo == |Filter(IsOtherStatus, rb.tasks)|
  {
    FilterMembers(InPeriod(b.start, b.end), tasks, t);
    StatusCountsSpec(rb.tasks, rb.counts);
  }

  /**
   * The summary counts the tasks whose effective date lies in the query's
   * range, the priorities count every task, and the overdue number is the
   * length of the overdue section.
   */
  lemma SummarySpec(query: ReportQuery, tasks: seq<RendererTask>, now: int)
    ensures var r := GenerateReport(query, tasks, now);
      var inRange := Filter(InPeriod(query.from, query.until), tasks);
      r.summary.counts.total == |inRange| &&
      r.summary.counts.done == |Filter(IsDone, inRange)| &&
      r.summary.counts.inProgress == |Filter(IsInProgress, inRange)| &&
      r.summary.counts.todo == |Filter(IsOtherStatus, inRange)| &&
      r.summary.priorities.low + r.summary.priorities.medium + r.summary.priorities.high == |tasks| &&
      r.summary.priorities.low == |Filter(IsLow, tasks)| &&
      r.summary.priorities.high == |Filter(IsHigh, tasks)| &&
      r.summary.overdue == |r.sections.overdue|
  {
    var r := GenerateReport(query, tasks, now);
    StatusCountsSpec(Filter(InPeriod(query.from, query.until), tasks), r.summary.counts);
    PriorityCountsSpec(tasks, r.summary.priorities);
  }

  /**
   * The in-progress, planned and overdue sections hold exactly the tasks of
   * their status or overdue at now.
   */
  lemma SectionsSpec(query: ReportQuery, tasks: seq<RendererTask>, now: int, t: RendererTask)
    ensures var s := GenerateReport(query, tasks, now).sections;
      (t in s.inProgress <==> t in tasks && t.status == "in_progress") &&
      (t in s.planned <==> t in tasks && t.status == "todo") &&
      (t in s.overdue <==> t in tasks && t.status != "done" && t.dueDate.Some? && t.dueDate.value < now)
  {
    FilterMembers(IsInProgress, tasks, t);
    FilterMembers(IsTodo, tasks, t);
    FilterMembers(OverdueAt(now), tasks, t);
  }

  /** The risks are the first ten overdue tasks, or all of them if fewer. */
  lemma RisksPrefixOfOverdue(query: ReportQuery, tasks: seq<RendererTask>, now: int)
    ensures var s := GenerateReport(query, tasks, now).sections;
      s.risks <= s.overdue && |s.risks| == Min(10, |s.overdue|)
  {
    RiskIsOverdue(now, tasks);
  }

  /** The title is the granularity's prefix followed by the first bucket's label, or by nothing when there is none. */
  lemma TitleSpec(query: ReportQuery, tasks: seq<RendererTask>, now: int)
    ensures var bs := RangeBuckets(query.granularity, query.from, query.until);
      GenerateReport(query, tasks, now).query ==
        query.(title := Some(TitlePrefix(query.granularity) + (if bs == [] then "" else bs[0].labelText)))
  {
  }

  /**
   * A task dated inside the range makes the summary total positive, and a
   * non-empty range whose cursors keep their years gives at least one bucket.
   */
  lemma ReportNonEmpty(query: ReportQuery, tasks: seq<RendererTask>, now: int, t: RendererTask)
    requires query.from <= query.until
    requires t in tasks && query.from <= EffectiveDate(t) <= query.until
    ensures GenerateReport(query, tasks, now).summary.counts.total > 0
    ensures KeepsYears(query.granularity, query.from, query.until) ==>
      |GenerateReport(query, tasks, now).buckets| > 0
  {
    var inRange := Filter(InPeriod(query.from, query.until), tasks);
    FilterMembers(InPeriod(query.from, query.until), tasks, t);
    StatusCountsSpec(inRange, StatusCountsOf(inRange));
    StepperMoves(query.granularity);
    if KeepsYears(query.granularity, query.from, query.until) {
      RangeBucketsAll(query.granularity, query.from, query.until);
    }
  }

  /** The repository's report scenario: three tasks around now and a weekly query for the two weeks around it. */
  lemma ReportScenario(now: int, day: int, tasks: seq<RendererTask>, query: ReportQuery)
    requires day == 86400000
    requires tasks == [
      RendererTask(1, 1, "A", None, [], Some(now - day), "high", "done", None, now - 5 * day, None),
      RendererTask(2, 1, "B", None, [], Some(now + day), "medium", "in_progress", None, now - 3 * day, None),
      RendererTask(3, 2, "C", None, [], None, "low", "todo", None, now - 2 * day, None)]
    requires query == ReportQuery(Weekly, now - 7 * day, now + 7 * day, None)
    ensures GenerateReport(query, tasks, now).summary.counts.total > 0
    ensures |GenerateReport(query, tasks, now).buckets| > 0
  {
    ReportNonEmpty(query, tasks, now, tasks[0]);
  }
}
