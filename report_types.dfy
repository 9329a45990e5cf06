/** The report data shapes shared by the date-range, generator and formatter modules. */
module ReportTypes {
  import opened Wrappers

  /** 'day' | 'week' | 'month' | 'half-year' | 'year' */
  datatype Granularity = Daily | Weekly | Monthly | HalfYearly | Yearly

  /** A report query: a granularity, an inclusive millisecond range `from`..`until` (`to` in the source) and an optional title. */
  datatype ReportQuery = ReportQuery(granularity: Granularity, from: int, until: int, title: Option<string>)

  /**
   * A task as the renderer sees it.  Status and priority are kept as the
   * strings stored in the database, so that values other than the declared
   * ones take the source's fall-through branches.
   */
  datatype RendererTask = RendererTask(
    id: int,
    projectId: int,
    title: string,
    description: Option<string>,
    participants: seq<string>,
    dueDate: Option<int>,
    priority: string,
    status: string,
    note: Option<string>,
    createdAt: int,
    updatedAt: Option<int>)

  /** Task counts by status. */
  datatype StatusCounts = StatusCounts(total: int, done: int, inProgress: int, todo: int)

  /** Task counts by priority. */
  datatype PriorityCounts = PriorityCounts(low: int, medium: int, high: int)

  datatype ReportBucket = ReportBucket(labelText: string, start: int, end: int, tasks: seq<RendererTask>, counts: StatusCounts)

  /** The summary block; the floating-point completion rate is not part of the model. */
  datatype Summary = Summary(counts: StatusCounts, priorities: PriorityCounts, overdue: int)

  datatype Sections = Sections(
    highlights: seq<RendererTask>,
    inProgress: seq<RendererTask>,
    planned: seq<RendererTask>,
    risks: seq<RendererTask>,
    overdue: seq<RendererTask>)

  datatype ReportData = ReportData(query: ReportQuery, generatedAt: int, summary: Summary, buckets: seq<ReportBucket>, sections: Sections)
}
