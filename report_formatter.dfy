/**
 * The Markdown form of a report: Markdown escaping of task titles, the
 * status symbols, the task list, the date texts and the line structure of
 * the whole document.
 */
module ReportFormatter {
  import opened Wrappers
  import opened Text
  import opened Calendar
  import opened Sorting
  import opened ReportTypes
  import opened DateRange
  import opened ReportGenerator

  // escapeMd.

  /** The characters `escapeMd` escapes: backslash, `*`, `_`, `[`, `]` and the backquote. */
  predicate Special(c: char) {
    c == '\\' || c == '*' || c == '_' || c == '[' || c == ']' || c == '`'
  }

  /** The number of special characters in s. */
  function SpecialCount(s: string): nat {
    if s == [] then 0 else (if Special(s[0]) then 1 else 0) + SpecialCount(s[1..])
  }

  /** `escapeMd(s)`: a backslash before every special character. */
  function EscapeMd(s: string): (r: string)
    ensures |r| == |s| + SpecialCount(s)
  {
    if s == [] then ""
    else (if Special(s[0]) then ['\\', s[0]] else [s[0]]) + EscapeMd(s[1..])
  }

  /** Reading escaped text back: a backslash stands for the character after it. */
  function Unescape(s: string): string {
    if |s| >= 2 && s[0] == '\\' then [s[1]] + Unescape(s[2..])
    else if s == [] then ""
    else [s[0]] + Unescape(s[1..])
  }

  /** Escaping loses nothing: unescaping gives the title back. */
  lemma {:induction false} UnescapeEscape(s: string)
    ensures Unescape(EscapeMd(s)) == s
  {
    if s != [] {
      UnescapeEscape(s[1..]);
      var head := if Special(s[0]) then ['\\', s[0]] else [s[0]];
      assert EscapeMd(s) == head + EscapeMd(s[1..]);
      if Special(s[0]) {
        assert (head + EscapeMd(s[1..]))[2..] == EscapeMd(s[1..]);
      } else {
        assert (head + EscapeMd(s[1..]))[1..] == EscapeMd(s[1..]);
      }
      assert s == [s[0]] + s[1..];
    }
  }

  /** Escaping changes only the special characters: text without them is left as it is. */
  lemma {:induction false} EscapePlain(s: string)
    requires forall i :: 0 <= i < |s| ==> !Special(s[i])
    ensures EscapeMd(s) == s
  {
    if s != [] {
      EscapePlain(s[1..]);
      assert s == [s[0]] + s[1..];
    }
  }

  /** Escaping adds only backslashes: every other character occurs in the escaped text exactly when it occurs in s. */
  lemma {:induction false} EscapeMembers(s: string, c: char)
    requires c != '\\'
    ensures c in EscapeMd(s) <==> c in s
  {
    if s != [] {
      EscapeMembers(s[1..], c);
      var head := if Special(s[0]) then ['\\', s[0]] else [s[0]];
      assert EscapeMd(s) == head + EscapeMd(s[1..]);
      assert s == [s[0]] + s[1..];
    }
  }

  // symbolForStatus.

  /** `symbolForStatus(s)`: a check mark, an ellipsis or a space. */
  function SymbolForStatus(status: string): (r: string)
    ensures |r| == 1
    ensures r == "✓" <==> status == "done"
    ensures r == "…" <==> status == "in_progress"
    ensures r == " " <==> status != "done" && status != "in_progress"
  {
    if status == "done" then "✓" else if status == "in_progress" then "…" else " "
  }

  // renderTaskList.

  /** The project suffix, shown for a non-zero project id. */
  function ProjectSuffix(projectId: int): string {
    if projectId != 0 then " (P" + IntToString(projectId) + ")" else ""
  }

  /** Is the due-date suffix shown: a due date that is not null and not zero? */
  predicate DueShown(dueDate: Option<int>) {
    dueDate.Some? && dueDate.value != 0
  }

  /** The due-date suffix. */
  function DueSuffix(dueDate: Option<int>): string {
    if DueShown(dueDate) then " · 截止 " + FormatDate(dueDate.value) else ""
  }

  /** The start of a task line: the status box and the escaped title. */
  function LineHead(t: RendererTask): string {
    "- [" + SymbolForStatus(t.status) + "] " + EscapeMd(t.title)
  }

  /** The line of one task. */
  function TaskLine(t: RendererTask): string {
    LineHead(t) + ProjectSuffix(t.projectId) + DueSuffix(t.dueDate)
  }

  /** `renderTaskList(tasks)`. */
  function RenderTaskList(tasks: seq<RendererTask>): (r: string)
    ensures tasks == [] <==> r == "_无_"
  {
    if tasks == [] then "_无_"
    else
      var lines := Map(TaskLine, tasks);
      assert '-' == lines[0][0] != '_';
      JoinFirst(lines, "\n");
      Join(lines, "\n")
  }

  /**
   * A task line is the status box and the escaped title, then ` (P<id>)`
   * exactly when the project id is non-zero, then ` · 截止 <date>` exactly
   * when the due date is present and non-zero.
   */
  lemma TaskLineSpec(t: RendererTask)
    ensures "- [" + SymbolForStatus(t.status) + "] " + EscapeMd(t.title) <= TaskLine(t)
    ensures t.projectId != 0 ==> LineHead(t) + " (P" + IntToString(t.projectId) + ")" <= TaskLine(t)
    ensures DueShown(t.dueDate) ==>
      TaskLine(t)[|TaskLine(t)| - |FormatDate(t.dueDate.value)| - 6..] == " · 截止 " + FormatDate(t.dueDate.value)
    ensures |TaskLine(t)| == 6 + |t.title| + SpecialCount(t.title) +
      (if t.projectId != 0 then |IntToString(t.projectId)| + 4 else 0) +
      (if DueShown(t.dueDate) then |FormatDate(t.dueDate.value)| + 6 else 0)
  {
    var head, project, due := LineHead(t), ProjectSuffix(t.projectId), DueSuffix(t.dueDate);
    LineParts(head, project, due);
    assert |head| == 6 + |t.title| + SpecialCount(t.title);
  }

  /** The parts of a three-part text: its prefixes, its suffix and its length. */
  lemma LineParts(head: string, middle: string, tail: string)
    ensures var line := head + middle + tail;
      head <= line && head + middle <= line && line[|line| - |tail|..] == tail &&
      |line| == |head| + |middle| + |tail|
  {
    var line := head + middle + tail;
    assert line[|line| - |tail|..] == tail;
  }

  /** A decimal number has no line break. */
  lemma IntToStringOneLine(i: int)
    ensures '\n' !in IntToString(i)
  {
    var s := IntToString(i);
    if i < 0 {
      assert s == "-" + NatToString(-i);
      assert forall j :: 1 <= j < |s| ==> s[j] == NatToString(-i)[j - 1];
    }
  }

  /** A date text has no line break. */
  lemma FormatDateOneLine(t: int)
    ensures '\n' !in FormatDate(t)
  {
    var c := CivilFromTime(t);
    IntToStringOneLine(c.year);
    IntToStringOneLine(c.month + 1);
    IntToStringOneLine(c.date);
  }

  /** A task whose title has no line break renders on one line. */
  lemma TaskLineOneLine(t: RendererTask)
    requires '\n' !in t.title
    ensures '\n' !in TaskLine(t)
  {
    EscapeMembers(t.title, '\n');
    var sym := SymbolForStatus(t.status);
    OneLineConcat("- [" + sym + "] ", EscapeMd(t.title));
    var project := ProjectSuffix(t.projectId);
    if t.projectId != 0 {
      IntToStringOneLine(t.projectId);
      OneLineConcat(" (P" + IntToString(t.projectId), ")");
    }
    OneLineConcat(LineHead(t), project);
    var due := DueSuffix(t.dueDate);
    if DueShown(t.dueDate) {
      FormatDateOneLine(t.dueDate.value);
      OneLineConcat(" · 截止 ", FormatDate(t.dueDate.value));
    }
    OneLineConcat(LineHead(t) + project, due);
  }

  /** Joining two texts without line breaks gives none. */
  lemma OneLineConcat(a: string, b: string)
    requires '\n' !in a && '\n' !in b
    ensures '\n' !in a + b
  {
  }

  /** A non-empty list of tasks without line breaks in their titles renders as one line per task, in order. */
  lemma RenderedLines(tasks: seq<RendererTask>)
    requires tasks != []
    requires forall i :: 0 <= i < |tasks| ==> '\n' !in tasks[i].title
    ensures Split(RenderTaskList(tasks), '\n') == Map(TaskLine, tasks)
  {
    var lines := Map(TaskLine, tasks);
    forall i | 0 <= i < |lines|
      ensures '\n' !in lines[i]
    {
      TaskLineOneLine(tasks[i]);
    }
    SplitJoin(lines, '\n');
  }

  // pad, fmtDate and fmtDateTime.

  /** `fmtDate` gives the year, the one-based month and the day of the month in the `y-MM-DD` shape. */
  lemma FmtDateShape(t: int)
    ensures DateTextOf(FormatDate(t), YearFromTime(t), MonthFromTime(t) + 1, DateFromTime(t))
  {
    var c := CivilFromTime(t);
    assert ValidCivil(c);
    DateStringShape(c.year, c.month + 1, c.date, DateString(c));
  }

  /** The `HH:mm` part of `fmtDateTime`, after a space. */
  function TimeText(t: int): string {
    " " + Pad(HourFromTime(t)) + ":" + Pad(MinFromTime(t))
  }

  /** `fmtDateTime`: the date, a space and the time as `HH:mm`. */
  function FmtDateTime(t: int): string {
    FormatDate(t) + TimeText(t)
  }

  /** text is a space, the hour in two digits, a colon and the minute in two digits. */
  predicate TimeTextOf(text: string, h: int, m: int) {
    |text| == 6 && text[0] == ' ' && text[3] == ':' &&
    AllDigits(text[1..3]) && DigitsValue(text[1..3]) == h &&
    AllDigits(text[4..]) && DigitsValue(text[4..]) == m
  }

  /** The time text of an hour and a minute of the day has that shape. */
  lemma TimeTextShape(h: int, m: int, text: string)
    requires 0 <= h < 24 && 0 <= m < 60
    requires text == " " + Pad(h) + ":" + Pad(m)
    ensures TimeTextOf(text, h, m)
  {
    PadTwoDigits(h);
    PadTwoDigits(m);
    assert text[1..3] == Pad(h);
    assert text[4..] == Pad(m);
  }

  /** `fmtDateTime` is the date text followed by the hour and the minute in two digits each. */
  lemma FmtDateTimeShape(t: int)
    ensures FmtDateTime(t)[..|FormatDate(t)|] == FormatDate(t)
    ensures TimeTextOf(FmtDateTime(t)[|FormatDate(t)|..], HourFromTime(t), MinFromTime(t))
  {
    var date, time := FormatDate(t), TimeText(t);
    TimeTextShape(HourFromTime(t), MinFromTime(t), time);
    assert (date + time)[..|date|] == date;
    assert (date + time)[|date|..] == time;
  }

  // toMarkdown.

  /** The query's granularity as the source spells it. */
  function GranularityName(g: Granularity): string {
    match g
    case Daily => "day"
    case Weekly => "week"
    case Monthly => "month"
    case HalfYearly => "half-year"
    case Yearly => "year"
  }

  /** The title of the query, or its granularity when there is none. */
  function TitleText(q: ReportQuery): string {
    q.title.GetOr(GranularityName(q.granularity))
  }

  /** The date range of the query, in parentheses. */
  function RangeText(q: ReportQuery): string {
    " (" + FormatDate(q.from) + " — " + FormatDate(q.until) + ")"
  }

  /** The first line: the title and the date range. */
  function TitleLine(q: ReportQuery): string {
    ("# 周报 | " + TitleText(q)) + RangeText(q)
  }

  /** A heading, its task list and a blank line. */
  function Block(heading: string, tasks: seq<RendererTask>): seq<string> {
    [heading, RenderTaskList(tasks), ""]
  }

  /**
   * The lines before the buckets: title, generation time, the six summary
   * lines, then the five sections.  The completion rate is given as the text
   * of its percentage.
   */
  function HeaderLines(data: ReportData, rateText: string): (lines: seq<string>)
    ensures |lines| == 27 && lines[0] == TitleLine(data.query)
  {
    var c := data.summary.counts;
    var s := data.sections;
    [TitleLine(data.query), "", "生成时间：" + FmtDateTime(data.generatedAt), ""] +
    ["- 任务总数：" + IntToString(c.total), "- 已完成：" + IntToString(c.done),
     "- 进行中：" + IntToString(c.inProgress), "- 待处理：" + IntToString(c.todo),
     "- 完成率：" + rateText + "%", "- 逾期：" + IntToString(data.summary.overdue), ""] +
    Block("## 亮点 Highlights", s.highlights) +
    Block("## 进行中 In Progress", s.inProgress) +
    Block("## 计划 Planned", s.planned) +
    Block("## 风险与阻塞 Risks", s.risks) +
    Block("## 逾期 Overdue", s.overdue) +
    ["## 分桶数据 Buckets"]
  }

  /** The three lines of one bucket. */
  function BucketBlock(b: ReportBucket): (lines: seq<string>)
    ensures |lines| == 3
  {
    Block("### " + b.labelText, b.tasks)
  }

  /** The blocks of the elements of xs, in order. */
  function Blocks<T>(block: T -> seq<string>, xs: seq<T>): seq<string> {
    if xs == [] then [] else Blocks(block, xs[..|xs| - 1]) + block(xs[|xs| - 1])
  }

  /** Adding one element adds its block at the end. */
  lemma BlocksSnoc<T>(block: T -> seq<string>, xs: seq<T>, i: int)
    requires 0 <= i < |xs|
    ensures Blocks(block, xs[..i + 1]) == Blocks(block, xs[..i]) + block(xs[i])
  {
    assert xs[..i + 1][..i] == xs[..i];
  }

  /** With blocks of three lines, element i occupies lines 3i to 3i + 2. */
  lemma {:induction false} BlocksSpec<T>(block: T -> seq<string>, xs: seq<T>)
    requires forall x :: |block(x)| == 3
    ensures |Blocks(block, xs)| == 3 * |xs|
    ensures forall i :: 0 <= i < |xs| ==> Blocks(block, xs)[3 * i..3 * i + 3] == block(xs[i])
  {
    if xs != [] {
      var init := xs[..|xs| - 1];
      var last := block(xs[|xs| - 1]);
      BlocksSpec(block, init);
      var lines := Blocks(block, xs);
      assert lines == Blocks(block, init) + last;
      forall i | 0 <= i < |xs|
        ensures lines[3 * i..3 * i + 3] == block(xs[i])
      {
        if i < |init| {
          SliceLeft(Blocks(block, init), last, 3 * i, 3 * i + 3);
          assert init[i] == xs[i];
        } else {
          SliceRight(Blocks(block, init), last, 0, 3);
          assert last[0..3] == last;
        }
      }
    }
  }

  /** All lines of the document. */
  function MarkdownLines(data: ReportData, rateText: string): seq<string> {
    HeaderLines(data, rateText) + Blocks(BucketBlock, data.buckets)
  }

  /** The loop of `toMarkdown`: for each bucket in order, push its heading, its task list and a blank line. */
  method PushBucketBlocks(lines0: seq<string>, buckets: seq<ReportBucket>) returns (lines: seq<string>)
    ensures lines == lines0 + Blocks(BucketBlock, buckets)
  {
    lines := lines0;
    for i := 0 to |buckets|
      invariant lines == lines0 + Blocks(BucketBlock, buckets[..i])
    {
      var b := buckets[i];
      BlocksSnoc(BucketBlock, buckets, i);
      lines := lines + ["### " + b.labelText];
      lines := lines + [RenderTaskList(b.tasks)];
      lines := lines + [""];
    }
    assert buckets[..|buckets|] == buckets;
  }

  /** `toMarkdown(data)`: the header lines, then one block per bucket, joined by line breaks. */
  method ToMarkdown(data: ReportData, rateText: string) returns (md: string)
    ensures md == Join(MarkdownLines(data, rateText), "\n")
    ensures "# 周报 | " <= md
  {
    var header := HeaderLines(data, rateText);
    TitleLineStart(data.query);
    var lines := PushBucketBlocks(header, data.buckets);
    md := Join(lines, "\n");
    JoinFirst(lines, "\n");
  }

  /** The title line starts with `# 周报 | ` and then the query's title, or its granularity when there is none. */
  lemma TitleLineStart(q: ReportQuery)
    ensures "# 周报 | " + TitleText(q) <= TitleLine(q)
    ensures "# 周报 | " <= TitleLine(q)
  {
  }

  /** After any header, with blocks of three lines, element i occupies the three lines from the header's length plus 3i. */
  lemma HeaderThenBlocks<T>(header: seq<string>, block: T -> seq<string>, xs: seq<T>)
    requires forall x :: |block(x)| == 3
    ensures |header + Blocks(block, xs)| == |header| + 3 * |xs|
    ensures forall i :: 0 <= i < |xs| ==>
      (header + Blocks(block, xs))[|header| + 3 * i..|header| + 3 * i + 3] == block(xs[i])
  {
    BlocksSpec(block, xs);
    forall i | 0 <= i < |xs|
      ensures (header + Blocks(block, xs))[|header| + 3 * i..|header| + 3 * i + 3] == block(xs[i])
    {
      SliceRight(header, Blocks(block, xs), 3 * i, 3 * i + 3);
    }
  }

  /**
   * The document has 27 header lines, the first being the title line, then
   * three lines per bucket in bucket order: its `### label` heading, its
   * task list and a blank line.
   */
  lemma MarkdownStructure(data: ReportData, rateText: string)
    ensures var lines := MarkdownLines(data, rateText); var bs := data.buckets;
      |lines| == 27 + 3 * |bs| && lines[0] == TitleLine(data.query) && "# 周报 | " <= lines[0] &&
      forall i :: 0 <= i < |bs| ==>
        lines[27 + 3 * i..30 + 3 * i] == ["### " + bs[i].labelText, RenderTaskList(bs[i].tasks), ""]
  {
    var header := HeaderLines(data, rateText);
    HeaderThenBlocks(header, BucketBlock, data.buckets);
    TitleLineStart(data.query);
  }

  /**
   * For a generated report, whose title is the granularity's prefix and a
   * label, the title line repeats the fixed `# 周报 | ` before that prefix,
   * so a weekly report reads `# 周报 | 周报 | `.
   */
  lemma GeneratedTitleLine(q: ReportQuery, labelText: string)
    requires q.title == Some(TitlePrefix(q.granularity) + labelText)
    ensures "# 周报 | " + TitlePrefix(q.granularity) <= TitleLine(q)
  {
    TitleLineStart(q);
  }
}
