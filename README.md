# WorkMate LAN and report core, in Dafny

This project models two parts of WorkMate, a desktop task manager.

The **LAN subsystem** covers:
- the presence registry of peers seen by UDP heartbeat, with a timeout for offline peers;
- the datagram validator;
- the UDP service, which routes received packets to the registry and to the chat and task-complete handlers, and sends chat, task-complete and heartbeat datagrams;
- the bridge that broadcasts a task's completion and turns a received completion into a notification and a beep;
- the day-scoped chat message table.

The **report subsystem** covers:
- calendar periods and buckets of a day, an ISO week, a month, a half-year or a year;
- the report generator: bucketed tasks, status and priority counts, the highlight, in-progress, planned, risk and overdue sections, and the automatic title;
- the Markdown formatter.

One module per source file:

| module | file | models |
|---|---|---|
| `Presence` | `presence.dfy` | `PresenceRegistry` as a class over an insertion-ordered entry sequence (the `Map`), and `tryParsePacket` |
| `UdpService` | `udp_service.dfy` | `UdpLanService` as a class; handler calls and sent datagrams are recorded in logs |
| `TaskComplete` | `task_complete.dfy` | `maybeBroadcastTaskComplete` and the handler of `setupLanTaskCompleteNotifications` |
| `Messages` | `messages.dfy` | `formatDayKey` and `MessagesDao` as a class over its rows and its AUTOINCREMENT counter |
| `DateRange` | `date_range.dfy` | `computeDateRange`, `splitIntoBuckets` (a loop method), the day, week, month, half-year and year bounds, `clampRange`, `autoWeekTitle` |
| `DateRangeExamples` | `date_range_examples.dfy` | the documented week title, the monthly-bucket example and `lastDayOfMonth(0, 1)` |
| `ReportGenerator` | `report_generator.dfy` | `generateReport`, with the counting loops as methods |
| `ReportFormatter` | `report_formatter.dfy` | `toMarkdown` (its bucket loop as a method), `renderTaskList`, `escapeMd`, `fmtDate`, `fmtDateTime` |

Supporting modules:
- `Calendar` models JavaScript `Date` on integer milliseconds in a zone with no offset. It follows the ECMAScript day, year and month arithmetic: `MakeDay`, `MakeDate`, `setDate`, `setMonth`, `setFullYear` and `setHours`. `new Date(y, m, d)` also applies MakeFullYear, so a year 0..99 stands for 1900 + year; the setters do not.
- `Text` models `String(n)`, `slice`, `padStart`, `join` and `split`.
- `Sorting` models `filter`, `map` and a stable sort by key, which is how `Array.prototype.sort` behaves.
- `Json` models parsed JSON values and JavaScript truthiness.
- `Wrappers` provides `Option` and `Result`.
- `ReportTypes` provides the report shapes.

Time values are integers. Every call of `Date.now()` becomes a `now` parameter.

## Model

| member | source | states |
|---|---|---|
| Presence.PresenceRegistry.constructor | electron/services/lan/presence.ts:13-19 | a new registry is empty and keeps its offline threshold |
| Presence.PresenceRegistry.UpsertHeartbeat | electron/services/lan/presence.ts:21-38 | the map afterwards stores the entry built from the payload with `lastSeen` = now under its id; that entry is returned; ids stay distinct |
| Presence.PresenceRegistry.Remove | electron/services/lan/presence.ts:40-42 | the map afterwards is the old map without the id; ids stay distinct |
| Presence.PresenceRegistry.ListOnline | electron/services/lan/presence.ts:44-52 | returns the entries within the threshold, in map order, stably sorted newest first |
| Presence.PresenceRegistry.Sweep | electron/services/lan/presence.ts:54-58 | deleting while iterating leaves exactly the entries within the threshold, in map order |
| Presence.UpsertStoresEntry | electron/services/lan/presence.ts:31-37 | after an upsert the id maps to exactly the new entry, and ids stay distinct |
| Presence.UpsertKeepsOthers | electron/services/lan/presence.ts:31-36 | an upsert leaves the entry of every other id unchanged |
| Presence.UpsertKeyOrder | electron/services/lan/presence.ts:32-35 | a known id keeps its place in map order; a new id goes last |
| Presence.RemoveMembers | electron/services/lan/presence.ts:40-42 | after removal the id has no entry; every other entry is still present |
| Presence.RemoveAbsent | electron/services/lan/presence.ts:40-42 | removing an id that is not present changes nothing |
| Presence.OnlineListSpec | electron/services/lan/presence.ts:44-52 | an entry is listed iff it is stored and `now - lastSeen <= threshold`; the list is a permutation of the online entries, ordered by non-increasing `lastSeen` |
| Presence.OnlineListTies | electron/services/lan/presence.ts:50 | peers seen at the same moment keep map order, because the sort is stable |
| Presence.SweepKeepsOnlineList | electron/services/lan/presence.ts:54-58 | a sweep at time now does not change what `listOnline(now)` returns |
| Presence.SweepLeavesOnline | electron/services/lan/presence.ts:54-58 | after a sweep every remaining entry is within the threshold |
| Presence.TryParsePacket | electron/services/lan/presence.ts:79-94 | a packet is produced only from a parsed object, and never as a task-complete packet |
| Presence.ParseHeartbeat | electron/services/lan/presence.ts:84-86 | a heartbeat is accepted iff the value is an object with `type` "heartbeat", string `deviceId` and `name`, and number `port` and `ts` |
| Presence.ParseChat | electron/services/lan/presence.ts:87-89 | a chat is accepted iff the value is an object with `type` "chat", string `from` and `text`, and number `ts`; `to` is passed on unchecked |
| Presence.ParseRejectsNonObjects | electron/services/lan/presence.ts:80-83 | unparsable text and non-object values give null |
| Presence.ParseRejectsOtherTypes | electron/services/lan/presence.ts:84-90 | any other `type` gives null |
| Presence.RegistryScenario | src/__tests__/lan-presence.spec.ts:5-24 | two peers are listed as [a, b]; both are online 900 ms later; after refreshing a and sweeping 1100 ms later only a is listed |
| UdpService.Resolve | electron/services/lan/udp-service.ts:23-29 | each option is the caller's value when given, otherwise its default: `239.255.255.250`, 53210, 3000 and 10000 |
| UdpService.LanService.constructor | electron/services/lan/udp-service.ts:22-33 | the service starts with the resolved options, an empty registry, no handlers and nothing sent |
| UdpService.HeartbeatRoundTrip | electron/services/lan/udp-service.ts:117-118 | a heartbeat the service sends is accepted by every receiver's validator, field for field |
| UdpService.ChatRoundTrip | electron/services/lan/udp-service.ts:89-92 | a chat the service sends is accepted, with its recipient |
| UdpService.TaskCompleteDropped | electron/services/lan/udp-service.ts:102-112 | a task-complete datagram the service sends is rejected by the receiving validator |
| UdpService.RouteOf | electron/services/lan/udp-service.ts:46-58 | the listener's branch for a validated packet: upsert for a heartbeat, delivery or nothing for a chat or a task-complete; its delivery rule is stated by ChatDelivery, SentChatDelivery and NoTaskCompleteDelivery |
| UdpService.ChatDelivery | electron/services/lan/udp-service.ts:49-54 | a chat reaches the handlers iff it comes from another device and its `to` is falsy or this device's id |
| UdpService.SentChatDelivery | electron/services/lan/udp-service.ts:49-54 | a chat sent by another device is delivered iff it has no recipient, an empty one, or this device |
| UdpService.NoTaskCompleteDelivery | electron/services/lan/udp-service.ts:45-58 | no received datagram ever reaches the task-complete handlers |
| UdpService.OwnPackets | electron/services/lan/udp-service.ts:47-51 | the device's own chat comes back ignored; its own heartbeat is recorded |
| UdpService.LanService.HandleMessage | electron/services/lan/udp-service.ts:44-59 | the listener validates the datagram, then upserts a heartbeat with the sender's address, or calls every chat or task-complete handler in order, or changes nothing |
| UdpService.LanService.Dispatch | electron/services/lan/udp-service.ts:46-58 | for each route, the new registry and call log are the ones the listener's branches define |
| UdpService.LanService.InvokeChatHandlers | electron/services/lan/udp-service.ts:54 | each chat handler is called once with the packet, in registration order |
| UdpService.LanService.InvokeTaskCompleteHandlers | electron/services/lan/udp-service.ts:57 | each task-complete handler is called once with the packet, in registration order |
| UdpService.LanService.GetOnlinePeers | electron/services/lan/udp-service.ts:77-80 | the registry is swept, and the result is the online list of the old registry |
| UdpService.LanService.OnChat | electron/services/lan/udp-service.ts:82-87 | the handler is appended and its unsubscribe is returned |
| UdpService.LanService.OnTaskComplete | electron/services/lan/udp-service.ts:95-100 | the handler is appended and its unsubscribe is returned |
| UdpService.LanService.Unsubscribe | electron/services/lan/udp-service.ts:84-86 | every registration of that handler goes from its own list; the other list is unchanged |
| UdpService.UnsubscribeRemoves | electron/services/lan/udp-service.ts:85 | after unsubscribing, the handler is absent and every other handler is kept |
| UdpService.SubscribeThenUnsubscribe | electron/services/lan/udp-service.ts:82-87 | subscribing a new handler and then unsubscribing it restores the list |
| UdpService.LanService.SendChat | electron/services/lan/udp-service.ts:89-93 | one chat datagram goes to the configured port and group; `to` is left out when absent |
| UdpService.LanService.SendTaskComplete | electron/services/lan/udp-service.ts:102-113 | one task-complete datagram with the title cut to 200 characters |
| UdpService.LanService.BroadcastHeartbeat | electron/services/lan/udp-service.ts:115-131 | the same heartbeat datagram is sent once per external IPv4 entry of every interface, and never for missing lists |
| UdpService.NoEligibleNoHeartbeat | electron/services/lan/udp-service.ts:121-130 | without any external IPv4 address no heartbeat is sent |
| TaskComplete.SentTitle | electron/services/lan/task-complete.ts:41 | the sent title is the title, or "已完成任务" when it is empty, cut to 200 characters |
| TaskComplete.MaybeBroadcastTaskComplete | electron/services/lan/task-complete.ts:33-43 | at most one send, and only of a task-complete payload |
| TaskComplete.BroadcastIff | electron/services/lan/task-complete.ts:38-40 | a send happens iff the service and both rows are present, the old status is not done and the new one is done |
| TaskComplete.BroadcastPayload | electron/services/lan/task-complete.ts:41-42 | the payload carries the new row's id; its title is the first min(200, length) characters of the row's title, or "已完成任务" when that is empty |
| TaskComplete.SentTitleSurvivesService | electron/services/lan/udp-service.ts:108 | the service's second cut to 200 characters changes nothing |
| TaskComplete.BroadcastScenario | src/__tests__/lan-task-complete.spec.ts:23-43 | no send for an unchanged status; one send of {7, "实现功能"} on the transition to done; no send for a task that was already done |
| TaskComplete.NotificationBody | electron/services/lan/task-complete.ts:27 | the body is the sender's name, then " 完成了任务「", then the title, then "」", and nothing else |
| TaskComplete.OnTaskCompleteMessage | electron/services/lan/task-complete.ts:25-30 | the registered handler: notify and beep, each in its own `try {} catch {}`; HandlerEffects states its calls and that nothing escapes |
| TaskComplete.GuardedSwallows | electron/services/lan/task-complete.ts:26-29 | a call inside `try {} catch {}` is made whether or not it throws, and what it throws is swallowed: the run is the same as when it does not throw; after an earlier escape nothing is called |
| TaskComplete.UnguardedStops | electron/services/lan/task-complete.ts:26-29 | without a `try`, a throwing call escapes and the next call is not made |
| TaskComplete.GuardsKeepBeep | electron/services/lan/task-complete.ts:25-30 | without the guards a throwing `notify` would lose the beep and escape; with them the beep follows and nothing escapes |
| TaskComplete.HandlerEffects | electron/services/lan/task-complete.ts:25-30 | each message gives exactly one notification titled "任务完成", then one beep, whatever either callback throws |
| TaskComplete.NotificationScenario | src/__tests__/lan-task-complete.spec.ts:15-19 | Alice's "写日报" gives "Alice 完成了任务「写日报」" |
| TaskComplete.SetupLanTaskCompleteNotifications | electron/services/lan/task-complete.ts:20-31 | registers one new task-complete handler; calling its unsubscribe restores the handler list |
| Messages.PadStartIsPad | electron/models/messages.ts:15-16 | `padStart(2, '0')` on 0..99 is the report formatter's `pad` |
| Messages.FormatDayKey | electron/models/messages.ts:12-18 | `formatDayKey(ts)`; DayKeyIsFormatDate, DayKeySameDay and DayKeyShape state what the key is |
| Messages.DayKeyIsFormatDate | electron/models/messages.ts:12-18 | the day key is `y-MM-DD` of the timestamp's date |
| Messages.DayKeySameDay | electron/models/messages.ts:12-18 | two timestamps of non-negative years share a day key iff they fall on the same day |
| Messages.DayKeyShape | electron/models/messages.ts:12-18 | the key reads as the year, the one-based month in two digits and the date in two digits, separated by dashes |
| Messages.MessagesDao.constructor | electron/models/messages.ts:20-35 | a new table of a fresh database has no rows and a zero counter |
| Messages.MessagesDao.Create | electron/models/messages.ts:37-44 | appends the row with the next id, the text cut to 2000 characters, ts (defaulting to now) and its day key, and returns that id |
| Messages.CreateFresh | electron/models/messages.ts:43 | a new id is positive and greater than every stored id |
| Messages.MessagesDao.ListToday | electron/models/messages.ts:46-51 | the rows with today's key, ordered by ts |
| Messages.ListTodayMembers | electron/models/messages.ts:49 | a row is listed iff it is stored with today's key |
| Messages.MessagesDao.ListTodayWithPeer | electron/models/messages.ts:53-67 | today's rows from a to b or to all, and from b to a or to all, ordered by ts |
| Messages.ConversationMembers | electron/models/messages.ts:58-63 | a row is listed iff it is today's and between the two devices, directly or broadcast |
| Messages.ConversationSymmetric | electron/models/messages.ts:59-62 | the conversation of a with b is the conversation of b with a |
| Messages.MessagesDao.PurgeNotToday | electron/models/messages.ts:69-73 | exactly today's rows remain, in order; the counter is unchanged |
| Messages.PurgeMembers | electron/models/messages.ts:72 | a row survives the purge iff it has today's key |
| Messages.PurgeIdempotent | electron/models/messages.ts:69-73 | purging twice is purging once |
| Messages.ListingScenario | src/__tests__/messages-dao.spec.ts:14-26 | two rows created 10 ms apart on one day get positive ids and are listed as "hello", "world" |
| Messages.PurgeScenario | src/__tests__/messages-dao.spec.ts:28-39 | after a purge only today's "new" is listed, not yesterday's "old" |
| DateRange.StartOfDay | src/utils/date-range.ts:102-106 | the same day at 00:00:00.000, at or before the time |
| DateRange.EndOfDay | src/utils/date-range.ts:108-112 | the same day at 23:59:59.999, at or after the time |
| DateRange.IsoWeekRange | src/utils/date-range.ts:114-124 | runs from the Monday midnight to the Sunday end of the seven days holding the time, and contains it |
| DateRange.WeekOfUnique | src/utils/date-range.ts:114-124 | a time has only one such week |
| DateRange.WeekRangeSpec | src/utils/date-range.ts:114-124 | the week is the seven days from the Monday on or before the time |
| DateRange.SameWeek | src/utils/date-range.ts:114-124 | every time of a week has that week as its week range |
| DateRange.LastDayOfMonth | src/utils/date-range.ts:132-134 | `lastDayOfMonth(year, month)`, the date of day 0 of the next month; LastDayOfMonthIsLength states its value |
| DateRange.LastDayOfMonthIsLength | src/utils/date-range.ts:132-134 | day 0 of the next month is the month's length in the year `new Date` reads (1900 + year for years 0..99), and 29 in February exactly when that year is a leap year |
| DateRange.Pad | src/utils/date-range.ts:130 | `pad(n)`, a leading zero below 10; PadTwoDigits states its two-digit result |
| DateRange.PadTwoDigits | src/utils/date-range.ts:130 | pads 0..99 to two digits that read back as the number |
| DateRange.FormatDate | src/utils/date-range.ts:126-128 | `formatDate(d)`, year, padded month and padded date; DateStringInjective and FormatDateInjective state that it determines the day |
| DateRange.DateStringInjective | src/utils/date-range.ts:126-128 | the date texts of valid dates in non-negative years determine the dates |
| DateRange.FormatDateInjective | src/utils/date-range.ts:126-128 | two times of non-negative years format alike iff they fall on the same day |
| DateRange.MonthBoundsSpec | src/utils/date-range.ts:39-40 | the month bounds run from midnight on the 1st to the end of the month's last day, in the year `new Date` reads; they contain the anchor exactly when its year is outside 0..99 |
| DateRange.HalfYearBoundsFirst | src/utils/date-range.ts:44-46 | in months 0..5 the bounds are January 1 to June 30 of the year `new Date` reads; they contain the anchor exactly when its year is outside 0..99 |
| DateRange.HalfYearBoundsSecond | src/utils/date-range.ts:44-46 | in months 6..11 the bounds are July 1 to December 31 of the year `new Date` reads; they contain the anchor exactly when its year is outside 0..99 |
| DateRange.YearBoundsSpec | src/utils/date-range.ts:50-51 | the year bounds are January 1 to December 31 of the year `new Date` reads; they contain the anchor exactly when its year is outside 0..99 |
| DateRange.DayBoundsSpec | src/utils/date-range.ts:30-31 | the day bounds are the first and last millisecond of the day |
| DateRange.PeriodRange | src/utils/date-range.ts:28-54 | the granularity switch of `computeDateRange`, shared with `splitIntoBuckets`; PeriodRangeSpec states each period |
| DateRange.PeriodRangeSpec | src/utils/date-range.ts:28-54 | for each granularity the period is the calendar one (day, ISO week, month, half-year, year, the last three in the year `new Date` reads); it contains the anchor exactly when it keeps the anchor's year, which fails only for months and longer in years 0..99 |
| DateRange.ClampRange | src/utils/date-range.ts:136-139 | fails iff an end is not finite; otherwise returns the two ends in order |
| DateRange.ComputeDateRange | src/utils/date-range.ts:19-26 | fails iff both explicit ends are given, because `makeLabel` is undefined |
| DateRange.ComputeDateRangeSpec | src/utils/date-range.ts:28-54 | without an explicit range the result is the calendar period of the granularity; it contains the anchor exactly when it keeps the anchor's year |
| DateRange.AutoWeekTitle | src/utils/date-range.ts:141-151 | `autoWeekTitle(d)` of the ISO week holding d; ComputeWeekSpec and AutoWeekTitleExample state its uses and the documented value |
| DateRange.ComputeWeekSpec | src/utils/date-range.ts:34-37 | a week result starts on a Monday, ends on a Sunday, and is titled by its week |
| DateRange.BucketAt | src/utils/date-range.ts:62-96 | a bucket contains its cursor exactly when it keeps the cursor's year: always for days and weeks, and outside years 0..99 for the rest |
| DateRange.AdvanceMoves | src/utils/date-range.ts:66-94 | the cursor advances by at least a day: exactly one day for days, seven for weeks |
| DateRange.MonthStepsFrom | src/utils/date-range.ts:79 | moving the month argument forward by k >= 1 moves the day by at least 28 |
| DateRange.AdvanceYear | src/utils/date-range.ts:94 | moving the year forward by one moves the time by at least 364 days |
| DateRange.Iterates | src/utils/date-range.ts:60 | the cursors start at `from`, each one is the step of the one before, all lie within `until`, and the next one would be past it |
| DateRange.PushBuckets | src/utils/date-range.ts:58-98 | the loop pushes one bucket per cursor, in order |
| DateRange.SplitIntoBuckets | src/utils/date-range.ts:57-100 | the result is the cursors' buckets that start by `until`; when every cursor keeps its year, the final filter removes none |
| DateRange.RangeBucketsAll | src/utils/date-range.ts:99 | when the granularity is days or weeks, or the range lies after year 99 or before year 0, the final filter removes no bucket |
| DateRange.EarlyYearsDropped | src/utils/date-range.ts:57-100 | a monthly, half-yearly or yearly range within years 0..99 gives no bucket, because every bucket lies in year 1900 + year, after `until` |
| DateRange.KeepStartingBy | src/utils/date-range.ts:99 | keeps exactly the buckets that start by `until` |
| DateRange.BucketsWithin | src/utils/date-range.ts:57-100 | bucket i contains cursor i exactly when it keeps the cursor's year, and then starts by `until` |
| DateRange.BucketsSpec | src/utils/date-range.ts:57-100 | bucket i is the calendar period around cursor i; it contains the cursor exactly when it keeps the cursor's year, and then starts by `until` |
| DateRange.Contiguous | src/utils/date-range.ts:58-98 | when each next bucket starts right after the one before, the buckets are adjacent |
| DateRange.DailyBuckets | src/utils/date-range.ts:62-68 | one daily bucket per day from `from` to `until`, each adjacent to the next |
| DateRange.WeeklyBuckets | src/utils/date-range.ts:69-74 | each weekly bucket is adjacent to the next |
| DateRangeExamples.AutoWeekTitleExample | src/utils/date-range.ts:141-151 | every time in the week of 2024-08-05 gets the documented title "2024 年 第 32 周（08-05 ~ 08-11）" |
| DateRangeExamples.QuarterBuckets | src/utils/__tests__/date-range.spec.ts:11-17 | 2024-01-01 to 2024-03-31 by month gives three buckets, the first labelled "2024-01", and the final filter keeps all three |
| DateRangeExamples.FebruaryOfYearZero | src/utils/date-range.ts:132-134 | `lastDayOfMonth(0, 1)` is 28 although year 0 is a leap year, because `new Date` reads year 0 as 1900 |
| ReportGenerator.CountByStatus | src/utils/report-generator.ts:48-57 | the counting loop returns the counts of the status tally function |
| ReportGenerator.StatusCountsSpec | src/utils/report-generator.ts:48-57 | total is the list length and the sum of the three counts; done and in_progress count their statuses; todo counts every other status |
| ReportGenerator.CountByPriority | src/utils/report-generator.ts:59-67 | the counting loop returns the counts of the priority tally function |
| ReportGenerator.PriorityCountsSpec | src/utils/report-generator.ts:59-67 | the counts sum to the list length; low and high count their priorities; medium counts every other priority |
| ReportGenerator.HighFirstSplit | src/utils/report-generator.ts:70 | the highlight sort puts the high-priority done tasks first, each group in input order |
| ReportGenerator.PickHighlights | src/utils/report-generator.ts:69-73 | `pickHighlights(list)`: the sorted done tasks cut to 5, then the in-progress tasks cut to 3; HighlightsSpec states the result |
| ReportGenerator.HighlightsSpec | src/utils/report-generator.ts:69-73 | at most five done tasks, high priority first, then at most three in-progress tasks, each in input order; at most eight in all |
| ReportGenerator.RiskIsOverdue | src/utils/report-generator.ts:75-78 | the risk filter is the overdue filter, because a missing due date never counts |
| ReportGenerator.AutoTitleForQuery | src/utils/report-generator.ts:80-88 | only the title changes; it starts with the granularity's prefix |
| ReportGenerator.GenerateReport | src/utils/report-generator.ts:9-44 | `generatedAt` is now; there is one report bucket per bucket that `splitIntoBuckets` returns |
| ReportGenerator.BucketSpec | src/utils/report-generator.ts:10-18 | bucket i keeps the label and the bounds; its tasks are exactly those whose effective date falls in its period; its counts count them |
| ReportGenerator.BucketReportSpec | src/utils/report-generator.ts:11-17 | a bucket report holds the tasks dated in the bucket, with their counts |
| ReportGenerator.SummarySpec | src/utils/report-generator.ts:20-22 | the status counts are those of the tasks dated in the query range; the priority counts cover every task; `overdue` is the length of the overdue section |
| ReportGenerator.SectionsSpec | src/utils/report-generator.ts:24-30 | in-progress, planned and overdue hold exactly the tasks of their status, or overdue at now |
| ReportGenerator.PickRisks | src/utils/report-generator.ts:75-78 | `pickRisks(list)` at time now: the not-done tasks due before now, cut to 10; RisksPrefixOfOverdue and RiskIsOverdue state the result |
| ReportGenerator.RisksPrefixOfOverdue | src/utils/report-generator.ts:28-29 | the risks are the first ten overdue tasks, or all of them when there are fewer |
| ReportGenerator.TitleSpec | src/utils/report-generator.ts:33 | the title is the granularity's prefix and then the first bucket's label, or an empty label when there is no bucket |
| ReportGenerator.ReportNonEmpty | src/utils/report-generator.ts:9-22 | a task dated inside the range makes the total positive; a non-empty range whose cursors keep their years gives a bucket |
| ReportGenerator.ReportScenario | src/utils/__tests__/report-generator.spec.ts:4-17 | the repository's three tasks and a weekly query ±7 days give a positive total and at least one bucket |
| ReportFormatter.EscapeMd | src/utils/report-formatter.ts:93-95 | the escaped text is longer by exactly the number of special characters |
| ReportFormatter.UnescapeEscape | src/utils/report-formatter.ts:93-95 | unescaping the escaped text gives the title back |
| ReportFormatter.EscapePlain | src/utils/report-formatter.ts:93-95 | text without special characters is unchanged |
| ReportFormatter.EscapeMembers | src/utils/report-formatter.ts:93-95 | escaping adds only backslashes |
| ReportFormatter.SymbolForStatus | src/utils/report-formatter.ts:97-99 | ✓ iff done, … iff in_progress, a space otherwise |
| ReportFormatter.RenderTaskList | src/utils/report-formatter.ts:88-91 | "_无_" exactly for an empty list |
| ReportFormatter.TaskLine | src/utils/report-formatter.ts:90 | the line `renderTaskList` maps each task to; TaskLineSpec states its parts |
| ReportFormatter.TaskLineSpec | src/utils/report-formatter.ts:90 | a line is the status box and the escaped title, then ` (P<id>)` iff the project id is non-zero, then ` · 截止 <date>` iff the due date is present and non-zero, and nothing else |
| ReportFormatter.RenderedLines | src/utils/report-formatter.ts:88-91 | a non-empty list with single-line titles renders as one line per task, in order |
| ReportFormatter.FmtDateShape | src/utils/report-formatter.ts:101-102 | `fmtDate` gives the year, the one-based month in two digits and the date in two digits |
| ReportFormatter.FmtDateTimeShape | src/utils/report-formatter.ts:103 | `fmtDateTime` is the date, a space, the hour in two digits, a colon and the minute in two digits |
| ReportFormatter.HeaderLines | src/utils/report-formatter.ts:5-31 | 27 header lines, the first being the title line |
| ReportFormatter.BlocksSpec | src/utils/report-formatter.ts:32-36 | with three-line blocks, element i occupies lines 3i to 3i+2 |
| ReportFormatter.PushBucketBlocks | src/utils/report-formatter.ts:32-36 | the loop appends each bucket's heading, task list and blank line, in bucket order |
| ReportFormatter.ToMarkdown | src/utils/report-formatter.ts:3-38 | the document is the header lines and the bucket blocks joined by line breaks, and it starts with `# 周报 | ` |
| ReportFormatter.TitleLineStart | src/utils/report-formatter.ts:5 | the title line is `# 周报 | `, then the query's title or its granularity |
| ReportFormatter.MarkdownStructure | src/utils/report-formatter.ts:3-37 | 27 + 3·(bucket count) lines; bucket i is `### label`, its task list and a blank line at lines 27+3i to 29+3i |
| ReportFormatter.GeneratedTitleLine | src/utils/report-formatter.ts:5 | the fixed `# 周报 | ` comes before the generated prefix, so a monthly report reads `# 周报 | 月报 | …` |

## Left out

- Sockets, `start`/`stop`, multicast membership, timers and `setInterval` (udp-service.ts 35-43, 60-75) are I/O. The model begins at the message listener and the send methods.
- `HandlerRun.escaped` and the throw flags record only whether an exception leaves a call. The callbacks themselves are outside the model; `OnTaskCompleteMessageUnguarded` is the handler without its guards, kept only for comparison.
- Callbacks, `notify`, `beep`, the socket's `send` and handlers appear as entries in logs. Their own effects and exceptions are not modelled; an exception from `send` inside `broadcastHeartbeat` is swallowed there.
- `Date.now()` is one `now` parameter per operation. `generateReport` calls it separately for the overdue count, the risks, the overdue section and `generatedAt`, which may differ by milliseconds. UdpService.LanService.GetOnlinePeers uses one `now` for both `sweep` and `listOnline` (udp-service.ts:78-79), which each read the clock in the source.
- Local time is a zone with no offset: DST and other time zones are not modelled.
- TaskComplete.SentTitle, TaskComplete.BroadcastPayload, TaskComplete.SentTitleSurvivesService, UdpService.LanService.SendTaskComplete and Messages.MessagesDao.Create: strings are exact only for text inside the Basic Multilingual Plane. A Dafny character cannot be a lone surrogate, so a character outside that plane (an emoji) is one character here and two UTF-16 code units in JavaScript. The cuts `slice(0, 200)` of titles and `slice(0, 2000)` of chat text are counted in characters here; a title of 150 emoji keeps all 150 in the model, where the source keeps 100. The other string operations touch only ASCII characters and digits and do not depend on this.
- The floating-point `completionRate` and `toFixed(1)` are not modelled. `ToMarkdown` takes the rate's text as a parameter.
- `toHtml` and `toPdfReadyHtml` are regular-expression rewrites of the Markdown, and are not modelled.
- JSON text parsing itself is not modelled: a datagram is either a parsed JSON value or text that does not parse. Numbers are integers, and NaN is not modelled.
- Extra fields of incoming packets are not kept in the packet values.
- `TaskCompleteMessage`, which `udp-service.ts` imports from `presence.ts`, is not declared there. It is modelled as a third packet kind that the validator never yields.
- UdpService.Resolve and UdpService.LanService.constructor: options explicitly set to `undefined` are modelled as absent. In the source, `Object.assign` would copy the `undefined`.
- Presence.PresenceRegistry.constructor: the default threshold of 10 seconds is not modelled, because the service always passes its own.
- Presence.PresenceRegistry.UpsertHeartbeat: when the entry is unchanged, the source updates `existing.lastSeen` in place, and objects returned earlier see the write. The model stores an equal value, so aliasing is not captured.
- Messages.MessagesDao.ListToday: SQLite does not fix the order of rows with equal `ts`. The result is stated as a ts-sorted permutation of today's rows.
- The SQL database, prepared statements and `Number(lastInsertRowid)` become a row sequence and a counter.
- Messages.MessagesDao.constructor: the source runs `CREATE TABLE IF NOT EXISTS` on the shared database of `DatabaseManager.getDatabase()`, so a second DAO sees the rows already stored. The model's constructor is the fresh-database case only: it starts with no rows and a zero counter.
- Messages.MessagesDao.ListTodayWithPeer: the query mixes a positional `?` for `day_key` with the named `@a` and `@b`, and passes one object `{ a, b, day_key }`. The model assumes the driver binds the `?` to the day key. If better-sqlite3 refuses that mix, the source throws instead.
- Messages.ListingScenario: the scenario assumes `now` and `now + 10` fall on the same day. The repository's test assumes the same.
- `projectId` and `dueDate` truthiness are modelled for integers (zero and absent are falsy). NaN is not modelled.
- DateRange.ComputeDateRange: with both `from` and `to` given, the source calls `makeLabel`, which is defined nowhere. That path is modelled as a failure, and no range is computed for it.
- DateRange.AutoWeekTitle: the week number counts days from January 1 of the week-year, which is not the ISO week number in every year. Only the documented example is proved (`DateRangeExamples.AutoWeekTitleExample`).
- DateRange.SplitIntoBuckets: monthly and half-yearly cursors use `setMonth`, which rolls over from the 29th to the 31st of a month and can skip a month. The model keeps that behaviour and proves only that the cursor advances; it does not prove that the buckets are adjacent for those granularities or for years.
- Calendar.NewDate, SetDate, SetMonth, SetFullYear and SetHours do not model the limit of ±8.64e15 ms on time values, beyond which JavaScript gives an Invalid Date with NaN fields. Every date lemma in `DateRange`, `ReportGenerator` and `ReportFormatter` is stated for all integer times, including those the source turns into an Invalid Date.
- The `to` of the queries and options is named `until`, a naming choice that keeps it apart from the `to` of `for` loops.
- `normalizeGranularity` is the identity and is not modelled separately.
- The formatter's own `pad` and `fmtDate` are written exactly like date-range's, so both use `DateRange.Pad` and `DateRange.FormatDate`.
