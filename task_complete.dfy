/**
 * The task-complete bridge between the task list and the LAN service: the
 * broadcast rule for a task update, and the handler that turns a received
 * task-complete message into a notification and a beep.  The injected
 * `notify`, `beep` and `sendTaskComplete` callbacks are recorded as effects.
 */
module TaskComplete {
  import opened Wrappers
  import opened Text
  import opened Presence
  import opened UdpService

  /** The fields of a task row the bridge looks at. */
  datatype TaskRowLite = TaskRowLite(id: int, title: string, status: string)

  /** A call of an injected callback. */
  datatype Effect =
    | Notify(title: string, body: string)
    | Beep
    | SendTaskComplete(taskId: int, taskTitle: string)

  const DefaultTitle: string := "已完成任务"
  const NotificationTitle: string := "任务完成"

  /** `String(title || '已完成任务').slice(0, 200)`. */
  function SentTitle(title: string): (t: string)
    ensures 1 <= |t| <= 200
    ensures title != "" ==> t <= title && |t| == Min(200, |title|)
    ensures title == "" ==> t == DefaultTitle
  {
    Take(if title == "" then DefaultTitle else title, 200)
  }

  /**
   * `maybeBroadcastTaskComplete(lan, before, after)`: one send when a task
   * goes from not done to done and both rows and the service are present.
   */
  function MaybeBroadcastTaskComplete(lanPresent: bool, before: Option<TaskRowLite>, after: Option<TaskRowLite>): (effects: seq<Effect>)
    ensures |effects| <= 1
    ensures forall i :: 0 <= i < |effects| ==> effects[i].SendTaskComplete?
  {
    if !lanPresent || after.None? || before.None? then []
    else if before.value.status == "done" then []
    else if after.value.status != "done" then []
    else [SendTaskComplete(after.value.id, SentTitle(after.value.title))]
  }

  /** A send happens exactly on a not-done to done transition with the service present. */
  lemma BroadcastIff(lanPresent: bool, before: Option<TaskRowLite>, after: Option<TaskRowLite>)
    ensures MaybeBroadcastTaskComplete(lanPresent, before, after) != [] <==>
      lanPresent && before.Some? && after.Some? && before.value.status != "done" && after.value.status == "done"
  {
  }

  /** What is sent: the new row's id and its title, defaulted and cut to 200 characters. */
  lemma BroadcastPayload(lanPresent: bool, before: Option<TaskRowLite>, after: Option<TaskRowLite>, taskId: int, taskTitle: string)
    requires MaybeBroadcastTaskComplete(lanPresent, before, after) == [SendTaskComplete(taskId, taskTitle)]
    ensures after.Some? && taskId == after.value.id
    ensures 1 <= |taskTitle| <= 200
    ensures after.value.title != "" ==> taskTitle <= after.value.title
    ensures after.value.title != "" ==> |taskTitle| == Min(200, |after.value.title|)
    ensures after.value.title == "" ==> taskTitle == DefaultTitle
  {
  }

  /** The service cuts the title to 200 characters again, which changes nothing. */
  lemma SentTitleSurvivesService(title: string)
    ensures Take(SentTitle(title), 200) == SentTitle(title)
  {
  }

  /** The repository's broadcast scenario for task 7 and the already-done task 8. */
  lemma BroadcastScenario(title: string, done: string)
    requires title == "实现功能" && done == "已完成"
    ensures MaybeBroadcastTaskComplete(true, Some(TaskRowLite(7, title, "in_progress")), Some(TaskRowLite(7, title, "in_progress"))) == []
    ensures MaybeBroadcastTaskComplete(true, Some(TaskRowLite(7, title, "in_progress")), Some(TaskRowLite(7, title, "done"))) ==
      [SendTaskComplete(7, title)]
    ensures MaybeBroadcastTaskComplete(true, Some(TaskRowLite(8, done, "done")), Some(TaskRowLite(8, done, "done"))) == []
  {
  }

  /** The notification text for a received message. */
  function NotificationBody(fromName: string, taskTitle: string): (body: string)
    ensures |body| == |fromName| + |taskTitle| + 8
    ensures body[..|fromName|] == fromName
    ensures body[|fromName|..|fromName| + 7] == " 完成了任务「"
    ensures body[|fromName| + 7..|fromName| + 7 + |taskTitle|] == taskTitle
    ensures body[|body| - 1] == '」'
  {
    fromName + " 完成了任务「" + taskTitle + "」"
  }

  /** The calls a handler run makes, and whether an exception escaped it. */
  datatype HandlerRun = HandlerRun(calls: seq<Effect>, escaped: bool)

  /**
   * One call made directly: after an exception has escaped no further call
   * is made; otherwise the call is made and its exception, if any, escapes.
   */
  function Unguarded(run: HandlerRun, call: Effect, throws: bool): HandlerRun {
    if run.escaped then run else HandlerRun(run.calls + [call], throws)
  }

  /**
   * One call inside `try { ... } catch {}`: the call is made on its own, and
   * the `catch` drops the exception it may throw.
   */
  function Guarded(run: HandlerRun, call: Effect, throws: bool): HandlerRun {
    if run.escaped then run
    else
      var inner := Unguarded(HandlerRun(run.calls, false), call, throws);
      HandlerRun(inner.calls, false)
  }

  /**
   * The `try` block makes the call whether or not it throws, and whatever it
   * throws is swallowed; after an earlier escape nothing runs at all.
   */
  lemma GuardedSwallows(run: HandlerRun, call: Effect, throws: bool)
    ensures Guarded(run, call, throws) == Guarded(run, call, false)
    ensures !run.escaped ==> Guarded(run, call, throws) == HandlerRun(run.calls + [call], false)
    ensures run.escaped ==> Guarded(run, call, throws) == run
  {
  }

  /** A call made directly lets a throw escape, and no later call is made. */
  lemma UnguardedStops(run: HandlerRun, call: Effect, next: Effect, nextThrows: bool)
    requires !run.escaped
    ensures Unguarded(Unguarded(run, call, true), next, nextThrows) == HandlerRun(run.calls + [call], true)
  {
  }

  /**
   * The handler `setupLanTaskCompleteNotifications` registers, run on msg,
   * with `notify` and `beep` each throwing or not.
   */
  function OnTaskCompleteMessage(msg: Packet, notifyThrows: bool, beepThrows: bool): HandlerRun
    requires msg.TaskComplete?
  {
    var afterNotify := Guarded(HandlerRun([], false), Notify(NotificationTitle, NotificationBody(msg.fromName, msg.taskTitle)), notifyThrows);
    Guarded(afterNotify, Beep, beepThrows)
  }

  /** The same handler without the two `try` blocks. */
  function OnTaskCompleteMessageUnguarded(msg: Packet, notifyThrows: bool, beepThrows: bool): HandlerRun
    requires msg.TaskComplete?
  {
    var afterNotify := Unguarded(HandlerRun([], false), Notify(NotificationTitle, NotificationBody(msg.fromName, msg.taskTitle)), notifyThrows);
    Unguarded(afterNotify, Beep, beepThrows)
  }

  /**
   * Without the `try` blocks a throwing `notify` would skip the beep and
   * escape the handler; with them the handler beeps and nothing escapes.
   */
  lemma GuardsKeepBeep(msg: Packet, beepThrows: bool)
    requires msg.TaskComplete?
    ensures OnTaskCompleteMessageUnguarded(msg, true, beepThrows) ==
      HandlerRun([Notify(NotificationTitle, NotificationBody(msg.fromName, msg.taskTitle))], true)
    ensures OnTaskCompleteMessage(msg, true, beepThrows).calls ==
      OnTaskCompleteMessageUnguarded(msg, true, beepThrows).calls + [Beep]
    ensures !OnTaskCompleteMessage(msg, true, beepThrows).escaped
  {
  }

  /** Each message gives one notification, then one beep, whatever the callbacks throw, and nothing escapes. */
  lemma HandlerEffects(msg: Packet, notifyThrows: bool, beepThrows: bool)
    requires msg.TaskComplete?
    ensures OnTaskCompleteMessage(msg, notifyThrows, beepThrows) ==
      HandlerRun([Notify(NotificationTitle, NotificationBody(msg.fromName, msg.taskTitle)), Beep], false)
  {
  }

  /** The repository's notification scenario. */
  lemma NotificationScenario(fromName: string, taskTitle: string)
    requires fromName == "Alice" && taskTitle == "写日报"
    ensures NotificationBody(fromName, taskTitle) == "Alice 完成了任务「写日报」"
  {
  }

  /**
   * `setupLanTaskCompleteNotifications(lan, notify, beep)`: registers one new
   * handler (a fresh closure) on the service and returns its unsubscribe.
   */
  method SetupLanTaskCompleteNotifications(lan: LanService, handler: HandlerId) returns (unsubscribe: Subscription)
    requires handler !in lan.taskHandlers
    modifies lan
    ensures lan.taskHandlers == old(lan.taskHandlers) + [handler] && lan.chatHandlers == old(lan.chatHandlers)
    ensures lan.calls == old(lan.calls) && lan.sent == old(lan.sent)
    ensures unsubscribe == Subscription(TaskCompleteKind, handler)
    ensures Without(lan.taskHandlers, handler) == old(lan.taskHandlers)
  {
    unsubscribe := lan.OnTaskComplete(handler);
    SubscribeThenUnsubscribe(old(lan.taskHandlers), handler);
  }
}
