/**
 * The UDP LAN service: option defaults, the dispatch of received datagrams,
 * handler registration, and the packets it sends.  The socket is replaced by
 * a log of the datagrams handed to `send`, the handlers by identities whose
 * invocations are logged, and `Date.now()` by a `now` parameter.  A datagram
 * carries the JSON value its packet stringifies to; a receiver parses the
 * same value back.
 */
module UdpService {
  import opened Wrappers
  import opened Json
  import opened Sorting
  import opened Text
  import opened Presence

  const DefaultMulticastAddress: string := "239.255.255.250"
  const DefaultPort: int := 53210
  const DefaultHeartbeatIntervalMs: int := 3000
  const DefaultOfflineAfterMs: int := 10000

  /** The options a caller may pass; an absent one takes its default. */
  datatype UdpLanOptions = UdpLanOptions(
    multicastAddress: Option<string>,
    port: Option<int>,
    heartbeatIntervalMs: Option<int>,
    offlineAfterMs: Option<int>)

  /** `Required<UdpLanOptions>`: every option resolved. */
  datatype LanConfig = LanConfig(multicastAddress: string, port: int, heartbeatIntervalMs: int, offlineAfterMs: int)

  /** `Object.assign({}, defaults, options)`. */
  function Resolve(options: Option<UdpLanOptions>): (c: LanConfig)
    ensures options.None? ==> c == LanConfig(DefaultMulticastAddress, DefaultPort, DefaultHeartbeatIntervalMs, DefaultOfflineAfterMs)
    ensures options.Some? ==>
      c.multicastAddress == options.value.multicastAddress.GetOr(DefaultMulticastAddress) &&
      c.port == options.value.port.GetOr(DefaultPort) &&
      c.heartbeatIntervalMs == options.value.heartbeatIntervalMs.GetOr(DefaultHeartbeatIntervalMs) &&
      c.offlineAfterMs == options.value.offlineAfterMs.GetOr(DefaultOfflineAfterMs)
  {
    match options
    case None => LanConfig(DefaultMulticastAddress, DefaultPort, DefaultHeartbeatIntervalMs, DefaultOfflineAfterMs)
    case Some(o) =>
      LanConfig(
        o.multicastAddress.GetOr(DefaultMulticastAddress),
        o.port.GetOr(DefaultPort),
        o.heartbeatIntervalMs.GetOr(DefaultHeartbeatIntervalMs),
        o.offlineAfterMs.GetOr(DefaultOfflineAfterMs))
  }

  // The packets the service sends, as the JSON objects `JSON.stringify` writes.

  /** The heartbeat object `{ type, deviceId, name, port, ts }`. */
  function HeartbeatJson(deviceId: string, name: string, port: int, ts: int): Json {
    JObject(map["type" := JString("heartbeat"), "deviceId" := JString(deviceId), "name" := JString(name),
      "port" := JNumber(port), "ts" := JNumber(ts)])
  }

  /** The chat object; a missing recipient leaves `to` out, as `JSON.stringify` drops undefined. */
  function ChatJson(from: string, to: Option<string>, text: string, ts: int): Json {
    var fields := map["type" := JString("chat"), "from" := JString(from), "text" := JString(text), "ts" := JNumber(ts)];
    match to
    case None => JObject(fields)
    case Some(id) => JObject(fields["to" := JString(id)])
  }

  /** The task-complete object `{ type, from, fromName, taskId, taskTitle, ts }`. */
  function TaskCompleteJson(from: string, fromName: string, taskId: int, taskTitle: string, ts: int): Json {
    JObject(map["type" := JString("task-complete"), "from" := JString(from), "fromName" := JString(fromName),
      "taskId" := JNumber(taskId), "taskTitle" := JString(taskTitle), "ts" := JNumber(ts)])
  }

  /** The recipient field as the parser passes it on. */
  function RecipientValue(to: Option<string>): Option<Json> {
    match to
    case None => None
    case Some(id) => Some(JString(id))
  }

  /** A sent heartbeat is accepted by every receiver's validator, field for field. */
  lemma HeartbeatRoundTrip(deviceId: string, name: string, port: int, ts: int)
    ensures TryParsePacket(Parsed(HeartbeatJson(deviceId, name, port, ts))) == Some(Heartbeat(deviceId, name, port, ts))
  {
    ParseHeartbeat(HeartbeatJson(deviceId, name, port, ts), deviceId, name, port, ts);
  }

  /** A sent chat is accepted by every receiver's validator, with its recipient. */
  lemma ChatRoundTrip(from: string, to: Option<string>, text: string, ts: int)
    ensures TryParsePacket(Parsed(ChatJson(from, to, text, ts))) == Some(Chat(from, RecipientValue(to), text, ts))
  {
    ParseChat(ChatJson(from, to, text, ts), from, RecipientValue(to), text, ts);
  }

  /**
   * A sent task-complete packet is dropped by every receiver: the validator
   * accepts only heartbeats and chats, so the service's own task-complete
   * handlers never run for a datagram it receives.
   */
  lemma TaskCompleteDropped(from: string, fromName: string, taskId: int, taskTitle: string, ts: int)
    ensures TryParsePacket(Parsed(TaskCompleteJson(from, fromName, taskId, taskTitle, ts))) == None
  {
    ParseRejectsOtherTypes(TaskCompleteJson(from, fromName, taskId, taskTitle, ts));
  }

  // Dispatch of a received packet.

  /** What the message listener does with a packet. */
  datatype Route = Ignore | Upsert | DeliverChat | DeliverTaskComplete

  /**
   * The listener's rules: a heartbeat is always recorded (the service's own
   * included); a chat from this device, or addressed (with a truthy `to`) to
   * another device, is ignored; a task-complete from this device is ignored.
   */
  function RouteOf(packet: Option<Packet>, self: string): Route {
    match packet
    case None => Ignore
    case Some(Heartbeat(_, _, _, _)) => Upsert
    case Some(Chat(from, to, _, _)) =>
      if from == self then Ignore
      else if to.Some? && Truthy(to.value) && to.value != JString(self) then Ignore
      else DeliverChat
    case Some(TaskComplete(from, _, _, _, _)) =>
      if from == self then Ignore else DeliverTaskComplete
  }

  /** A chat reaches the handlers exactly when it is from another device and is a broadcast or addressed to this one. */
  lemma ChatDelivery(from: string, to: Option<Json>, text: string, ts: int, self: string)
    ensures RouteOf(Some(Chat(from, to, text, ts)), self) == DeliverChat <==>
      from != self && (to == None || !Truthy(to.value) || to.value == JString(self))
  {
  }

  /** No received datagram ever reaches the task-complete handlers. */
  lemma NoTaskCompleteDelivery(input: Input, self: string)
    ensures RouteOf(TryParsePacket(input), self) != DeliverTaskComplete
  {
  }

  /** A device's own chat comes back to it ignored; its own heartbeat is recorded. */
  lemma OwnPackets(self: string, name: string, port: int, to: Option<string>, text: string, ts: int)
    ensures RouteOf(TryParsePacket(Parsed(ChatJson(self, to, text, ts))), self) == Ignore
    ensures RouteOf(TryParsePacket(Parsed(HeartbeatJson(self, name, port, ts))), self) == Upsert
  {
    ChatRoundTrip(self, to, text, ts);
    HeartbeatRoundTrip(self, name, port, ts);
  }

  /** A chat sent by another device is delivered exactly when it is a broadcast or addressed to this device. */
  lemma SentChatDelivery(from: string, to: Option<string>, text: string, ts: int, self: string)
    requires from != self
    ensures RouteOf(TryParsePacket(Parsed(ChatJson(from, to, text, ts))), self) == DeliverChat <==>
      to == None || to == Some([]) || to == Some(self)
  {
    ChatRoundTrip(from, to, text, ts);
  }

  // The service object.

  /** A registered handler, by identity. */
  type HandlerId = nat

  /** An invocation of a handler with the packet it received. */
  datatype Call = ChatCall(handler: HandlerId, packet: Packet) | TaskCompleteCall(handler: HandlerId, packet: Packet)

  /** A datagram passed to `socket.send`: its payload, port and address. */
  datatype Datagram = Datagram(payload: Json, port: int, address: string)

  datatype Kind = ChatKind | TaskCompleteKind

  /** The unsubscribe function `onChat`/`onTaskComplete` return. */
  datatype Subscription = Subscription(kind: Kind, handler: HandlerId)

  /** A network interface entry of `os.networkInterfaces()`. */
  datatype IfaceInfo = IfaceInfo(family: string, internal: bool)

  predicate Eligible(info: IfaceInfo) {
    info.family == "IPv4" && !info.internal
  }

  /** The eligible entries in one interface's address list. */
  function EligibleIn(infos: seq<IfaceInfo>): nat {
    if infos == [] then 0
    else EligibleIn(infos[..|infos| - 1]) + (if Eligible(infos[|infos| - 1]) then 1 else 0)
  }

  /** The eligible entries over all interfaces; an absent list counts none. */
  function EligibleCount(ifaces: seq<Option<seq<IfaceInfo>>>): nat {
    if ifaces == [] then 0
    else
      var last := ifaces[|ifaces| - 1];
      EligibleCount(ifaces[..|ifaces| - 1]) + (if last.None? then 0 else EligibleIn(last.value))
  }

  /** x, n times. */
  function Copies<T>(x: T, n: nat): (r: seq<T>)
    ensures |r| == n && forall i :: 0 <= i < n ==> r[i] == x
  {
    if n == 0 then [] else Copies(x, n - 1) + [x]
  }

  lemma CopiesAdd<T>(x: T, m: nat, n: nat)
    ensures Copies(x, m) + Copies(x, n) == Copies(x, m + n)
  {
  }

  /** Without the other handler, in order: `handlers.filter((h) => h !== handler)`. */
  function Without(handlers: seq<HandlerId>, handler: HandlerId): seq<HandlerId> {
    Filter((h: HandlerId) => h != handler, handlers)
  }

  /** The log entries a chat delivery adds: each chat handler once, in registration order. */
  function ChatCalls(handlers: seq<HandlerId>, packet: Packet): (r: seq<Call>)
    ensures |r| == |handlers|
    ensures forall i :: 0 <= i < |r| ==> r[i] == ChatCall(handlers[i], packet)
  {
    if handlers == [] then [] else ChatCalls(handlers[..|handlers| - 1], packet) + [ChatCall(handlers[|handlers| - 1], packet)]
  }

  /** The log entries a task-complete delivery adds. */
  function TaskCompleteCalls(handlers: seq<HandlerId>, packet: Packet): (r: seq<Call>)
    ensures |r| == |handlers|
    ensures forall i :: 0 <= i < |r| ==> r[i] == TaskCompleteCall(handlers[i], packet)
  {
    if handlers == [] then [] else TaskCompleteCalls(handlers[..|handlers| - 1], packet) + [TaskCompleteCall(handlers[|handlers| - 1], packet)]
  }

  class LanService {
    const deviceId: string
    const name: string
    const options: LanConfig
    const presence: PresenceRegistry
    var chatHandlers: seq<HandlerId>
    var taskHandlers: seq<HandlerId>
    /** Every handler invocation, in order. */
    var calls: seq<Call>
    /** Every datagram handed to the socket, in order. */
    var sent: seq<Datagram>

    ghost predicate Valid()
      reads this, presence
    {
      presence.Valid() && presence.offlineAfterMs == options.offlineAfterMs
    }

    /** `new UdpLanService({ deviceId, name, options })`. */
    constructor(deviceId: string, name: string, options: Option<UdpLanOptions>)
      ensures Valid() && fresh(presence)
      ensures this.deviceId == deviceId && this.name == name && this.options == Resolve(options)
      ensures presence.peers == [] && chatHandlers == [] && taskHandlers == [] && calls == [] && sent == []
    {
      this.deviceId := deviceId;
      this.name := name;
      var resolved := Resolve(options);
      this.options := resolved;
      presence := new PresenceRegistry(resolved.offlineAfterMs);
      chatHandlers := [];
      taskHandlers := [];
      calls := [];
      sent := [];
    }

    /** The message listener: validates the datagram, then routes the packet. */
    method HandleMessage(msg: Input, rinfoAddress: string, now: int)
      requires Valid()
      modifies this, presence
      ensures Valid()
      ensures chatHandlers == old(chatHandlers) && taskHandlers == old(taskHandlers) && sent == old(sent)
      ensures Routed(TryParsePacket(msg), rinfoAddress, now, old(presence.peers), old(calls))
    {
      Dispatch(TryParsePacket(msg), rinfoAddress, now);
    }

    /** The new registry and call log after routing packet, given the old ones. */
    ghost predicate Routed(packet: Option<Packet>, rinfoAddress: string, now: int, peers0: seq<PeerInfo>, calls0: seq<Call>)
      reads this, presence
    {
      match RouteOf(packet, deviceId)
      case Upsert =>
        presence.peers == Stored(peers0,
          PeerInfo(packet.value.deviceId, packet.value.name, rinfoAddress, packet.value.port, now))
        && calls == calls0
      case DeliverChat => presence.peers == peers0 && calls == calls0 + ChatCalls(chatHandlers, packet.value)
      case DeliverTaskComplete => presence.peers == peers0 && calls == calls0 + TaskCompleteCalls(taskHandlers, packet.value)
      case Ignore => presence.peers == peers0 && calls == calls0
    }

    /** The body of the listener after `if (!packet) return`, for any packet. */
    method Dispatch(packet: Option<Packet>, rinfoAddress: string, now: int)
      requires Valid()
      modifies this, presence
      ensures Valid()
      ensures chatHandlers == old(chatHandlers) && taskHandlers == old(taskHandlers) && sent == old(sent)
      ensures Routed(packet, rinfoAddress, now, old(presence.peers), old(calls))
    {
      var route := RouteOf(packet, deviceId);
      if route == Upsert {
        var p := packet.value;
        var _ := presence.UpsertHeartbeat(p.deviceId, p.name, rinfoAddress, p.port, now);
      } else if route == DeliverChat {
        InvokeChatHandlers(packet.value);
      } else if route == DeliverTaskComplete {
        InvokeTaskCompleteHandlers(packet.value);
      }
    }

    /** `this.onChatHandlers.forEach((h) => h(packet))`. */
    method InvokeChatHandlers(packet: Packet)
      modifies this
      ensures calls == old(calls) + ChatCalls(chatHandlers, packet)
      ensures chatHandlers == old(chatHandlers) && taskHandlers == old(taskHandlers) && sent == old(sent)
    {
      var i := 0;
      while i < |chatHandlers|
        invariant 0 <= i <= |chatHandlers|
        invariant calls == old(calls) + ChatCalls(chatHandlers[..i], packet)
        invariant chatHandlers == old(chatHandlers) && taskHandlers == old(taskHandlers) && sent == old(sent)
      {
        assert chatHandlers[..i + 1][..i] == chatHandlers[..i];
        calls := calls + [ChatCall(chatHandlers[i], packet)];
        i := i + 1;
      }
      assert chatHandlers[..i] == chatHandlers;
    }

    /** `this.onTaskCompleteHandlers.forEach((h) => h(packet))`. */
    method InvokeTaskCompleteHandlers(packet: Packet)
      modifies this
      ensures calls == old(calls) + TaskCompleteCalls(taskHandlers, packet)
      ensures chatHandlers == old(chatHandlers) && taskHandlers == old(taskHandlers) && sent == old(sent)
    {
      var i := 0;
      while i < |taskHandlers|
        invariant 0 <= i <= |taskHandlers|
        invariant calls == old(calls) + TaskCompleteCalls(taskHandlers[..i], packet)
        invariant chatHandlers == old(chatHandlers) && taskHandlers == old(taskHandlers) && sent == old(sent)
      {
        assert taskHandlers[..i + 1][..i] == taskHandlers[..i];
        calls := calls + [TaskCompleteCall(taskHandlers[i], packet)];
        i := i + 1;
      }
      assert taskHandlers[..i] == taskHandlers;
    }

    /** `getOnlinePeers()`: sweeps the registry, then lists what is online. */
    method GetOnlinePeers(now: int) returns (online: seq<PeerInfo>)
      requires Valid()
      modifies presence
      ensures Valid()
      ensures presence.peers == Filter(OnlineAt(now, options.offlineAfterMs), old(presence.peers))
      ensures online == OnlineList(old(presence.peers), now, options.offlineAfterMs)
    {
      presence.Sweep(now);
      online := presence.ListOnline(now);
      SweepKeepsOnlineList(old(presence.peers), now, options.offlineAfterMs);
    }

    /** `onChat(handler)`: appends the handler and returns its unsubscribe. */
    method OnChat(handler: HandlerId) returns (sub: Subscription)
      modifies this
      ensures chatHandlers == old(chatHandlers) + [handler] && taskHandlers == old(taskHandlers)
      ensures calls == old(calls) && sent == old(sent)
      ensures sub == Subscription(ChatKind, handler)
    {
      chatHandlers := chatHandlers + [handler];
      sub := Subscription(ChatKind, handler);
    }

    /** `onTaskComplete(handler)`. */
    method OnTaskComplete(handler: HandlerId) returns (sub: Subscription)
      modifies this
      ensures taskHandlers == old(taskHandlers) + [handler] && chatHandlers == old(chatHandlers)
      ensures calls == old(calls) && sent == old(sent)
      ensures sub == Subscription(TaskCompleteKind, handler)
    {
      taskHandlers := taskHandlers + [handler];
      sub := Subscription(TaskCompleteKind, handler);
    }

    /** Calling a returned unsubscribe: every registration of that handler goes. */
    method Unsubscribe(sub: Subscription)
      modifies this
      ensures sub.kind == ChatKind ==>
        chatHandlers == Without(old(chatHandlers), sub.handler) && taskHandlers == old(taskHandlers)
      ensures sub.kind == TaskCompleteKind ==>
        taskHandlers == Without(old(taskHandlers), sub.handler) && chatHandlers == old(chatHandlers)
      ensures calls == old(calls) && sent == old(sent)
    {
      if sub.kind == ChatKind {
        chatHandlers := Without(chatHandlers, sub.handler);
      } else {
        taskHandlers := Without(taskHandlers, sub.handler);
      }
    }

    /** `sendChat(text, toDeviceId)`: one chat datagram to the multicast group. */
    method SendChat(text: string, toDeviceId: Option<string>, now: int)
      modifies this
      ensures sent == old(sent) + [Datagram(ChatJson(deviceId, toDeviceId, text, now), options.port, options.multicastAddress)]
      ensures calls == old(calls) && chatHandlers == old(chatHandlers) && taskHandlers == old(taskHandlers)
    {
      sent := sent + [Datagram(ChatJson(deviceId, toDeviceId, text, now), options.port, options.multicastAddress)];
    }

    /** `sendTaskComplete({ taskId, taskTitle })`: the title is cut to 200 characters. */
    method SendTaskComplete(taskId: int, taskTitle: string, now: int)
      modifies this
      ensures sent == old(sent) +
        [Datagram(TaskCompleteJson(deviceId, name, taskId, Take(taskTitle, 200), now), options.port, options.multicastAddress)]
      ensures calls == old(calls) && chatHandlers == old(chatHandlers) && taskHandlers == old(taskHandlers)
    {
      var title := Take(taskTitle, 200);
      sent := sent + [Datagram(TaskCompleteJson(deviceId, name, taskId, title, now), options.port, options.multicastAddress)];
    }

    /**
     * `broadcastHeartbeat()`: the same heartbeat datagram is sent once for
     * every external IPv4 entry of every interface.
     */
    method BroadcastHeartbeat(ifaces: seq<Option<seq<IfaceInfo>>>, now: int)
      modifies this
      ensures sent == old(sent) +
        Copies(Datagram(HeartbeatJson(deviceId, name, options.port, now), options.port, options.multicastAddress), EligibleCount(ifaces))
      ensures calls == old(calls) && chatHandlers == old(chatHandlers) && taskHandlers == old(taskHandlers)
    {
      var port := options.port;
      var datagram := Datagram(HeartbeatJson(deviceId, name, port, now), port, options.multicastAddress);
      var i := 0;
      while i < |ifaces|
        invariant 0 <= i <= |ifaces|
        invariant sent == old(sent) + Copies(datagram, EligibleCount(ifaces[..i]))
        invariant calls == old(calls) && chatHandlers == old(chatHandlers) && taskHandlers == old(taskHandlers)
      {
        assert ifaces[..i + 1][..i] == ifaces[..i];
        var infos := ifaces[i];
        if infos.Some? {
          var j := 0;
          while j < |infos.value|
            invariant 0 <= j <= |infos.value|
            invariant sent == old(sent) + Copies(datagram, EligibleCount(ifaces[..i]) + EligibleIn(infos.value[..j]))
            invariant calls == old(calls) && chatHandlers == old(chatHandlers) && taskHandlers == old(taskHandlers)
          {
            assert infos.value[..j + 1][..j] == infos.value[..j];
            if Eligible(infos.value[j]) {
              sent := sent + [datagram];
            }
            j := j + 1;
          }
          assert infos.value[..j] == infos.value;
        }
        i := i + 1;
      }
      assert ifaces[..i] == ifaces;
    }
  }

  // Properties of handler registration.

  /** Unsubscribing removes every registration of the handler and keeps the others in order. */
  lemma UnsubscribeRemoves(handlers: seq<HandlerId>, handler: HandlerId, other: HandlerId)
    ensures handler !in Without(handlers, handler)
    ensures other != handler ==> (other in Without(handlers, handler) <==> other in handlers)
  {
    FilterMembers((h: HandlerId) => h != handler, handlers, handler);
    FilterMembers((h: HandlerId) => h != handler, handlers, other);
  }

  /** Registering a new handler and calling its unsubscribe restores the list. */
  lemma SubscribeThenUnsubscribe(handlers: seq<HandlerId>, handler: HandlerId)
    requires handler !in handlers
    ensures Without(handlers + [handler], handler) == handlers
  {
    var keep := (h: HandlerId) => h != handler;
    FilterSnoc(keep, handlers, handler);
    FilterAll(keep, handlers);
  }

  /** Without an external IPv4 address nothing is sent. */
  lemma {:induction false} NoEligibleNoHeartbeat(ifaces: seq<Option<seq<IfaceInfo>>>)
    requires forall i :: 0 <= i < |ifaces| ==> ifaces[i].None? || forall j :: 0 <= j < |ifaces[i].value| ==> !Eligible(ifaces[i].value[j])
    ensures EligibleCount(ifaces) == 0
    decreases |ifaces|
  {
    if ifaces != [] {
      var init := ifaces[..|ifaces| - 1];
      NoEligibleNoHeartbeat(init);
      var last := ifaces[|ifaces| - 1];
      if last.Some? {
        NoEligibleIn(last.value);
      }
    }
  }

  lemma {:induction false} NoEligibleIn(infos: seq<IfaceInfo>)
    requires forall j :: 0 <= j < |infos| ==> !Eligible(infos[j])
    ensures EligibleIn(infos) == 0
    decreases |infos|
  {
    if infos != [] {
      NoEligibleIn(infos[..|infos| - 1]);
    }
  }
}
