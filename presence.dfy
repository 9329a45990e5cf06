/**
 * The LAN presence registry and the datagram validator.  The registry is
 * an insertion-ordered map from device id to peer, kept as a sequence of
 * peers with distinct ids: a `Map.set` on a present key replaces the entry
 * in place, on a new key appends it, and `Map.delete` drops it.
 */
module Presence {
  import opened Wrappers
  import opened Json
  import opened Sorting

  datatype PeerInfo = PeerInfo(deviceId: string, name: string, ip: string, port: int, lastSeen: int)

  /** No device id appears twice. */
  predicate UniqueIds(peers: seq<PeerInfo>) {
    forall i, j :: 0 <= i < j < |peers| ==> peers[i].deviceId != peers[j].deviceId
  }

  /** The position of the entry for id, if any (`Map.get`). */
  function IndexOf(peers: seq<PeerInfo>, id: string): (r: Option<nat>)
    ensures r.Some? ==> r.value < |peers| && peers[r.value].deviceId == id
    ensures r.None? ==> forall i :: 0 <= i < |peers| ==> peers[i].deviceId != id
  {
    if peers == [] then None
    else if peers[|peers| - 1].deviceId == id then Some(|peers| - 1)
    else IndexOf(peers[..|peers| - 1], id)
  }

  /** The ids in map order (`[...map.keys()]`). */
  function Ids(peers: seq<PeerInfo>): seq<string> {
    Map((p: PeerInfo) => p.deviceId, peers)
  }

  /** The entry stored for id. */
  function Lookup(peers: seq<PeerInfo>, id: string): Option<PeerInfo> {
    match IndexOf(peers, id)
    case Some(k) => Some(peers[k])
    case None => None
  }

  /** `map.set(next.deviceId, next)`. */
  function Stored(peers: seq<PeerInfo>, next: PeerInfo): seq<PeerInfo> {
    match IndexOf(peers, next.deviceId)
    case Some(k) => peers[k := next]
    case None => peers + [next]
  }

  function IdIsNot(id: string): PeerInfo -> bool {
    (p: PeerInfo) => p.deviceId != id
  }

  /** `map.delete(id)`. */
  function Deleted(peers: seq<PeerInfo>, id: string): seq<PeerInfo> {
    Filter(IdIsNot(id), peers)
  }

  /** `now - p.lastSeen <= offlineAfterMs`: seen within the threshold, boundary included. */
  function OnlineAt(now: int, offlineAfterMs: int): PeerInfo -> bool {
    (p: PeerInfo) => now - p.lastSeen <= offlineAfterMs
  }

  /** The sort key for `(a, b) => b.lastSeen - a.lastSeen`: most recently seen first. */
  function Recency(p: PeerInfo): int { -p.lastSeen }

  /** What `listOnline(now)` returns for the entries `peers`. */
  function OnlineList(peers: seq<PeerInfo>, now: int, offlineAfterMs: int): seq<PeerInfo> {
    SortBy(Recency, Filter(OnlineAt(now, offlineAfterMs), peers))
  }

  class PresenceRegistry {
    var peers: seq<PeerInfo>
    const offlineAfterMs: int

    ghost predicate Valid()
      reads this
    {
      UniqueIds(peers)
    }

    /** `new PresenceRegistry(offlineAfterMs)`: an empty registry. */
    constructor(offlineAfterMs: int)
      ensures Valid() && peers == [] && this.offlineAfterMs == offlineAfterMs
    {
      peers := [];
      this.offlineAfterMs := offlineAfterMs;
    }

    /**
     * `upsertHeartbeat`: a new peer and a peer whose name, ip or port changed
     * get a fresh entry; a repeat heartbeat only moves the stored entry's
     * `lastSeen` to now.  Either way the map then holds `next` for the id, at
     * the id's old position, and that entry is returned.
     */
    method UpsertHeartbeat(deviceId: string, name: string, ip: string, port: int, now: int) returns (entry: PeerInfo)
      requires Valid()
      modifies this
      ensures Valid()
      ensures peers == Stored(old(peers), PeerInfo(deviceId, name, ip, port, now))
      ensures entry == PeerInfo(deviceId, name, ip, port, now)
    {
      StoredUnique(peers, PeerInfo(deviceId, name, ip, port, now));
      var existing := IndexOf(peers, deviceId);
      var next := PeerInfo(deviceId, name, ip, port, now);
      if existing.None? || peers[existing.value].ip != next.ip || peers[existing.value].port != next.port
        || peers[existing.value].name != next.name
      {
        peers := Stored(peers, next);
      } else {
        var k := existing.value;
        var refreshed := peers[k].(lastSeen := now);
        peers := peers[k := refreshed];
      }
      StoredLookup(old(peers), next);
      entry := Lookup(peers, deviceId).value;
    }

    /** `remove(deviceId)`. */
    method Remove(deviceId: string)
      requires Valid()
      modifies this
      ensures Valid()
      ensures peers == Deleted(old(peers), deviceId)
    {
      DeletedUnique(peers, deviceId);
      peers := Deleted(peers, deviceId);
    }

    /** `listOnline(now)`: the online entries in map order, then sorted newest first. */
    method ListOnline(now: int) returns (online: seq<PeerInfo>)
      ensures online == OnlineList(peers, now, offlineAfterMs)
    {
      var found := [];
      var i := 0;
      while i < |peers|
        invariant 0 <= i <= |peers|
        invariant found == Filter(OnlineAt(now, offlineAfterMs), peers[..i])
      {
        var p := peers[i];
        FilterPrefixStep(OnlineAt(now, offlineAfterMs), peers, i);
        if now - p.lastSeen <= offlineAfterMs {
          found := found + [p];
        }
        i := i + 1;
      }
      assert peers[..i] == peers;
      online := SortBy(Recency, found);
    }

    /** `sweep(now)`: deletes, while iterating, every entry past the threshold. */
    method Sweep(now: int)
      requires Valid()
      modifies this
      ensures Valid()
      ensures peers == Filter(OnlineAt(now, offlineAfterMs), old(peers))
    {
      var entries := peers;
      var i := 0;
      while i < |entries|
        invariant 0 <= i <= |entries|
        invariant peers == Filter(OnlineAt(now, offlineAfterMs), entries[..i]) + entries[i..]
      {
        var p := entries[i];
        if now - p.lastSeen > offlineAfterMs {
          SweepDrop(entries, i, OnlineAt(now, offlineAfterMs));
          peers := Deleted(peers, p.deviceId);
        } else {
          SweepKeep(entries, i, OnlineAt(now, offlineAfterMs));
        }
        i := i + 1;
      }
      assert entries[..i] == entries;
      FilterUnique(OnlineAt(now, offlineAfterMs), entries);
    }
  }

  // Properties of the registry operations.

  /** A filtered registry still has distinct ids. */
  lemma {:induction false} FilterUnique(f: PeerInfo -> bool, peers: seq<PeerInfo>)
    requires UniqueIds(peers)
    ensures UniqueIds(Filter(f, peers))
  {
    if peers != [] {
      FilterUnique(f, peers[1..]);
      assert IdAbsent(peers[1..], peers[0].deviceId);
      FilterKeepsAbsent(f, peers[1..], peers[0].deviceId);
    }
  }

  lemma DeletedUnique(peers: seq<PeerInfo>, id: string)
    requires UniqueIds(peers)
    ensures UniqueIds(Deleted(peers, id))
  {
    FilterUnique(IdIsNot(id), peers);
  }

  /** In a registry with distinct ids, IndexOf finds the one position holding the id. */
  lemma IndexOfUnique(peers: seq<PeerInfo>, k: nat)
    requires UniqueIds(peers) && k < |peers|
    ensures IndexOf(peers, peers[k].deviceId) == Some(k)
  {
    var r := IndexOf(peers, peers[k].deviceId);
  }

  lemma StoredUnique(peers: seq<PeerInfo>, next: PeerInfo)
    requires UniqueIds(peers)
    ensures UniqueIds(Stored(peers, next))
  {
    match IndexOf(peers, next.deviceId)
    case Some(k) =>
      var r := peers[k := next];
      assert forall i :: 0 <= i < |r| ==> r[i].deviceId == peers[i].deviceId;
    case None =>
  }

  lemma StoredLookup(peers: seq<PeerInfo>, next: PeerInfo)
    requires UniqueIds(peers)
    ensures Lookup(Stored(peers, next), next.deviceId) == Some(next)
  {
    StoredUnique(peers, next);
    match IndexOf(peers, next.deviceId)
    case Some(k) =>
      IndexOfUnique(Stored(peers, next), k);
    case None =>
      IndexOfUnique(Stored(peers, next), |peers|);
  }

  /** No entry of peers has the given id. */
  predicate IdAbsent(peers: seq<PeerInfo>, id: string) {
    forall j :: 0 <= j < |peers| ==> peers[j].deviceId != id
  }

  lemma {:induction false} FilterKeepsAbsent(f: PeerInfo -> bool, peers: seq<PeerInfo>, id: string)
    requires IdAbsent(peers, id)
    ensures IdAbsent(Filter(f, peers), id)
  {
    if peers != [] {
      FilterKeepsAbsent(f, peers[1..], id);
    }
  }

  /** Deleting an id that is absent changes nothing. */
  lemma DeleteAbsent(peers: seq<PeerInfo>, id: string)
    requires IdAbsent(peers, id)
    ensures Deleted(peers, id) == peers
  {
    FilterAll(IdIsNot(id), peers);
  }

  /** Deleting the id of the one entry that holds it removes exactly that entry. */
  lemma DeleteMiddle(kept: seq<PeerInfo>, p: PeerInfo, rest: seq<PeerInfo>)
    requires IdAbsent(kept, p.deviceId) && IdAbsent(rest, p.deviceId)
    ensures Deleted(kept + ([p] + rest), p.deviceId) == kept + rest
  {
    var g := IdIsNot(p.deviceId);
    DeleteAbsent(kept, p.deviceId);
    DeleteAbsent(rest, p.deviceId);
    FilterConcat(g, kept, [p] + rest);
    FilterConcat(g, [p], rest);
  }

  /** In a registry with distinct ids, the id at i appears nowhere before or after i. */
  lemma UniqueAround(entries: seq<PeerInfo>, i: int)
    requires UniqueIds(entries) && 0 <= i < |entries|
    ensures IdAbsent(entries[..i], entries[i].deviceId)
    ensures IdAbsent(entries[i + 1..], entries[i].deviceId)
  {
  }

  /** A sweep step that deletes the entry at i, which is past the threshold. */
  lemma SweepDrop(entries: seq<PeerInfo>, i: int, f: PeerInfo -> bool)
    requires UniqueIds(entries) && 0 <= i < |entries| && !f(entries[i])
    ensures Deleted(Filter(f, entries[..i]) + entries[i..], entries[i].deviceId) ==
      Filter(f, entries[..i + 1]) + entries[i + 1..]
  {
    var p := entries[i];
    FilterPrefixStep(f, entries, i);
    assert entries[i..] == [p] + entries[i + 1..];
    UniqueAround(entries, i);
    FilterKeepsAbsent(f, entries[..i], p.deviceId);
    DeleteMiddle(Filter(f, entries[..i]), p, entries[i + 1..]);
  }

  /** A sweep step that keeps the entry at i, which is online. */
  lemma SweepKeep(entries: seq<PeerInfo>, i: int, f: PeerInfo -> bool)
    requires 0 <= i < |entries| && f(entries[i])
    ensures Filter(f, entries[..i]) + entries[i..] == Filter(f, entries[..i + 1]) + entries[i + 1..]
  {
    var p := entries[i];
    var before, after := entries[..i], entries[i + 1..];
    FilterSnoc(f, before, p);
    assert entries[..i + 1] == before + [p];
    assert entries[i..] == [p] + after;
    Regroup(Filter(f, before), p, after);
  }

  lemma Regroup<T>(a: seq<T>, x: T, b: seq<T>)
    ensures a + ([x] + b) == (a + [x]) + b
  {
  }

  // What a registry operation means for the map.

  /** After the upsert the map holds exactly the new entry for its id. */
  lemma UpsertStoresEntry(peers: seq<PeerInfo>, next: PeerInfo)
    requires UniqueIds(peers)
    ensures UniqueIds(Stored(peers, next))
    ensures Lookup(Stored(peers, next), next.deviceId) == Some(next)
  {
    StoredUnique(peers, next);
    StoredLookup(peers, next);
  }

  /** The upsert leaves the entries of every other id as they were. */
  lemma UpsertKeepsOthers(peers: seq<PeerInfo>, next: PeerInfo, id: string)
    requires UniqueIds(peers) && id != next.deviceId
    ensures Lookup(Stored(peers, next), id) == Lookup(peers, id)
  {
    StoredUnique(peers, next);
    var after := Stored(peers, next);
    match IndexOf(peers, id)
    case Some(k) =>
      assert after[k] == peers[k];
      IndexOfUnique(after, k);
    case None =>
      assert IdAbsent(after, id);
  }

  /** A known id keeps its place in map order; a new id is appended at the end. */
  lemma UpsertKeyOrder(peers: seq<PeerInfo>, next: PeerInfo)
    ensures Ids(Stored(peers, next)) ==
      if IndexOf(peers, next.deviceId).Some? then Ids(peers) else Ids(peers) + [next.deviceId]
  {
    var after := Stored(peers, next);
    if IndexOf(peers, next.deviceId).None? {
      assert Ids(after) == Ids(peers) + [next.deviceId];
    } else {
      assert Ids(after) == Ids(peers);
    }
  }

  /** After `remove(id)` the id is gone and every other entry is kept, in order. */
  lemma RemoveMembers(peers: seq<PeerInfo>, id: string, x: PeerInfo)
    ensures Lookup(Deleted(peers, id), id) == None
    ensures x in Deleted(peers, id) <==> x in peers && x.deviceId != id
  {
    FilterMembers(IdIsNot(id), peers, x);
    var r := Deleted(peers, id);
    assert forall j :: 0 <= j < |r| ==> IdIsNot(id)(r[j]);
  }

  /** Removing an id the map does not hold changes nothing. */
  lemma RemoveAbsent(peers: seq<PeerInfo>, id: string)
    requires Lookup(peers, id) == None
    ensures Deleted(peers, id) == peers
  {
    DeleteAbsent(peers, id);
  }

  /**
   * `listOnline(now)` holds exactly the entries seen within the threshold,
   * each once, most recently seen first.
   */
  lemma OnlineListSpec(peers: seq<PeerInfo>, now: int, ttl: int, x: PeerInfo)
    ensures x in OnlineList(peers, now, ttl) <==> x in peers && now - x.lastSeen <= ttl
    ensures multiset(OnlineList(peers, now, ttl)) == multiset(Filter(OnlineAt(now, ttl), peers))
    ensures forall i, j :: 0 <= i < j < |OnlineList(peers, now, ttl)| ==>
      OnlineList(peers, now, ttl)[i].lastSeen >= OnlineList(peers, now, ttl)[j].lastSeen
  {
    var f := OnlineAt(now, ttl);
    SortMembers(Recency, Filter(f, peers), x);
    FilterMembers(f, peers, x);
    var r := OnlineList(peers, now, ttl);
    assert SortedBy(Recency, r);
    assert forall i, j :: 0 <= i < j < |r| ==> Recency(r[i]) <= Recency(r[j]);
  }

  /** Peers seen at the same moment are listed in map order. */
  lemma OnlineListTies(peers: seq<PeerInfo>, now: int, ttl: int, seen: int)
    ensures Filter(KeyIs(Recency, -seen), OnlineList(peers, now, ttl)) ==
      Filter(KeyIs(Recency, -seen), Filter(OnlineAt(now, ttl), peers))
  {
    var online := Filter(OnlineAt(now, ttl), peers);
    var tied := KeyIs(Recency, -seen);
    SortStable(Recency, online, -seen);
    assert Filter(tied, SortBy(Recency, online)) == Filter(tied, online);
    assert OnlineList(peers, now, ttl) == SortBy(Recency, online);
  }

  /** A sweep removes nothing that `listOnline` at the same moment would show. */
  lemma SweepKeepsOnlineList(peers: seq<PeerInfo>, now: int, ttl: int)
    ensures OnlineList(Filter(OnlineAt(now, ttl), peers), now, ttl) == OnlineList(peers, now, ttl)
  {
    FilterIdempotent(OnlineAt(now, ttl), peers);
  }

  /** After a sweep every remaining entry is within the threshold. */
  lemma SweepLeavesOnline(peers: seq<PeerInfo>, now: int, ttl: int)
    ensures forall i :: 0 <= i < |Filter(OnlineAt(now, ttl), peers)| ==>
      now - Filter(OnlineAt(now, ttl), peers)[i].lastSeen <= ttl
  {
    var r := Filter(OnlineAt(now, ttl), peers);
    assert forall i :: 0 <= i < |r| ==> OnlineAt(now, ttl)(r[i]);
  }

  // The datagram validator.

  /**
   * A packet of the LAN protocol.  A task-complete packet is what the service
   * sends for a finished task and what its dispatcher routes; the validator
   * below never produces one.
   */
  datatype Packet =
    | Heartbeat(deviceId: string, name: string, port: int, ts: int)
    | Chat(from: string, to: Option<Json>, text: string, ts: int)
    | TaskComplete(from: string, fromName: string, taskId: int, taskTitle: string, ts: int)

  /** The string value of a property that `IsString` accepted. */
  function StringOf(x: Option<Json>): string
    requires IsString(x)
  {
    x.value.s
  }

  /** The number value of a property that `IsNumber` accepted. */
  function NumberOf(x: Option<Json>): int
    requires IsNumber(x)
  {
    x.value.n
  }

  /**
   * `tryParsePacket(input)`: null for text that does not parse, for a falsy
   * or non-object value, and for anything that is neither a well-typed
   * heartbeat nor a well-typed chat message.  A chat's `to` is not checked.
   */
  function TryParsePacket(input: Input): (r: Option<Packet>)
    ensures r.Some? ==> input.Parsed? && input.value.JObject?
    ensures r.Some? ==> !r.value.TaskComplete?
  {
    match input
    case Unparsable => None
    case Parsed(v) =>
      if !Truthy(v) || !TypeofObject(v) then None
      else if Field(v, "type") == Some(JString("heartbeat")) && IsString(Field(v, "deviceId"))
        && IsString(Field(v, "name")) && IsNumber(Field(v, "port")) && IsNumber(Field(v, "ts"))
      then
        Some(Heartbeat(StringOf(Field(v, "deviceId")), StringOf(Field(v, "name")),
          NumberOf(Field(v, "port")), NumberOf(Field(v, "ts"))))
      else if Field(v, "type") == Some(JString("chat")) && IsString(Field(v, "from"))
        && IsString(Field(v, "text")) && IsNumber(Field(v, "ts"))
      then
        Some(Chat(StringOf(Field(v, "from")), Field(v, "to"), StringOf(Field(v, "text")),
          NumberOf(Field(v, "ts"))))
      else None
  }

  /** An object field holding the given JSON value. */
  predicate HasField(fields: map<string, Json>, key: string, value: Json) {
    key in fields && fields[key] == value
  }

  /** A datagram is accepted as a heartbeat exactly when it is an object with these typed fields. */
  lemma ParseHeartbeat(v: Json, deviceId: string, name: string, port: int, ts: int)
    ensures TryParsePacket(Parsed(v)) == Some(Heartbeat(deviceId, name, port, ts)) <==>
      v.JObject? && HasField(v.fields, "type", JString("heartbeat"))
      && HasField(v.fields, "deviceId", JString(deviceId)) && HasField(v.fields, "name", JString(name))
      && HasField(v.fields, "port", JNumber(port)) && HasField(v.fields, "ts", JNumber(ts))
  {
  }

  /** A datagram is accepted as a chat exactly when it is an object with these typed fields; `to` is passed through. */
  lemma ParseChat(v: Json, from: string, to: Option<Json>, text: string, ts: int)
    ensures TryParsePacket(Parsed(v)) == Some(Chat(from, to, text, ts)) <==>
      v.JObject? && HasField(v.fields, "type", JString("chat"))
      && HasField(v.fields, "from", JString(from)) && HasField(v.fields, "text", JString(text))
      && HasField(v.fields, "ts", JNumber(ts))
      && to == (if "to" in v.fields then Some(v.fields["to"]) else None)
  {
  }

  /** Text that does not parse, and parsed values that are not objects, yield null. */
  lemma ParseRejectsNonObjects(input: Input)
    requires input.Unparsable? || !input.value.JObject?
    ensures TryParsePacket(input) == None
  {
  }

  /** An object whose `type` is neither "heartbeat" nor "chat" yields null. */
  lemma ParseRejectsOtherTypes(v: Json)
    requires Field(v, "type") != Some(JString("heartbeat")) && Field(v, "type") != Some(JString("chat"))
    ensures TryParsePacket(Parsed(v)) == None
  {
  }

  /**
   * The repository's registry scenario, for any two distinct ids (the test
   * uses "a" and "b") and the threshold of 1000 ms: both peers report at t0;
   * both are listed, in arrival order, at t0 and at t0 + 900; after the first
   * refreshes at t0 + 1100 and a sweep, only the first is listed.
   */
  method RegistryScenario(t0: int, idA: string, idB: string, ttl: int) returns (first: seq<string>, within: nat, last: seq<string>)
    requires idA != idB
    requires ttl == 1000
    ensures first == [idA, idB] && within == 2 && last == [idA]
  {
    var reg := new PresenceRegistry(ttl);
    var a := reg.UpsertHeartbeat(idA, "Alice", "1.1.1.1", 1234, t0);
    var b := reg.UpsertHeartbeat(idB, "Bob", "1.1.1.2", 1234, t0);
    StoreTwo(a, b);
    first := ListedIds(reg, t0);
    OnlineTwo(a, b, t0, ttl);
    IdsTwo(a, b);
    var t1 := t0 + 900;
    var online := reg.ListOnline(t1);
    OnlineTwo(a, b, t1, ttl);
    within := |online|;
    var t2 := t0 + 1100;
    var a2 := reg.UpsertHeartbeat(idA, "Alice", "1.1.1.1", 1234, t2);
    RefreshFirst(a, b, a2);
    reg.Sweep(t2);
    SweepOne(a2, b, t2, ttl);
    last := ListedIds(reg, t2);
    OnlineOne(a2, t2, ttl);
    IdsOne(a2);
  }

  /** The ids `listOnline(now)` returns, in order. */
  method ListedIds(reg: PresenceRegistry, now: int) returns (ids: seq<string>)
    ensures ids == Ids(OnlineList(reg.peers, now, reg.offlineAfterMs))
  {
    var online := reg.ListOnline(now);
    ids := Ids(online);
  }

  lemma StoreTwo(a: PeerInfo, b: PeerInfo)
    requires a.deviceId != b.deviceId
    ensures Stored(Stored([], a), b) == [a, b]
  {
    assert Stored([], a) == [a];
  }

  lemma RefreshFirst(a: PeerInfo, b: PeerInfo, a2: PeerInfo)
    requires a2.deviceId == a.deviceId != b.deviceId
    ensures Stored([a, b], a2) == [a2, b]
  {
    assert IndexOf([a, b], a2.deviceId) == Some(0) by {
      assert [a, b][..1] == [a];
    }
  }

  lemma IdsTwo(a: PeerInfo, b: PeerInfo)
    ensures Ids([a, b]) == [a.deviceId, b.deviceId]
  {
  }

  lemma IdsOne(a: PeerInfo)
    ensures Ids([a]) == [a.deviceId]
  {
  }

  /** Both of two elements pass the filter. */
  lemma FilterTwo<T>(f: T -> bool, a: T, b: T)
    requires f(a) && f(b)
    ensures Filter(f, [a, b]) == [a, b]
  {
    assert [a, b][1..] == [b];
  }

  /** Two elements already in key order stay in that order. */
  lemma SortTwo<T>(key: T -> int, a: T, b: T)
    requires key(a) <= key(b)
    ensures SortBy(key, [a, b]) == [a, b]
  {
    assert [a, b][1..] == [b];
    assert SortBy(key, [b]) == [b];
  }

  /** Two peers seen at the same moment within the threshold are listed in map order. */
  lemma OnlineTwo(a: PeerInfo, b: PeerInfo, now: int, ttl: int)
    requires a.lastSeen == b.lastSeen && now - a.lastSeen <= ttl
    ensures OnlineList([a, b], now, ttl) == [a, b]
  {
    FilterTwo(OnlineAt(now, ttl), a, b);
    SortTwo(Recency, a, b);
  }

  /** The stale peer of two is swept away. */
  lemma SweepOne(a: PeerInfo, b: PeerInfo, now: int, ttl: int)
    requires now - a.lastSeen <= ttl < now - b.lastSeen
    ensures Filter(OnlineAt(now, ttl), [a, b]) == [a]
  {
    assert [a, b][1..] == [b];
  }

  lemma OnlineOne(a: PeerInfo, now: int, ttl: int)
    requires now - a.lastSeen <= ttl
    ensures OnlineList([a], now, ttl) == [a]
  {
    assert [a][1..] == [];
  }
}
