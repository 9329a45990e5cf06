/**
 * The chat message store: the day key of a timestamp and the messages
 * table with its insert, the two day-scoped listings and the purge.  The
 * table is a sequence of records in insertion order with an
 * AUTOINCREMENT counter; each query is a filter followed by a sort on ts.
 * The clock is a `now` parameter.
 */
module Messages {
  import opened Wrappers
  import opened Text
  import opened Calendar
  import opened Sorting
  import opened DateRange

  /** `formatDayKey(ts)`: `y-MM-DD` of the calendar date of ts, month and day padded to two digits. */
  function FormatDayKey(ts: int): string {
    IntToString(YearFromTime(ts)) + "-" + PadStart(IntToString(MonthFromTime(ts) + 1), 2, '0') + "-" +
      PadStart(IntToString(DateFromTime(ts)), 2, '0')
  }

  /** `String(n).padStart(2, '0')` is the same two-digit padding `formatDate` uses. */
  lemma PadStartIsPad(n: int)
    requires 0 <= n < 100
    ensures PadStart(IntToString(n), 2, '0') == Pad(n)
  {
    if n < 10 {
      assert |IntToString(n)| == 1;
      assert Repeat('0', 1) == "0";
    } else {
      assert |IntToString(n)| >= 2;
    }
  }

  /** The day key is the report formatter's `formatDate`. */
  lemma DayKeyIsFormatDate(ts: int)
    ensures FormatDayKey(ts) == FormatDate(ts)
  {
    var c := CivilFromTime(ts);
    assert ValidCivil(c);
    PadStartIsPad(c.month + 1);
    PadStartIsPad(c.date);
  }

  /** Two timestamps of non-negative years share a day key exactly when they fall on the same day. */
  lemma DayKeySameDay(t: int, u: int)
    requires YearFromTime(t) >= 0 && YearFromTime(u) >= 0
    ensures FormatDayKey(t) == FormatDayKey(u) <==> Day(t) == Day(u)
  {
    DayKeyIsFormatDate(t);
    DayKeyIsFormatDate(u);
    FormatDateInjective(t, u);
  }

  /** The day key has the `y-MM-DD` shape, with the one-based month. */
  lemma DayKeyShape(ts: int)
    ensures DateTextOf(FormatDayKey(ts), YearFromTime(ts), MonthFromTime(ts) + 1, DateFromTime(ts))
  {
    var c := CivilFromTime(ts);
    assert ValidCivil(c);
    DayKeyIsFormatDate(ts);
    DateStringShape(c.year, c.month + 1, c.date, DateString(c));
  }

  /** A row of the messages table; a missing recipient is NULL. */
  datatype MessageRecord = MessageRecord(id: nat, from: string, to: Option<string>, text: string, ts: int, dayKey: string)

  /** `WHERE day_key = ?`. */
  function OnDay(key: string): MessageRecord -> bool {
    (r: MessageRecord) => r.dayKey == key
  }

  /** `WHERE day_key != ?`, negated: the rows the purge keeps. */
  function Today(rows: seq<MessageRecord>, key: string): seq<MessageRecord> {
    Filter(OnDay(key), rows)
  }

  /** The conversation condition of `listTodayWithPeer(a, b)`. */
  predicate Between(a: string, b: string, r: MessageRecord) {
    (r.from == a && (r.to == Some(b) || r.to == None)) || (r.from == b && (r.to == Some(a) || r.to == None))
  }

  function InConversation(key: string, a: string, b: string): MessageRecord -> bool {
    (r: MessageRecord) => r.dayKey == key && Between(a, b, r)
  }

  /** `ORDER BY ts ASC`. */
  function TsKey(r: MessageRecord): int { r.ts }

  /** Ids are positive, at most the counter, and increase in insertion order. */
  predicate IdsValid(rows: seq<MessageRecord>, lastId: nat) {
    (forall i :: 0 <= i < |rows| ==> 1 <= rows[i].id <= lastId) &&
    (forall i, j :: 0 <= i < j < |rows| ==> rows[i].id < rows[j].id)
  }

  /** Every id is above `low`. */
  predicate IdsAbove(rows: seq<MessageRecord>, low: int) {
    forall i :: 0 <= i < |rows| ==> rows[i].id > low
  }

  lemma {:induction false} FilterIdsAbove(f: MessageRecord -> bool, rows: seq<MessageRecord>, low: int)
    requires IdsAbove(rows, low)
    ensures IdsAbove(Filter(f, rows), low)
  {
    if rows != [] {
      FilterIdsAbove(f, rows[1..], low);
    }
  }

  /** Deleting rows keeps the ids valid. */
  lemma {:induction false} FilterIdsValid(f: MessageRecord -> bool, rows: seq<MessageRecord>, lastId: nat)
    requires IdsValid(rows, lastId)
    ensures IdsValid(Filter(f, rows), lastId)
  {
    if rows != [] {
      FilterIdsValid(f, rows[1..], lastId);
      assert IdsAbove(rows[1..], rows[0].id);
      FilterIdsAbove(f, rows[1..], rows[0].id);
    }
  }

  /** Appending a row with the next id keeps the ids valid. */
  lemma AppendIdsValid(rows: seq<MessageRecord>, lastId: nat, row: MessageRecord)
    requires IdsValid(rows, lastId) && row.id == lastId + 1
    ensures IdsValid(rows + [row], lastId + 1)
  {
  }

  class MessagesDao {
    /** The day-key function of the local zone: `formatDayKey`. */
    const dayKeyOf: int -> string
    var rows: seq<MessageRecord>
    /** The AUTOINCREMENT counter: the largest id ever handed out. */
    var lastId: nat

    ghost predicate Valid()
      reads this
    {
      IdsValid(rows, lastId)
    }

    /** An empty table. */
    constructor()
      ensures Valid() && rows == [] && lastId == 0 && dayKeyOf == FormatDayKey
    {
      dayKeyOf := FormatDayKey;
      rows := [];
      lastId := 0;
    }

    /**
     * `create(payload)`: inserts a row stamped with ts (now when absent), its
     * day key, the first 2000 characters of the text, and NULL when there is
     * no recipient; returns the new id.
     */
    method Create(from: string, to: Option<string>, text: string, ts: Option<int>, now: int) returns (id: nat)
      requires Valid()
      modifies this
      ensures Valid()
      ensures id == old(lastId) + 1 && lastId == id
      ensures rows == old(rows) + [MessageRecord(id, from, to, Take(text, 2000), ts.GetOr(now), dayKeyOf(ts.GetOr(now)))]
    {
      var stamp := ts.GetOr(now);
      var row := MessageRecord(lastId + 1, from, to, Take(text, 2000), stamp, dayKeyOf(stamp));
      AppendIdsValid(rows, lastId, row);
      lastId := lastId + 1;
      id := lastId;
      rows := rows + [row];
    }

    /** `listToday()`: today's rows ordered by ts; the order of equal ts is not fixed. */
    method ListToday(now: int) returns (list: seq<MessageRecord>)
      ensures SortedBy(TsKey, list)
      ensures multiset(list) == multiset(Today(rows, dayKeyOf(now)))
    {
      list := SortBy(TsKey, Filter(OnDay(dayKeyOf(now)), rows));
    }

    /** `listTodayWithPeer(a, b)`: today's messages between a and b, direct or broadcast, ordered by ts. */
    method ListTodayWithPeer(a: string, b: string, now: int) returns (list: seq<MessageRecord>)
      ensures SortedBy(TsKey, list)
      ensures multiset(list) == multiset(Filter(InConversation(dayKeyOf(now), a, b), rows))
    {
      list := SortBy(TsKey, Filter(InConversation(dayKeyOf(now), a, b), rows));
    }

    /** `purgeNotToday()`: deletes every row whose day key is not today's. */
    method PurgeNotToday(now: int)
      requires Valid()
      modifies this
      ensures Valid()
      ensures rows == Today(old(rows), dayKeyOf(now)) && lastId == old(lastId)
    {
      FilterIdsValid(OnDay(dayKeyOf(now)), rows, lastId);
      rows := Filter(OnDay(dayKeyOf(now)), rows);
    }
  }

  // Properties of the queries.

  /** A new id is positive and above every id in the table, so it is fresh. */
  lemma CreateFresh(rows: seq<MessageRecord>, lastId: nat)
    requires IdsValid(rows, lastId)
    ensures lastId + 1 > 0
    ensures forall i :: 0 <= i < |rows| ==> rows[i].id < lastId + 1
  {
  }

  /** `listToday` holds exactly today's rows. */
  lemma ListTodayMembers(rows: seq<MessageRecord>, list: seq<MessageRecord>, key: string, r: MessageRecord)
    requires multiset(list) == multiset(Today(rows, key))
    ensures r in list <==> r in rows && r.dayKey == key
  {
    FilterMembers(OnDay(key), rows, r);
    assert r in list <==> r in multiset(list);
    assert r in Today(rows, key) <==> r in multiset(Today(rows, key));
  }

  /** `listTodayWithPeer` holds exactly today's rows between the two devices. */
  lemma ConversationMembers(rows: seq<MessageRecord>, list: seq<MessageRecord>, key: string, a: string, b: string, r: MessageRecord)
    requires multiset(list) == multiset(Filter(InConversation(key, a, b), rows))
    ensures r in list <==> r in rows && r.dayKey == key && Between(a, b, r)
  {
    FilterMembers(InConversation(key, a, b), rows, r);
    assert r in list <==> r in multiset(list);
    assert r in Filter(InConversation(key, a, b), rows) <==> r in multiset(Filter(InConversation(key, a, b), rows));
  }

  /** The conversation between a and b is the conversation between b and a. */
  lemma ConversationSymmetric(rows: seq<MessageRecord>, key: string, a: string, b: string)
    ensures Filter(InConversation(key, a, b), rows) == Filter(InConversation(key, b, a), rows)
  {
    FilterCongruent(InConversation(key, a, b), InConversation(key, b, a), rows);
  }

  /** The purge keeps exactly today's rows. */
  lemma PurgeMembers(rows: seq<MessageRecord>, key: string, r: MessageRecord)
    ensures r in Today(rows, key) <==> r in rows && r.dayKey == key
  {
    FilterMembers(OnDay(key), rows, r);
  }

  /** Purging twice is purging once, and the purge leaves today's listing as it was. */
  lemma PurgeIdempotent(rows: seq<MessageRecord>, key: string)
    ensures Today(Today(rows, key), key) == Today(rows, key)
  {
    FilterIdempotent(OnDay(key), rows);
  }

  /** A list sorted by ts, holding two elements with different ts, holds them in ts order. */
  lemma SortedPair(list: seq<MessageRecord>, x: MessageRecord, y: MessageRecord)
    requires SortedBy(TsKey, list) && multiset(list) == multiset{x, y} && x.ts < y.ts
    ensures list == [x, y]
  {
    assert |list| == |multiset(list)| == 2;
    assert list == [list[0], list[1]];
    assert multiset{list[0], list[1]} == multiset{x, y};
    assert TsKey(list[0]) <= TsKey(list[1]);
  }

  /** A one-element list with the same elements as [x] is [x]. */
  lemma SingleList(list: seq<MessageRecord>, x: MessageRecord)
    requires multiset(list) == multiset{x}
    ensures list == [x]
  {
    assert |list| == 1;
    assert list[0] in multiset(list);
  }

  /**
   * The repository's listing scenario: 'hello' at now and 'world' ten
   * milliseconds later, on the same day, come back in that order with
   * positive ids.
   */
  method ListingScenario(now: int) returns (id1: nat, id2: nat, texts: seq<string>)
    requires FormatDayKey(now + 10) == FormatDayKey(now)
    ensures id1 > 0 && id2 > 0 && texts == ["hello", "world"]
  {
    var dao := new MessagesDao();
    id1, id2, texts := ListingSteps(dao, now);
  }

  method ListingSteps(dao: MessagesDao, now: int) returns (id1: nat, id2: nat, texts: seq<string>)
    requires dao.Valid() && dao.rows == [] && dao.dayKeyOf(now + 10) == dao.dayKeyOf(now)
    modifies dao
    ensures id1 > 0 && id2 > 0 && texts == ["hello", "world"]
  {
    id1 := dao.Create("me", None, "hello", Some(now), now);
    id2 := dao.Create("peer", Some("me"), "world", Some(now + 10), now);
    var hello := dao.rows[0];
    var world := dao.rows[1];
    TodayTwo(hello, world, dao.dayKeyOf(now));
    var list := dao.ListToday(now);
    SortedPair(list, hello, world);
    texts := [list[0].text, list[1].text];
  }

  lemma TodayTwo(x: MessageRecord, y: MessageRecord, key: string)
    requires x.dayKey == key && y.dayKey == key
    ensures Today([x, y], key) == [x, y]
  {
    assert [x, y][1..] == [y];
    TodayOne(y, key);
  }

  /** The repository's purge scenario: yesterday's 'old' goes and today's 'new' stays. */
  method PurgeScenario(now: int) returns (texts: seq<string>)
    requires YearFromTime(now - MsPerDay) >= 0 && YearFromTime(now) >= 0
    ensures texts == ["new"]
  {
    var dao := new MessagesDao();
    DayShift(now - MsPerDay, 1);
    DayKeySameDay(now - MsPerDay, now);
    texts := PurgeSteps(dao, now, now - MsPerDay);
  }

  method PurgeSteps(dao: MessagesDao, now: int, yesterday: int) returns (texts: seq<string>)
    requires dao.Valid() && dao.rows == [] && dao.dayKeyOf(yesterday) != dao.dayKeyOf(now)
    modifies dao
    ensures texts == ["new"]
  {
    var _ := dao.Create("me", None, "old", Some(yesterday), now);
    var _ := dao.Create("me", None, "new", None, now);
    var old_, new_ := dao.rows[0], dao.rows[1];
    TodayDrop(old_, new_, dao.dayKeyOf(now));
    dao.PurgeNotToday(now);
    TodayOne(new_, dao.dayKeyOf(now));
    var list := dao.ListToday(now);
    SingleList(list, new_);
    texts := [list[0].text];
  }

  lemma TodayDrop(x: MessageRecord, y: MessageRecord, key: string)
    requires x.dayKey != key && y.dayKey == key
    ensures Today([x, y], key) == [y]
  {
    assert [x, y][1..] == [y];
    TodayOne(y, key);
  }

  lemma TodayOne(x: MessageRecord, key: string)
    requires x.dayKey == key
    ensures Today([x], key) == [x]
  {
    assert [x][1..] == [];
  }
}
