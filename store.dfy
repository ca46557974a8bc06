/** The `birthdays` table and the three functions that touch it
    (`add_birthday`, `get_all_birthdays`, `get_today_birthdays`), with the
    table held in memory as a sequence of rows in insertion order. */
module Store {
  import opened Wrappers

  /** One row of the table; `year` is a nullable column. The surrogate key
      is never read back and is not modelled. */
  datatype Entry = Entry(chatId: int, name: string, day: int, month: int, year: Option<int>)

  const MinInteger: int := -0x8000_0000_0000_0000
  const MaxInteger: int := 0x7FFF_FFFF_FFFF_FFFF

  /** Whether `sqlite3` can bind `x` as an INTEGER parameter (a signed 64-bit value). */
  predicate FitsInteger(x: int) {
    MinInteger <= x <= MaxInteger
  }

  /** Whether every integer of the row can be bound; `None` binds as NULL. */
  predicate Bindable(e: Entry) {
    FitsInteger(e.chatId) && FitsInteger(e.day) && FitsInteger(e.month)
    && (e.year.None? || FitsInteger(e.year.value))
  }

  /** The calendar date `datetime.now()` would give. */
  datatype Date = Date(year: int, month: int, day: int)

  /** A row of `SELECT name, day, month, year ... WHERE chat_id = ?`. */
  datatype ChatRow = ChatRow(name: string, day: int, month: int, year: Option<int>)

  /** A row of `SELECT chat_id, name, year ... WHERE day = ? AND month = ?`. */
  datatype DateHit = DateHit(chatId: int, name: string, year: Option<int>)

  /** A tuple of the list `get_today_birthdays` returns. */
  datatype TodayRow = TodayRow(chatId: int, name: string, age: Option<int>)

  /** The two `WHERE` clauses the bot issues. */
  datatype Condition = ByChat(chatId: int) | OnDate(day: int, month: int)

  predicate Keeps(cond: Condition, e: Entry) {
    match cond
    case ByChat(c) => e.chatId == c
    case OnDate(d, m) => e.day == d && e.month == m
  }

  /** The rows a `WHERE` clause selects, in storage order. */
  function Where(es: seq<Entry>, cond: Condition): (r: seq<Entry>)
    ensures |r| <= |es|
    ensures forall k :: 0 <= k < |r| ==> Keeps(cond, r[k])
  {
    if es == [] then []
    else (if Keeps(cond, es[0]) then [es[0]] else []) + Where(es[1..], cond)
  }

  /** Selecting from two stretches of the table is selecting from each in turn. */
  lemma {:induction false} WhereAppend(es: seq<Entry>, fs: seq<Entry>, cond: Condition)
    ensures Where(es + fs, cond) == Where(es, cond) + Where(fs, cond)
  {
    if es == [] {
      assert es + fs == fs;
    } else {
      assert (es + fs)[0] == es[0] && (es + fs)[1..] == es[1..] + fs;
      WhereAppend(es[1..], fs, cond);
    }
  }

  /** A selection holds every matching row as often as the table does, and no other row. */
  lemma {:induction false} WhereMultiplicity(es: seq<Entry>, cond: Condition, e: Entry)
    ensures multiset(Where(es, cond))[e] == if Keeps(cond, e) then multiset(es)[e] else 0
  {
    if es != [] {
      WhereMultiplicity(es[1..], cond, e);
      assert es == [es[0]] + es[1..];
    }
  }

  /** The number of rows a `WHERE` clause matches, counted row by row. */
  function CountWhere(es: seq<Entry>, cond: Condition): nat {
    if es == [] then 0 else (if Keeps(cond, es[0]) then 1 else 0) + CountWhere(es[1..], cond)
  }

  /** A selection has one row per matching row of the table. */
  lemma {:induction false} WhereCount(es: seq<Entry>, cond: Condition)
    ensures |Where(es, cond)| == CountWhere(es, cond)
  {
    if es != [] {
      WhereCount(es[1..], cond);
    }
  }

  lemma WhereMember(es: seq<Entry>, cond: Condition, e: Entry)
    ensures e in Where(es, cond) <==> e in es && Keeps(cond, e)
  {
    WhereMultiplicity(es, cond, e);
  }

  /** Python truthiness of a nullable integer: `None` and `0` are false. */
  predicate Truthy(x: Option<int>) {
    x.Some? && x.value != 0
  }

  /** `today.year - year if year else None`. */
  function AgeOf(year: Option<int>, currentYear: int): (age: Option<int>)
    ensures age.Some? <==> Truthy(year)
    ensures age.Some? ==> year.value + age.value == currentYear
  {
    if Truthy(year) then Some(currentYear - year.value) else None
  }

  function ChatRowOf(e: Entry): ChatRow {
    ChatRow(e.name, e.day, e.month, e.year)
  }

  function DateHitOf(e: Entry): DateHit {
    DateHit(e.chatId, e.name, e.year)
  }

  function Aged(h: DateHit, currentYear: int): TodayRow {
    TodayRow(h.chatId, h.name, AgeOf(h.year, currentYear))
  }

  /** `get_all_birthdays(chat_id)`. */
  function ChatRows(es: seq<Entry>, chatId: int): seq<ChatRow> {
    var sel := Where(es, ByChat(chatId));
    seq(|sel|, i requires 0 <= i < |sel| => ChatRowOf(sel[i]))
  }

  /** The query inside `get_today_birthdays`. */
  function DateHits(es: seq<Entry>, day: int, month: int): seq<DateHit> {
    var sel := Where(es, OnDate(day, month));
    seq(|sel|, i requires 0 <= i < |sel| => DateHitOf(sel[i]))
  }

  /** What `get_today_birthdays` returns on `today`. */
  function TodayRows(es: seq<Entry>, today: Date): seq<TodayRow> {
    var sel := Where(es, OnDate(today.day, today.month));
    seq(|sel|, i requires 0 <= i < |sel| => Aged(DateHitOf(sel[i]), today.year))
  }

  /** `get_all_birthdays(c)` lists exactly the entries of chat `c` and never one of another chat. */
  lemma ChatRowsExact(es: seq<Entry>, chatId: int, r: ChatRow)
    ensures r in ChatRows(es, chatId) <==> exists e :: e in es && e.chatId == chatId && ChatRowOf(e) == r
  {
    var sel := Where(es, ByChat(chatId));
    if r in ChatRows(es, chatId) {
      var i :| 0 <= i < |sel| && ChatRows(es, chatId)[i] == r;
      WhereMember(es, ByChat(chatId), sel[i]);
    }
    if e :| e in es && e.chatId == chatId && ChatRowOf(e) == r {
      WhereMember(es, ByChat(chatId), e);
      var i :| 0 <= i < |sel| && sel[i] == e;
      assert ChatRows(es, chatId)[i] == r;
    }
  }

  /** Adding a row extends that chat's list by it, at the end, and leaves every other chat's list alone. */
  lemma ChatRowsAfterInsert(es: seq<Entry>, e: Entry, chatId: int)
    ensures ChatRows(es + [e], chatId)
         == ChatRows(es, chatId) + (if e.chatId == chatId then [ChatRowOf(e)] else [])
  {
    WhereAppend(es, [e], ByChat(chatId));
    assert [e][1..] == [];
  }

  /** `get_today_birthdays` reports exactly the entries of any chat whose day and month are today's. */
  lemma TodayRowsExact(es: seq<Entry>, today: Date, r: TodayRow)
    ensures r in TodayRows(es, today)
        <==> exists e :: e in es && e.day == today.day && e.month == today.month
                         && r == TodayRow(e.chatId, e.name, AgeOf(e.year, today.year))
  {
    var cond := OnDate(today.day, today.month);
    var sel := Where(es, cond);
    if r in TodayRows(es, today) {
      var i :| 0 <= i < |sel| && TodayRows(es, today)[i] == r;
      WhereMember(es, cond, sel[i]);
    }
    if e :| e in es && e.day == today.day && e.month == today.month
            && r == TodayRow(e.chatId, e.name, AgeOf(e.year, today.year)) {
      WhereMember(es, cond, e);
      var i :| 0 <= i < |sel| && sel[i] == e;
      assert TodayRows(es, today)[i] == r;
    }
  }

  /** `get_today_birthdays` reports one tuple per entry dated today, duplicates included. */
  lemma TodayRowsCount(es: seq<Entry>, today: Date)
    ensures |TodayRows(es, today)| == CountWhere(es, OnDate(today.day, today.month))
  {
    WhereCount(es, OnDate(today.day, today.month));
  }

  /** Adding a row appends it to today's report exactly when its day and month are today's. */
  lemma TodayRowsAfterInsert(es: seq<Entry>, e: Entry, today: Date)
    ensures TodayRows(es + [e], today)
         == TodayRows(es, today)
            + (if e.day == today.day && e.month == today.month
               then [TodayRow(e.chatId, e.name, AgeOf(e.year, today.year))] else [])
  {
    WhereAppend(es, [e], OnDate(today.day, today.month));
    assert [e][1..] == [];
  }

  /** The table. Rows are only ever appended. */
  class BirthdayStore {
    var entries: seq<Entry>

    /** A fresh, empty table (`init_db` on a new file). */
    constructor ()
      ensures entries == [] && Valid()
    {
      entries := [];
    }

    /** Every stored integer fits an SQLite INTEGER. This only records the
        64-bit column limit that `Insert` enforces; no operation relies on it. */
    ghost predicate Valid()
      reads this
    {
      forall k :: 0 <= k < |entries| ==> Bindable(entries[k])
    }

    /** `add_birthday`: one new row at the end, with no check on the values
        beyond the binding of the integers; `ok` is false where `sqlite3`
        raises `OverflowError`, and then nothing is written. */
    method Insert(chatId: int, name: string, day: int, month: int, year: Option<int>)
      returns (ok: bool)
      modifies this
      ensures ok == Bindable(Entry(chatId, name, day, month, year))
      ensures entries == if ok then old(entries) + [Entry(chatId, name, day, month, year)] else old(entries)
      ensures old(Valid()) ==> Valid()
    {
      var e := Entry(chatId, name, day, month, year);
      ok := FitsInteger(chatId) && FitsInteger(day) && FitsInteger(month)
            && (year.None? || FitsInteger(year.value));
      if ok {
        entries := entries + [e];
      }
    }

    /** `get_today_birthdays`: run the date query, then attach an age to each hit. */
    method TodayBirthdays(today: Date) returns (result: seq<TodayRow>)
      ensures result == TodayRows(entries, today)
    {
      var hits := DateHits(entries, today.day, today.month);
      result := [];
      var i := 0;
      while i < |hits|
        invariant 0 <= i <= |hits|
        invariant |result| == i
        invariant forall k :: 0 <= k < i ==> result[k] == Aged(hits[k], today.year)
      {
        var h := hits[i];
        var age := if Truthy(h.year) then Some(today.year - h.year.value) else None;
        result := result + [TodayRow(h.chatId, h.name, age)];
        i := i + 1;
      }
    }
  }
}
