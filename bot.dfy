/** The three handlers of the bot that touch the table: `/add`, `/list` and
    the daily check. Replies and outbound messages are returned as values;
    the administrator id and the current date are parameters. */
module Bot {
  import opened Wrappers
  import opened Text
  import opened Store

  /** The fixed reply of `/start`. */
  const HelpText: string :=
    "🎂 Бот для уведомлений о днях рождения!\n"
    + "Доступные команды:\n"
    + "/list — Показать все дни рождения\n"
    + "/add Имя День Месяц Год — Добавить день рождения (только админ)\n"
    + "Пример: /add Анна 15 7 1990"
  const DeniedText: string := "❌ Только администратор может добавлять дни рождения!"
  const FormatErrorText: string := "❌ Ошибка. Формат: /add Имя День Месяц Год"
  const EmptyListText: string := "📌 Список дней рождения пуст."
  const ListTitle: string := "📅 Список дней рождения:"
  const ListHeader: string := ListTitle + "\n"

  /** A `send_message(chat_id, text)` call. */
  datatype Message = Message(chatId: int, text: string)

  // ---------------------------------------------------------------- /add

  predicate IsAdmin(userId: int, adminId: int) {
    userId == adminId
  }

  /** How `add_birthday_command` ends: refused, format error, or a row to insert. */
  datatype AddOutcome = Denied | BadFormat | Accepted(name: string, day: int, month: int, year: int)

  /** The checks of `/add`: the admin test first, then five tokens with the last three integers. */
  function ParseAdd(adminId: int, userId: int, text: string): (r: AddOutcome)
    ensures r == Denied <==> !IsAdmin(userId, adminId)
    ensures IsAdmin(userId, adminId) && |Split(text)| != 5 ==> r == BadFormat
    ensures IsAdmin(userId, adminId) && |Split(text)| == 5
            && (ParseInt(Split(text)[2]).None? || ParseInt(Split(text)[3]).None?
                || ParseInt(Split(text)[4]).None?)
            ==> r == BadFormat
    ensures IsAdmin(userId, adminId) && |Split(text)| == 5
            && ParseInt(Split(text)[2]).Some? && ParseInt(Split(text)[3]).Some?
            && ParseInt(Split(text)[4]).Some?
            ==> r == Accepted(Split(text)[1], ParseInt(Split(text)[2]).value,
                              ParseInt(Split(text)[3]).value, ParseInt(Split(text)[4]).value)
    ensures r.Accepted? ==> IsWord(r.name)
  {
    if !IsAdmin(userId, adminId) then Denied
    else
      var tokens := Split(text);
      if |tokens| != 5 then BadFormat
      else
        match (ParseInt(tokens[2]), ParseInt(tokens[3]), ParseInt(tokens[4]))
        case (Some(day), Some(month), Some(year)) => Accepted(tokens[1], day, month, year)
        case _ => BadFormat
  }

  /** The whole of `/add` in chat `chatId`: the parse, then the insert, whose
      `OverflowError` for an integer outside 64 bits the handler also answers
      with the format error. */
  function AddCommand(adminId: int, userId: int, chatId: int, text: string): (r: AddOutcome)
    ensures r == Denied <==> !IsAdmin(userId, adminId)
    ensures r.Accepted? <==>
      ParseAdd(adminId, userId, text).Accepted?
      && var p := ParseAdd(adminId, userId, text);
         Bindable(Entry(chatId, p.name, p.day, p.month, Some(p.year)))
    ensures r.Accepted? ==> r == ParseAdd(adminId, userId, text)
  {
    match ParseAdd(adminId, userId, text)
    case Accepted(name, day, month, year) =>
      if Bindable(Entry(chatId, name, day, month, Some(year))) then Accepted(name, day, month, year)
      else BadFormat
    case other => other
  }

  /** `f"✅ Добавлено: {name} — {day}.{month}.{year}"`, echoing the parsed integers. */
  function Confirmation(name: string, day: int, month: int, year: int): string {
    "✅ Добавлено: " + name + " — " + IntToString(day) + "." + IntToString(month) + "." + IntToString(year)
  }

  function AddReply(outcome: AddOutcome): string {
    match outcome
    case Denied => DeniedText
    case BadFormat => FormatErrorText
    case Accepted(name, day, month, year) => Confirmation(name, day, month, year)
  }

  /** An admin's `/add` typed as space-separated words, with any command word,
      any name and any three integers, parses to exactly those values: the
      parse has no range check on day, month or year. */
  lemma AddRoundTrip(adminId: int, command: string, name: string, day: int, month: int, year: int)
    requires IsWord(command) && IsWord(name)
    ensures ParseAdd(adminId, adminId, Unwords([command, name, IntToString(day), IntToString(month), IntToString(year)]))
         == Accepted(name, day, month, year)
  {
    var words := [command, name, IntToString(day), IntToString(month), IntToString(year)];
    SplitUnwords(words);
    ParseIntToString(day);
    ParseIntToString(month);
    ParseIntToString(year);
  }

  /** A well-formed `/add` whose day, month and year fit 64 bits is stored
      as typed, `31 2` and `0 13` included; one whose year does not fit is
      answered with the format error. */
  lemma AddBinding(adminId: int, chatId: int, command: string, name: string, day: int, month: int, year: int)
    requires IsWord(command) && IsWord(name)
    requires FitsInteger(chatId) && FitsInteger(day) && FitsInteger(month)
    ensures var text := Unwords([command, name, IntToString(day), IntToString(month), IntToString(year)]);
      AddCommand(adminId, adminId, chatId, text)
      == if FitsInteger(year) then Accepted(name, day, month, year) else BadFormat
  {
    AddRoundTrip(adminId, command, name, day, month, year);
  }

  /** `add_birthday_command`: reply, and insert only on an accepted command. */
  method HandleAdd(store: BirthdayStore, adminId: int, userId: int, chatId: int, text: string)
    returns (reply: string)
    modifies store
    ensures reply == AddReply(AddCommand(adminId, userId, chatId, text))
    ensures AddCommand(adminId, userId, chatId, text).Accepted? ==>
      var a := AddCommand(adminId, userId, chatId, text);
      store.entries == old(store.entries) + [Entry(chatId, a.name, a.day, a.month, Some(a.year))]
    ensures !AddCommand(adminId, userId, chatId, text).Accepted? ==> store.entries == old(store.entries)
    ensures old(store.Valid()) ==> store.Valid()
  {
    if !IsAdmin(userId, adminId) {
      return DeniedText;
    }
    var tokens := Split(text);
    if |tokens| != 5 {
      return FormatErrorText;
    }
    var day, month, year := ParseInt(tokens[2]), ParseInt(tokens[3]), ParseInt(tokens[4]);
    if day.None? || month.None? || year.None? {
      return FormatErrorText;
    }
    var ok := store.Insert(chatId, tokens[1], day.value, month.value, Some(year.value));
    if !ok {
      return FormatErrorText;
    }
    reply := Confirmation(tokens[1], day.value, month.value, year.value);
  }

  // ---------------------------------------------------------------- /list

  /** The age shown by `/list`: `today.year - year`, or `?` when `year` is falsy. */
  function AgeText(year: Option<int>, currentYear: int): string {
    match AgeOf(year, currentYear)
    case Some(age) => IntToString(age)
    case None => "?"
  }

  /** `f"• {name} — {day}.{month} ({age} лет)\n"`. */
  function FormatLine(r: ChatRow, age: string): string {
    Concat(["• ", r.name, " — ", IntToString(r.day), ".", IntToString(r.month), " (", age, " лет)", "\n"])
  }

  function Line(r: ChatRow, currentYear: int): string {
    FormatLine(r, AgeText(r.year, currentYear))
  }

  /** One line per row, in the order given. */
  function Lines(rows: seq<ChatRow>, currentYear: int): string {
    if rows == [] then [] else Lines(rows[..|rows| - 1], currentYear) + Line(rows[|rows| - 1], currentYear)
  }

  /** One turn of the loop in `list_birthdays` appends the next row's line. */
  lemma ListStep(rows: seq<ChatRow>, i: nat, currentYear: int, age: string)
    requires i < |rows| && age == AgeText(rows[i].year, currentYear)
    ensures ListHeader + Lines(rows[..i + 1], currentYear)
         == (ListHeader + Lines(rows[..i], currentYear)) + FormatLine(rows[i], age)
  {
    assert rows[..i + 1][..i] == rows[..i];
  }

  /** The reply `/list` sends for the rows of the chat. */
  function ListText(rows: seq<ChatRow>, currentYear: int): string {
    if rows == [] then EmptyListText else ListHeader + Lines(rows, currentYear)
  }

  /** `list_birthdays`. */
  method ListReply(store: BirthdayStore, chatId: int, currentYear: int) returns (reply: string)
    ensures reply == ListText(ChatRows(store.entries, chatId), currentYear)
  {
    var rows := ChatRows(store.entries, chatId);
    if |rows| == 0 {
      return EmptyListText;
    }
    var response := ListHeader;
    var i := 0;
    while i < |rows|
      invariant 0 <= i <= |rows|
      invariant response == ListHeader + Lines(rows[..i], currentYear)
    {
      var r := rows[i];
      var age := if Truthy(r.year) then IntToString(currentYear - r.year.value) else "?";
      var line := FormatLine(r, age);
      ListStep(rows, i, currentYear, age);
      response := response + line;
      i := i + 1;
    }
    assert rows[..i] == rows;
    reply := response;
  }

  /** `/list` answers with the fixed empty-list text exactly when the chat has no rows. */
  lemma ListTextEmpty(rows: seq<ChatRow>, currentYear: int)
    ensures ListText(rows, currentYear) == EmptyListText <==> rows == []
  {
    if rows != [] {
      assert ListText(rows, currentYear)[0] == ListHeader[0] != EmptyListText[0];
    }
  }

  /** After a row is added to chat `c`, that chat's `/list` reply is the
      previous reply (or the bare header) with one more line at the end;
      the reply of every other chat is unchanged. */
  lemma ListAfterInsert(es: seq<Entry>, e: Entry, chatId: int, currentYear: int)
    ensures var before := ChatRows(es, chatId);
      ListText(ChatRows(es + [e], chatId), currentYear)
      == if e.chatId != chatId then ListText(before, currentYear)
         else (if before == [] then ListHeader else ListText(before, currentYear))
              + Line(ChatRowOf(e), currentYear)
  {
    var before := ChatRows(es, chatId);
    ChatRowsAfterInsert(es, e, chatId);
    if e.chatId == chatId {
      var line := Line(ChatRowOf(e), currentYear);
      var after := before + [ChatRowOf(e)];
      assert after[..|after| - 1] == before;
      assert Lines(after, currentYear) == Lines(before, currentYear) + line;
      assert ListText(after, currentYear) == ListHeader + (Lines(before, currentYear) + line);
      assert ChatRows(es + [e], chatId) == after;
      if before == [] {
        assert Lines(before, currentYear) + line == line;
        assert ListText(ChatRows(es + [e], chatId), currentYear) == ListHeader + line;
      } else {
        AppendAssoc(ListHeader, Lines(before, currentYear), line);
        assert ListText(ChatRows(es + [e], chatId), currentYear) == ListText(before, currentYear) + line;
      }
    } else {
      assert before + [] == before;
      assert ChatRows(es + [e], chatId) == before;
    }
  }

  lemma AppendAssoc(a: string, b: string, c: string)
    ensures (a + b) + c == a + (b + c)
  {
  }

  function NewlineCount(s: string): nat {
    multiset(s)['\n']
  }

  lemma {:induction false} ConcatAvoids(words: seq<string>, c: char)
    requires forall k :: 0 <= k < |words| ==> c !in words[k]
    ensures c !in Concat(words)
  {
    if words != [] {
      ConcatAvoids(words[1..], c);
    }
  }

  lemma WordHasNoNewline(w: string)
    requires IsWord(w)
    ensures '\n' !in w
  {
  }

  /** A `/list` line ends in the only newline it holds, when the name holds none. */
  lemma LineHasOneNewline(r: ChatRow, currentYear: int)
    requires '\n' !in r.name
    ensures NewlineCount(Line(r, currentYear)) == 1
  {
    var age := AgeText(r.year, currentYear);
    var head := ["• ", r.name, " — ", IntToString(r.day), ".", IntToString(r.month), " (", age, " лет)"];
    WordHasNoNewline(IntToString(r.day));
    WordHasNoNewline(IntToString(r.month));
    if r.year.Some? && r.year.value != 0 {
      WordHasNoNewline(IntToString(currentYear - r.year.value));
    }
    ConcatAvoids(head, '\n');
    ConcatAppend(head, ["\n"]);
    assert head + ["\n"] == ["• ", r.name, " — ", IntToString(r.day), ".", IntToString(r.month), " (", age, " лет)", "\n"];
    assert Concat(["\n"]) == "\n";
    assert Line(r, currentYear) == Concat(head) + "\n";
  }

  /** The lines of `/list` hold one newline per row. */
  lemma {:induction false} LinesNewlineCount(rows: seq<ChatRow>, currentYear: int)
    requires forall k :: 0 <= k < |rows| ==> '\n' !in rows[k].name
    ensures NewlineCount(Lines(rows, currentYear)) == |rows|
  {
    if rows != [] {
      var last := |rows| - 1;
      LinesNewlineCount(rows[..last], currentYear);
      LineHasOneNewline(rows[last], currentYear);
    }
  }

  lemma HeaderHasOneNewline()
    ensures NewlineCount(ListHeader) == 1
  {
    assert forall i :: 0 <= i < |ListTitle| ==> ListTitle[i] != '\n';
    assert multiset(ListHeader) == multiset(ListTitle) + multiset("\n");
  }

  /** A non-empty `/list` reply holds one newline for its header and one per
      row: each row of the chat gets exactly one line. */
  lemma ListLineCount(rows: seq<ChatRow>, currentYear: int)
    requires rows != []
    requires forall k :: 0 <= k < |rows| ==> '\n' !in rows[k].name
    ensures NewlineCount(ListText(rows, currentYear)) == |rows| + 1
  {
    LinesNewlineCount(rows, currentYear);
    HeaderHasOneNewline();
    assert ListText(rows, currentYear) == ListHeader + Lines(rows, currentYear);
  }

  /** An admin's well-formed `/add` in chat `c` with values that fit 64 bits,
      followed by `/list` in the same chat, shows the new birthday as the
      last line of the reply. */
  lemma AddThenList(es: seq<Entry>, adminId: int, chatId: int, command: string, name: string,
                    day: int, month: int, year: int, currentYear: int)
    requires IsWord(command) && IsWord(name)
    requires FitsInteger(chatId) && FitsInteger(day) && FitsInteger(month) && FitsInteger(year)
    ensures var text := Unwords([command, name, IntToString(day), IntToString(month), IntToString(year)]);
      var outcome := AddCommand(adminId, adminId, chatId, text);
      outcome.Accepted?
      && var added := Entry(chatId, outcome.name, outcome.day, outcome.month, Some(outcome.year));
         var reply := ListText(ChatRows(es + [added], chatId), currentYear);
         var line := Line(ChatRow(name, day, month, Some(year)), currentYear);
         |reply| >= |line| && reply[|reply| - |line|..] == line
  {
    AddBinding(adminId, chatId, command, name, day, month, year);
    var added := Entry(chatId, name, day, month, Some(year));
    ListAfterInsert(es, added, chatId, currentYear);
  }

  // ---------------------------------------------------------- daily check

  function Greeting(name: string): string {
    "🎉 Сегодня день рождения у " + name + "!"
  }

  function AgeClause(age: int): string {
    " Исполняется " + IntToString(age) + " лет!"
  }

  /** The message for one reported birthday; the age clause only when the age is truthy. */
  function Notification(r: TodayRow): Message {
    Message(r.chatId, Greeting(r.name) + (if Truthy(r.age) then AgeClause(r.age.value) else ""))
  }

  /** Everything one run of `check_birthdays` sends on `today`, in order. */
  function DailySends(es: seq<Entry>, today: Date): seq<Message> {
    var rows := TodayRows(es, today);
    seq(|rows|, i requires 0 <= i < |rows| => Notification(rows[i]))
  }

  /** `check_birthdays`. */
  method DailyCheck(store: BirthdayStore, today: Date) returns (sends: seq<Message>)
    ensures sends == DailySends(store.entries, today)
  {
    var birthdays := store.TodayBirthdays(today);
    sends := [];
    for i := 0 to |birthdays|
      invariant |sends| == i
      invariant forall k :: 0 <= k < i ==> sends[k] == Notification(birthdays[k])
    {
      var r := birthdays[i];
      var message := Greeting(r.name);
      if Truthy(r.age) {
        message := message + AgeClause(r.age.value);
      }
      sends := sends + [Message(r.chatId, message)];
    }
  }

  /** A message is sent by the daily run iff it is the notification, to its
      own chat, of an entry of any chat whose day and month are today's;
      DailySendsCount gives how many. */
  lemma DailySendsExact(es: seq<Entry>, today: Date, m: Message)
    ensures m in DailySends(es, today)
        <==> exists e :: e in es && e.day == today.day && e.month == today.month
                         && m == Notification(TodayRow(e.chatId, e.name, AgeOf(e.year, today.year)))
  {
    var rows := TodayRows(es, today);
    if m in DailySends(es, today) {
      var i :| 0 <= i < |rows| && DailySends(es, today)[i] == m;
      TodayRowsExact(es, today, rows[i]);
    }
    if e :| e in es && e.day == today.day && e.month == today.month
            && m == Notification(TodayRow(e.chatId, e.name, AgeOf(e.year, today.year))) {
      var r := TodayRow(e.chatId, e.name, AgeOf(e.year, today.year));
      TodayRowsExact(es, today, r);
      var i :| 0 <= i < |rows| && rows[i] == r;
      assert DailySends(es, today)[i] == m;
    }
  }

  /** The daily run sends one message per entry dated today, duplicates included. */
  lemma DailySendsCount(es: seq<Entry>, today: Date)
    ensures |DailySends(es, today)| == CountWhere(es, OnDate(today.day, today.month))
  {
    TodayRowsCount(es, today);
  }

  /** Adding a row adds one message to today's run exactly when its day and
      month are today's, after all the others; otherwise the run is unchanged. */
  lemma DailySendsAfterInsert(es: seq<Entry>, e: Entry, today: Date)
    ensures DailySends(es + [e], today)
         == DailySends(es, today)
            + (if e.day == today.day && e.month == today.month
               then [Notification(TodayRow(e.chatId, e.name, AgeOf(e.year, today.year)))] else [])
  {
    TodayRowsAfterInsert(es, e, today);
    var before := TodayRows(es, today);
    var after := TodayRows(es + [e], today);
    var extra := if e.day == today.day && e.month == today.month
                 then [Notification(TodayRow(e.chatId, e.name, AgeOf(e.year, today.year)))] else [];
    assert |DailySends(es + [e], today)| == |DailySends(es, today) + extra|;
    forall k | 0 <= k < |after|
      ensures DailySends(es + [e], today)[k] == (DailySends(es, today) + extra)[k]
    {
      if k < |before| {
        assert after[k] == before[k];
      }
    }
  }

  /** The age clause is appended exactly when the stored year is truthy and
      differs from today's year (age `None` and age `0` both omit it); when
      present it states `today.year - year`. */
  lemma NotificationClause(e: Entry, today: Date)
    ensures var n := Notification(TodayRow(e.chatId, e.name, AgeOf(e.year, today.year)));
      n.chatId == e.chatId
      && (n.text == Greeting(e.name) <==> !(Truthy(e.year) && e.year.value != today.year))
      && (Truthy(e.year) && e.year.value != today.year
          ==> n.text == Greeting(e.name) + AgeClause(today.year - e.year.value))
  {
    var n := Notification(TodayRow(e.chatId, e.name, AgeOf(e.year, today.year)));
    if Truthy(e.year) && e.year.value != today.year {
      assert |n.text| > |Greeting(e.name)|;
    }
  }
}
