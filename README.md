# Birthday bot: a Dafny model

The bot remembers birthdays per Telegram chat: an entry has a chat id, a
name, a day, a month and an optional year. Only the administrator may add an
entry (`/add Name Day Month Year`). Anyone may list their chat's entries
(`/list`). Once a day, the bot congratulates every chat that has an entry for
today's day and month.

This project models the logic of `main.py` behind the SQLite calls and the
Telegram SDK:

- `wrappers.dfy`: `Option`, used for the nullable `year` column and for an absent age.
- `text.dfy` (module `Text`): the Python primitives the handlers rely on.
  - `str.split()` without a separator, splitting on every character Python's `str.isspace()` accepts.
  - `int(token)`.
  - `str(n)`, as an f-string prints an integer.
- `store.dfy` (module `Store`): the `birthdays` table.
  - The class `BirthdayStore` holds the table as a `seq<Entry>` in insertion order.
  - `Insert` is `add_birthday`. It fails, writing nothing, when an integer does not fit 64 bits (`Bindable`). `Valid()` says every stored integer fits, and every insert keeps it.
  - The two `SELECT ... WHERE` queries are the filter `Where` with a `Condition` (`ByChat` or `OnDate`).
  - `ChatRows` is `get_all_birthdays`.
  - `TodayBirthdays` is the loop of `get_today_birthdays`. It is proved against the function `TodayRows`.
  - Python truthiness of the year is `Truthy`: `None` and `0` are both false.
- `bot.dfy` (module `Bot`): the handlers.
  - `ParseAdd` is the admin test and the parse of `add_birthday_command`. `AddCommand` adds the outcome of the insert. `HandleAdd` runs the whole handler. `IsAdmin` is `is_admin`.
  - `ListReply` is the loop of `list_birthdays`. It is proved against `ListText`.
  - `DailyCheck` is the loop of `check_birthdays`. It is proved against `DailySends`.
  - The fixed reply texts are string constants. `HelpText` is the reply of `/start`.

The administrator id, the current date and the current year are parameters.
Replies are returned strings. Outbound messages are a returned sequence of
`Message(chatId, text)`.

On these points the model follows `main.py` as written:
- A stored year of `0` counts as absent, as Python truthiness makes it, not only a missing year.
- The daily message also drops its age clause when the age is `0`.
- Day and month are never range-checked, so `31 2` and `0 13` are stored.
- A name is one whitespace-free token, because the command is cut with `split()`.
- A failed `int()` or a wrong token count both give the same format-error reply.
- `sqlite3` can only bind a signed 64-bit INTEGER. A day, month, year or chat id outside that range makes the insert raise `OverflowError`, which the handler's `except` also answers with the format error, writing nothing.

## Model

| member | source | states |
|---|---|---|
| Store.BirthdayStore.constructor | main.py:16-30 | a newly created table holds no rows |
| Store.Bindable | main.py:40-41 | the row's integers (chat id, day, month, and year unless NULL) all lie in the signed 64-bit range `sqlite3` can bind; Insert's `ok` is exactly this |
| Store.BirthdayStore.Insert | main.py:37-43 | when every integer fits 64 bits, exactly one row `(chat_id, name, day, month, year)` is appended after the unchanged earlier rows; otherwise the binding fails and the table is unchanged; `Valid()` is preserved |
| Store.Where | main.py:49 | a `WHERE` selection is no longer than the table, and every row it returns satisfies the condition |
| Store.WhereAppend | main.py:60 | selecting from two stretches of the table is selecting from each in turn, so results keep storage order |
| Store.WhereMultiplicity | main.py:46-68 | a selection holds each matching row exactly as many times as the table does, and never a row that fails the condition |
| Store.WhereCount | main.py:46-68 | a selection has exactly as many rows as the table has matching rows, counted one by one |
| Store.WhereMember | main.py:46-68 | a row is selected if and only if it is in the table and satisfies the condition |
| Store.AgeOf | main.py:66 | the age is present exactly when the year is truthy (not `None` and not `0`), and then year + age = current year |
| Store.ChatRows | main.py:46-52 | `get_all_birthdays(c)`: the `(name, day, month, year)` of the rows `Where` selects for chat `c`; characterised by ChatRowsExact and ChatRowsAfterInsert |
| Store.ChatRowsExact | main.py:46-52 | `get_all_birthdays(c)` returns `(name, day, month, year)` of exactly the rows of chat `c`, and of no other chat |
| Store.ChatRowsAfterInsert | main.py:37-52 | after an insert, the inserting chat's list gains that row at the end, and every other chat's list is unchanged |
| Store.DateHits | main.py:60-61 | the `(chat_id, name, year)` rows of the date query, in storage order; TodayBirthdays is proved against it and TodayRows |
| Store.TodayRows | main.py:55-68 | `get_today_birthdays()`: `(chat_id, name, AgeOf(year))` of the rows selected for today's day and month; characterised by TodayRowsExact, TodayRowsCount and TodayRowsAfterInsert |
| Store.TodayRowsExact | main.py:55-68 | a tuple `(chat_id, name, age)` is in the result iff some entry of any chat has today's day and month, that chat and name, and age `AgeOf(year)` |
| Store.TodayRowsCount | main.py:60-67 | the result has exactly one tuple per entry dated today, duplicates included |
| Store.TodayRowsAfterInsert | main.py:60-67 | an inserted row is appended to today's result exactly when its day and month are today's |
| Store.BirthdayStore.TodayBirthdays | main.py:64-68 | the loop attaches `today.year - year` (or `None` for a falsy year) to each hit of the date query, in query order |
| Text.Split | main.py:87 | every token of `split()` is non-empty and holds no whitespace; SplitAtSpace, SplitWord and SplitKeepsVisible pin where tokens start and end |
| Text.SplitKeepsVisible | main.py:87 | `split()` drops whitespace and nothing else: the tokens concatenated are the input without its whitespace |
| Text.SplitAtSpace | main.py:87 | any whitespace character (space, tab, newline, ...) separates tokens: the text before it and the text after it split independently, so runs of whitespace make no empty tokens |
| Text.SplitWord | main.py:87 | a single word splits to exactly itself |
| Text.SplitUnwords | main.py:87 | splitting words joined by single spaces gives back those words |
| Text.NatToString | main.py:90 | a natural number prints as non-empty ASCII digits with no leading zero |
| Text.IntToString | main.py:90 | an integer prints as one non-empty token without whitespace |
| Text.ParseInt | main.py:88 | `int()` accepts a token exactly when it is ASCII digits with an optional leading sign, and an accepted token is a word; its value is pinned by ParseIntLeadingZero, ParseIntPlus, ParseIntMinus, NatToStringOfNumeral and ParseIntToString |
| Text.NumeralLeadingZero | main.py:88 | a leading zero does not change the value of a digit string |
| Text.ParseIntLeadingZero | main.py:88 | `int()` ignores a leading zero: `int("0" + d) == int(d)` for every numeral `d` |
| Text.ParseIntPlus | main.py:88 | `int("+" + d) == int(d)` for every numeral `d` |
| Text.ParseIntMinus | main.py:88 | `int("-" + d) == -int(d)` for every numeral `d` |
| Text.NatToStringOfNumeral | main.py:88-90 | a numeral with no leading zero (or `0` itself) is exactly how the f-string prints its value, so each such token is read as the number it spells |
| Text.ParseIntToString | main.py:88-90 | `int()` reads back exactly the integer that an f-string prints, negatives included |
| Bot.IsAdmin | main.py:33-34 | a user is the administrator iff their id equals the configured admin id; used by ParseAdd, whose contract states the consequences |
| Bot.ParseAdd | main.py:82-88 | a non-admin is always denied and an admin never is; a token count other than five or a non-integer day, month or year gives the format error; otherwise the result is `tokens[1]` with the three parsed integers |
| Bot.AddCommand | main.py:81-92 | the handler's outcome: denied exactly for a non-admin, accepted exactly when the parse is accepted and every integer fits 64 bits, and then the parsed values |
| Bot.AddRoundTrip | main.py:86-88 | an admin's `/add` with any one-word name and any three integers parses to exactly those values, with no range check |
| Bot.AddBinding | main.py:86-92 | with a chat id, day and month that fit 64 bits, an admin's `/add` is accepted as typed when the year fits too (`31 2` and `0 13` included), and otherwise gets the format error |
| Bot.AddReply | main.py:81-92 | the reply of `/add` for each outcome: the denial text (line 83), the confirmation (line 90) or the format-error text (line 92); HandleAdd's reply is AddReply of AddCommand |
| Bot.Confirmation | main.py:90 | the confirmation text `✅ Добавлено: name — day.month.year` with the parsed integers printed by `IntToString` |
| Bot.HandleAdd | main.py:81-92 | the reply is the denial, the format error or the confirmation, as AddCommand decides; a row is appended only on acceptance, otherwise the table is unchanged; `Valid()` is preserved |
| Bot.AgeText | main.py:104 | the age shown in `/list`: `IntToString(today.year - year)` when AgeOf gives an age, else `?` |
| Bot.FormatLine | main.py:105 | the line `• name — day.month (age лет)` followed by a newline; LineHasOneNewline shows it is one line |
| Bot.Line | main.py:104-105 | one `/list` line for a row, with AgeText as the age; LineHasOneNewline shows it is one line |
| Bot.Lines | main.py:103-105 | one Line per row, in row order; LinesNewlineCount and ListAfterInsert characterise it |
| Bot.ListText | main.py:96-105 | the `/list` reply: the empty-list text for no rows, else the header and one line per row; characterised by ListTextEmpty, ListAfterInsert and ListLineCount |
| Bot.ListReply | main.py:95-107 | the reply is `ListText` of the chat's rows: the empty-list text, or the header followed by one line per row |
| Bot.ListTextEmpty | main.py:96-99 | `/list` gives the fixed empty-list text exactly when the chat has no rows |
| Bot.ListAfterInsert | main.py:102-105 | after an insert into chat `c`, the `/list` reply of `c` is the old reply (or the bare header) plus one line, and other chats' replies are unchanged |
| Bot.AddThenList | main.py:86-105 | after an admin's well-formed `/add` whose values fit 64 bits, `/list` in that chat ends with the line of the new birthday |
| Bot.LineHasOneNewline | main.py:105 | each `/list` line holds exactly one newline when the name holds none |
| Bot.LinesNewlineCount | main.py:103-105 | the lines part of a `/list` reply holds one newline per row, when no name holds a newline, which holds for every name `/add` stores |
| Bot.ListLineCount | main.py:102-105 | a non-empty `/list` reply holds one newline for its header and one per row, when no name holds a newline, which holds for every name `/add` stores |
| Bot.Greeting | main.py:113 | the fixed greeting `🎉 Сегодня день рождения у name!`; NotificationClause shows when it is the whole message |
| Bot.AgeClause | main.py:115 | the clause ` Исполняется age лет!`; NotificationClause shows when it is appended and that it states `today.year - year` |
| Bot.Notification | main.py:113-115 | the message for one reported birthday, sent to its chat; characterised by NotificationClause |
| Bot.DailySends | main.py:110-116 | every message one daily run sends, one per tuple of `get_today_birthdays` in order; characterised by DailySendsExact, DailySendsCount and DailySendsAfterInsert |
| Bot.DailyCheck | main.py:110-116 | the sends are one `Message` per row of `get_today_birthdays`, in order, each addressed to that row's chat |
| Bot.DailySendsExact | main.py:110-116 | a message is sent iff it is the notification, to its own chat, of an entry of any chat whose day and month are today's |
| Bot.DailySendsCount | main.py:110-116 | the daily run sends exactly one message per entry dated today, duplicates included |
| Bot.DailySendsAfterInsert | main.py:110-116 | an inserted entry adds one message at the end of the run exactly when its day and month are today's, and otherwise leaves the run unchanged |
| Bot.NotificationClause | main.py:113-115 | the age clause is appended if and only if the year is truthy and differs from today's year, and it then states `today.year - year` |

## Left out

- SQLite: opening and closing connections, commits, and `CREATE TABLE IF NOT EXISTS`. The table is an in-memory sequence created empty. Persistence across restarts and the `AUTOINCREMENT` id are not modelled, since the id is never read back.
- Row order: SQLite does not promise an order without `ORDER BY`. The model returns rows in insertion order.
- Storage faults and send faults: the `except` at main.py:91 also catches a disk or connection failure of the insert, or a failing reply. These system faults are not modelled. The 64-bit overflow of the insert is modelled.
- The Telegram SDK: `Update`, `reply_text`, `send_message`, `async`/`await` and polling. Replies and sends are returned values.
- Delivery failures: per-recipient send failures in the daily run are not modelled.
- Scheduling: the APScheduler cron job at 09:00 and `main()` are not modelled.
- Configuration from the environment: `TELEGRAM_BOT_TOKEN`, and `ADMIN_ID` with its default 385919505. The admin id is a parameter.
- The clock: `datetime.now()` becomes a `Date` parameter for the daily check, and a current-year parameter for `/list`.
- Text.ParseInt: Python's full `int()` grammar is not modelled. Underscores between digits and non-ASCII Unicode digits are rejected here but accepted by Python. Surrounding whitespace cannot occur after `split()`.
- Text rendering: emoji and Cyrillic texts are opaque string constants. The program always writes "лет" whatever the number, and so does the model.
- `/start`: it has no logic beyond the constant `HelpText`.
