# Personal Reminder Manager — a verified model of the reminder store

The Personal Reminder Manager is a single-user desktop utility that keeps
timestamped text reminders in a list, shows the Active ones, and alerts the
user when a reminder's time arrives. Almost all of the program is widget
wiring. Its logic is the reminder store inside `ReminderApp`, and that store
is what this project models:

- **add** (`add_reminder`) strips the message and rejects it when empty. It
  rejects a date and time that do not parse, and a time that is not strictly
  after the clock. Otherwise it appends an Active, unnotified record whose id
  is the list length plus one. It confirms with "Due in N day(s)/hour(s)/minute(s)".
- **delete** (`delete_reminder`) does nothing without a selected row or a
  confirmation. Otherwise it keeps the records whose id differs from the
  selected one, in order.
- **refresh** (`refresh_reminder_list`) lists the Active records in order. It
  reads the clock afresh for each listed record, and labels the record
  "Overdue" when its time is strictly before that reading. It counts the listed
  records and pluralises the count label.
- **due-check pass** (one iteration of the `check_reminders` loop) alerts once
  for each Active, unnotified record whose time has come. It marks each such
  record notified and Completed in place.

Modules, one per concern:

- `text.dfy`, module `Text`: Python's `str.strip()` (over the `str.isspace()`
  characters) and `str(n)` for a non-negative integer.
- `due_in.dfy`, module `DueIn`: the `timedelta` normalisation and the "Due in"
  text.
- `reminders.dfy`, module `Reminders`: the record datatype and the pure logic.
  This covers validation, the id filter, the due test and one pass, the
  list-view projection, and the lemmas about them.
- `reminder_app.dfy`, module `App`: the `ReminderApp` class. Its field
  `reminders: seq<Reminder>` is the shared list. Its methods change that list
  in place, and each is proved against the functions of `Reminders`.

Time is an integer count of microseconds, the resolution of Python's
`datetime`. The clock is a parameter. The add reads the clock for the future
check (`remainder_app.py:336`) and again for the confirmation
(`remainder_app.py:359`), so `AddReminder` takes both readings. Its reading at
`remainder_app.py:356` only refills the time field, which is left out, and the
refresh it calls at `remainder_app.py:351` is modelled by
`RefreshReminderList`. The refresh
reads it once per listed record (`remainder_app.py:414`), so
`RefreshReminderList` takes a function `clock` whose value at `k` is the
reading taken for the k-th listed record. Two records with the same time can
therefore be listed one as Active and the next as Overdue. Dafny's `/` and
`%` by a positive divisor round down, as Python's do, so `timedelta.days` and
`timedelta.seconds` are exact for negative gaps too. Parsing the date and time
fields is a parameter `Option<Instant>`, where `None` means `strptime` raised.

Three behaviours of the code are worth stating outright:

- Ids are not unique. An id is `len + 1` at the time of the add, so a record
  added after a delete can repeat an older id (`IdsCollideAfterDelete`).
  Deleting that id then removes every record that has it.
- A confirmed delete of an id that no record has changes nothing, but it still
  saves and reports "Reminder deleted". There is no "not found" report, only
  the "no selection" one.
- The stored message is the stripped message.

## Model

| member | source | states |
|---|---|---|
| `Text.TrimStart` | remainder_app.py:323 | the result is a suffix of the input, everything removed is whitespace, and the result does not start with whitespace |
| `Text.TrimEnd` | remainder_app.py:323 | the result is a prefix of the input, everything removed is whitespace, and the result does not end with whitespace |
| `Text.Strip` | remainder_app.py:323 | the stripped message has no whitespace at either end, and it is empty exactly when the typed message is all whitespace |
| `Text.StripOf` | remainder_app.py:323 | reference characterisation: for whitespace + core + whitespace, where the core has no whitespace at either end, strip returns exactly the core |
| `Text.StripIdempotent` | remainder_app.py:323 | stripping an already stripped message changes nothing |
| `Text.Decimal` | remainder_app.py:365-369 | the rendered number is a non-empty run of decimal digits with no leading zero (except "0" itself) |
| `Text.DecimalRoundTrip` | remainder_app.py:426 | reading the rendered digits back gives the number |
| `DueIn.Days` | remainder_app.py:360 | `timedelta.days` is the gap in whole days rounded down: that many days fit into the gap and one more does not |
| `DueIn.SecondsOfDay` | remainder_app.py:361 | `timedelta.seconds` is less than one day, and it is the whole seconds left after the days: days · day + seconds · second <= gap < days · day + (seconds + 1) · second, for gaps of either sign |
| `DueIn.Summarize` | remainder_app.py:359-369 | days are chosen exactly when `days > 0`, and the amount is then the days; an hour amount is 1 to 23 and a minute amount 0 to 59 |
| `DueIn.SummarizeWithinDay` | remainder_app.py:359-369 | when `days <= 0`, ahead of the clock or behind it, the unit is the largest of hours and minutes that the seconds within the day hold, and the amount is those seconds in that unit, rounded down |
| `DueIn.SummarizeAhead` | remainder_app.py:359-369 | for a time ahead of the clock, the unit is the largest of day/hour/minute that fits, and the amount is the gap in that unit, rounded down |
| `DueIn.SubMinuteReadsZero` | remainder_app.py:362-369 | a time less than a minute ahead is confirmed as "0 minute" |
| `DueIn.FiveMinutesAhead` | remainder_app.py:359-369 | a time exactly five minutes ahead is confirmed as "5 minutes" |
| `DueIn.PastByOneMicrosecond` | remainder_app.py:359-367 | if the second clock reading has passed the time by one microsecond, the gap normalises to -1 day + 86399 s and reads "23 hours" |
| `DueIn.RenderPlural` | remainder_app.py:364-369 | `Render`: the text is exactly the amount in decimal, a space and the unit's name (day, hour or minute), followed by one "s" exactly when the amount exceeds one and by nothing else |
| `DueIn.UnitNameReadsBack` | remainder_app.py:365-369 | no unit's name starts another's, so the unit can be read back from the text after the number |
| `Reminders.Filter` | remainder_app.py:391 | order-preserving filtering never makes the list longer |
| `Reminders.FilterMembers` | remainder_app.py:391 | a record is kept exactly when it is in the list and passes the test; all pass means the list is unchanged, none pass means it is empty |
| `Reminders.FilterAppend` | remainder_app.py:391 | filtering a concatenation is the concatenation of the filtered parts, so relative order is kept |
| `Reminders.FilterIdempotent` | remainder_app.py:391 | filtering twice with the same test is filtering once |
| `Reminders.Validate` | remainder_app.py:323-338 | rejects an all-whitespace message first, then an unparsable date/time, then a time at or before the clock; accepts otherwise, with the stripped message and the parsed time |
| `Reminders.NewReminderPending` | remainder_app.py:341-349 | `NewReminder`: the appended record has id = old length + 1, keeps a consistent list consistent, is added to the list view, and is due at exactly the clock readings at or after its time |
| `Reminders.WithoutId` | remainder_app.py:391 | keeps exactly the records whose id differs from the target; an absent id leaves the list unchanged; the result is empty exactly when every record has that id |
| `Reminders.WithoutIdAppend` | remainder_app.py:391 | the survivors of a delete keep their original relative order |
| `Reminders.WithoutIdKeepsRecords` | remainder_app.py:391 | every surviving record is an unchanged record of the old list, so a delete never turns Completed back into Active and keeps notified consistent with Completed |
| `Reminders.ConsistentSnoc` | remainder_app.py:349 | appending a record keeps the list consistent exactly when the record itself is consistent |
| `Reminders.StepAlertsOnce` | remainder_app.py:434-440 | `Due` and `Step`: the one-record step changes a record exactly when it is due (Active, unnotified, time at or before the clock); it then marks it notified and Completed, keeps id, message and time, and the stepped record is due at no clock reading |
| `Reminders.Tick` | remainder_app.py:433-441 | one pass keeps the length and order, and changes each record in place by the per-record step |
| `Reminders.Fired` | remainder_app.py:433-438 | a pass never alerts more often than there are records |
| `Reminders.FiredExactlyTheDue` | remainder_app.py:433-438 | a pass alerts for exactly the records that are Active, unnotified and have time <= clock; for all of them when all are due and for none when none is |
| `Reminders.FiredAppend` | remainder_app.py:433-438 | the alerts of a pass follow list order, part by part |
| `Reminders.FiredSnoc` | remainder_app.py:433-438 | one more record adds one alert when it is due and none otherwise |
| `Reminders.TickMarksExactlyTheDue` | remainder_app.py:433-441 | every due record becomes notified and Completed; no other record changes; id, message and time never change; Completed and notified are never undone; nothing is left due at that clock reading |
| `Reminders.TickKeepsConsistent` | remainder_app.py:439-440 | a pass sets notified and Completed together, so "notified iff Completed" is kept |
| `Reminders.TickIdempotent` | remainder_app.py:430-441 | a second pass at the same clock reading changes nothing |
| `Reminders.Run` | remainder_app.py:430-446 | any number of passes keeps the list length |
| `Reminders.NotifiedStays` | remainder_app.py:434 | once notified, a record stays notified through any number of later passes |
| `Reminders.RunSplit` | remainder_app.py:430-446 | a run of passes is its first part followed by its remaining part |
| `Reminders.NotifiedByItsPass` | remainder_app.py:437-439 | the pass that alerts for a record leaves it notified |
| `Reminders.AlertsAtMostOnce` | remainder_app.py:433-441 | if a pass alerts for a record, no later pass alerts for it again, whatever the later clock readings |
| `Reminders.ActiveOnly` | remainder_app.py:405-406 | the list view never shows more records than the store holds |
| `Reminders.ActiveOnlyExactlyTheActive` | remainder_app.py:405-406 | the list view shows exactly the Active records; all Active means all shown, none Active means an empty view |
| `Reminders.ActiveOnlyAppend` | remainder_app.py:405-406 | the shown records keep their store order |
| `Reminders.ActiveOnlySnoc` | remainder_app.py:405-406 | one more record is shown exactly when it is Active |
| `Reminders.ActiveOnlyAllActive` | remainder_app.py:406 | every shown record is Active |
| `Reminders.ActiveCountAfterTick` | remainder_app.py:404-407 | for any list, each alert of a pass lowers the active count by exactly one |
| `Reminders.RowOfMarksOverdue` | remainder_app.py:413-423 | `RowOf`: a row shows the record's id, message and time; it says Overdue exactly when the time is strictly before the clock reading and the stored status otherwise; a row Overdue at one reading is Overdue at every later one |
| `Reminders.RowsOf` | remainder_app.py:405-423 | the view has one row per shown record |
| `Reminders.RowsOfSnoc` | remainder_app.py:405-423 | one more shown record adds its row at the next clock reading |
| `Reminders.RowsOfIndex` | remainder_app.py:405-423 | row k is the row of the k-th shown record at the k-th clock reading |
| `Reminders.CountLabel` | remainder_app.py:426 | the count label is the chart sign, a space, the count in decimal and " active reminder", followed by one "s" exactly when the count is not one and by nothing else |
| `Reminders.CountLabelReadsBack` | remainder_app.py:426 | the number the count label shows reads back as the count |
| `Reminders.NothingOverdueAfterTick` | remainder_app.py:414 | for a consistent list (notified exactly when Completed), right after a pass no shown record is Overdue at that clock reading: a pass fires at time <= clock, Overdue needs time < clock |
| `App.ReminderApp.constructor` | remainder_app.py:34 | the store starts from the loaded records |
| `App.ReminderApp.AddReminder` | remainder_app.py:321-374 | a refusal reports its reason and leaves the list unchanged; an accepted add appends one Active, unnotified record with id = old length + 1 and the stripped message, keeps every earlier record, and reports the "Due in" text |
| `App.ReminderApp.DeleteReminder` | remainder_app.py:376-395 | no selection or a declined confirmation leaves the list unchanged; a confirmed delete replaces it with the id filter of the old list |
| `App.ReminderApp.RefreshReminderList` | remainder_app.py:397-426 | reads without changing anything; the rows are the Active records in store order, row k Overdue exactly when its time is before the k-th clock reading and Active otherwise; the count is the number of Active records; the label pluralises it |
| `App.ReminderApp.CheckRemindersTick` | remainder_app.py:430-441 | the new list is one pass applied in place; the alerts are exactly the due records in list order, as they were before the pass; consistency is kept |
| `App.DueScenario` | remainder_app.py:321-441 | a message five minutes ahead is accepted and confirmed as "5 minutes"; it is listed as Active; a pass after its time alerts for it once and completes it; a later pass alerts for nothing; the view no longer shows it |
| `App.IdsCollideAfterDelete` | remainder_app.py:342 | add, add, delete id 1, add gives two records with id 2, and deleting id 2 removes both |

## Left out

- Widgets, event wiring and toasts (`create_widgets`, `quick_add_minutes`, `on_item_double_click`, `show_toast`, `run`, `on_closing`) are presentation only. The input fields are parameters. The model also omits clearing the fields after an add.
- The confirmation dialog is a `confirmed: bool` parameter of `DeleteReminder`. The selected row is an `Option<int>` id parameter.
- The OS notification, popup and toast of `show_notification` are foreign calls. Each alert is returned as the record it is for.
- The JSON file (`load_reminders`, `save_reminders`) is file I/O. The constructor takes the loaded list. The model does not record the save after each add, delete and alert.
- The background thread, the 30-second sleep, the `running` flag and the `root.after` hand-offs are concurrency. The model covers one sequential pass at a time, not the unsynchronised delete/pass race.
- `datetime.now()`, `strptime` and `strftime` are library calls. The clock is a parameter. Parsing the input is a parsed-or-`None` parameter. A stored time is kept as the instant that its "YYYY-MM-DD HH:MM" text denotes.
- The model does not cover records loaded from a hand-edited file with a malformed stored time, a status other than Active/Completed, or a non-integer id.
  - A malformed time makes `strptime` raise inside a refresh or a pass.
  - A record with another status is neither listed nor stepped.
  - A record with a non-integer id is listed and stepped like any other. Only the id comparison of a delete (`remainder_app.py:391`) treats it differently, because the model keeps ids as integers.
- A failed save is not modelled: `save_reminders` has no `try`, and an add only catches `ValueError`.
  - An `OSError` from the save after an add (`remainder_app.py:350`) leaves the record appended, with no refresh and no confirmation. `AddReminder` still reports `Added`.
  - An `OSError` from the save in a pass (`remainder_app.py:441`) ends the checker thread after that record is marked, so no later pass runs. The model assumes every save succeeds.
- Python's `except ValueError` also catches a ValueError raised after the append (from a refresh over a malformed stored record). The model does not cover that path.
- Test.java is unrelated to the reminder manager: three classes that print a line or return a constant.
- Reminders.AlertsAtMostOnce: states at-most-once over a run of passes only. An add appends and leaves earlier indices alone, but a delete shifts indices, so runs that interleave deletes are covered only record by record, through WithoutIdKeepsRecords.
