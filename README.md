# Birthday notifier: a Dafny model

The repository is a user registry with a birthday mailer. Users are rows of
a MySQL `users` table. A pass reads the active rows and mails each user
whose birthday it is at the configured hour. After a successful mail it
sets a sent flag on the row, so the user is not mailed twice. The
application's timer (app.js:128-134) runs the pass of `functions.js` once
a minute. `controller.js` also has a recovery pass that runs the same check
over every row whose flag is still clear. No code in the repository calls
it; it is meant to run when the service starts.

The model covers three files:

- `controller.js`, the current version. It is modelled in `controller.dfy`
  (module `Controller`), with its properties in `controller_props.dfy`
  (module `ControllerProperties`).
  - The table is a class `Store` holding a `seq<User>` and the
    AUTO_INCREMENT counter. Its invariant `Valid` says ids are unique and
    below the counter.
  - Each SQL statement is a method that changes `rows`. Each method is
    specified by a function of the old table: `MarkSent`, `Edited`,
    `Deleted`, `ActiveRows` and `UnsentRows`.
  - The gate of `sendBirthdayMessage` is `Gate`. It runs `DueAsWritten`,
    the condition as the code has it, when the pass's `dayRule` is
    `WholeDate`. It runs `Due`, the corrected condition, when `dayRule` is
    `MonthAndDay` (see Findings). Every pass lemma holds under both rules.
  - One call of `sendBirthdayMessage` ends in one of four ways, `AttemptOf`:
    the lookup fails, the user is not due, the send fails, or the mail is
    sent (and the mark either succeeds or not).
  - The two passes are `for` loops over the rows fetched at the start. They
    are proved against `PassTable` (the table afterwards) and `PassMails`
    (who was mailed, in order).
- `functions.js`, the earlier version, in `functions.dfy` (module
  `Functions`) and `functions_props.dfy`. It has a `location` column, a
  single `message_sent` flag, a fixed gate at 09:00, and no recovery pass.
- `helper.js`, in `helper.dfy` (module `Helper`). These are the month/day
  and hour comparisons.

Supporting modules:

- `common.dfy`: `Option`, an order-keeping `Filter` (a `SELECT … WHERE`) and
  its laws.
- `calendar.dfy`: dates, clock readings and leap years.
- `schema.dfy`: column kinds and edit errors.
- `js_number.dfy`: `parseInt(text, 10)` as section 19.2.5 of ECMAScript 2024
  defines it, with its round trip against the printed numeral.

Everything outside the process is a parameter:

- The current time in Asia/Jakarta and the HOUR_SEND setting.
- The city-to-zone lookup.
- Whether each mail, each UPDATE and each SELECT succeeds. A CRUD method
  takes an `ok` flag for whether the database answers.
- The NOW() stamp.

Where the code and the intended behaviour disagree, the model follows the
code:

- The day check compares the whole date, year included, under `WholeDate`.
  This is the rule the code runs. The corrected rule is a separate choice
  (see Findings).
- The hour check is equality with `parseInt(HOUR_SEND)`, not "at or after".
- The recovery pass applies the same strict gate as the periodic pass.
- The day is compared in Asia/Jakarta. The user's zone only decides whether
  the lookup at controller.js:137 throws.
- No pass clears the flag. Only an explicit edit of `message_sent_status`
  does (`EditCanClearMark`). `MarkedUserIsNeverMailedAgain` shows the
  consequence: with no such edit between passes, a marked user gets no mail
  in any later year either.

## Model

| member | source | states |
|---|---|---|
| Controller.NewRow | controller.js:10-11 | the inserted row carries the six given fields, a clear flag, a NULL `message_sent` and the creation time |
| Controller.Store.CreateUser | controller.js:7-21 | on success, one row with a fresh id and the six fields is appended and nothing else changes; on failure, the table is unchanged |
| Controller.Store.CheckUserExists | controller.js:24-35 | true exactly when some row has the id; no answer when the query fails |
| Controller.Store.GetAllUsers | controller.js:38-49 | returns every row in table order, or nothing when the query fails |
| Controller.EditCheck | controller.js:52-69 | with each key read as an exact, plain column name, the UPDATE fails on an empty field map or on an assignment to a name that is not a writable column or with a value of the wrong kind, and otherwise succeeds |
| Controller.ApplyFields | controller.js:57-59 | one row after `SET k1 = v1, …`; `ApplyFieldsWrites` and `ApplyFieldsKeeps` state its meaning |
| Controller.Edited | controller.js:57-61 | the edited table has the same rows in the same places with the same ids |
| Controller.Store.EditUser | controller.js:52-69 | the UPDATE either fails as a whole, leaving the table as it was, or applies the field map to the rows with the id |
| ControllerProperties.EditedRow | controller.js:57-61 | rows with another id are untouched; in rows with the id, each listed column reads back its new value and every other column keeps its old one |
| ControllerProperties.ApplyFieldsWrites | controller.js:58 | each listed column reads back the value it was given |
| ControllerProperties.ApplyFieldsKeeps | controller.js:58 | every column not listed keeps its value |
| ControllerProperties.EditAbsentIdIsNoOp | controller.js:57-61 | editing an id that no row has changes nothing |
| Controller.Deleted | controller.js:74 | the rows left are exactly the rows whose id differs |
| Controller.Store.DeleteUser | controller.js:72-83 | on success exactly the rows with the id are removed; on failure the table is unchanged |
| ControllerProperties.DeleteAbsentIdIsNoOp | controller.js:74 | deleting an id that no row has changes nothing |
| ControllerProperties.DeleteKeepsOrder | controller.js:74 | deleting keeps the remaining rows in table order |
| ControllerProperties.CreateThenDeleteRestores | controller.js:7-83 | a freshly inserted user is found, and deleting it restores the table as it was and leaves no row with its id |
| Controller.ActiveRows | controller.js:218 | the rows `WHERE status = 'active'`, in table order; `FetchActiveUsers` and `TickMails` state its meaning |
| Controller.UnsentRows | controller.js:191 | the rows `WHERE message_sent_status = false`, in table order; `FetchUsersWithUnsentMessages` and `RecoveryMails` state its meaning |
| Controller.Store.FetchActiveUsers | controller.js:216-226 | returns exactly the rows whose status is active, in table order, or nothing when the SELECT fails |
| Controller.Store.FetchUsersWithUnsentMessages | controller.js:189-199 | returns exactly the rows with a clear flag, whatever their status, in table order, or nothing when the SELECT fails |
| Controller.Marked | controller.js:175 | one row after `SET message_sent_status = true, message_sent = NOW()`; `MarkSentFrame` states its meaning |
| Controller.MarkSent | controller.js:175 | the mark keeps every row in its place with its id |
| ControllerProperties.MarkSentFrame | controller.js:172-186 | marking changes only rows with the id, and in them only the flag (set to true) and `message_sent` (set to the stamp) |
| Controller.Store.UpdateUserMessageStatus | controller.js:172-186 | a successful UPDATE marks the rows with the id; a failed one is caught and changes nothing |
| Controller.HourSetting | controller.js:141 | `parseInt(process.env.HOUR_SEND, 10)`, with an unset variable read as the text "undefined"; its meaning is stated by `HourCheckIsEquality` and `UnsetHourNeverDue` |
| Controller.DueAsWritten | controller.js:139-143 | the condition as written: today's whole Jakarta date is the birthday, the hour equals the setting, and the flag is clear; `AsWrittenFiresOnlyInBirthYear` states what it implies |
| Controller.Due | controller.js:139-143 | the corrected condition, with month and day in place of the whole date; `DueOnEveryBirthday` states when it holds |
| Controller.Gate | controller.js:139-143 | the condition a call runs: `DueAsWritten` under `WholeDate`, `Due` under `MonthAndDay` |
| Controller.AttemptOf | controller.js:134-167 | how one call ends: a failed zone lookup, the gate refusing, a failed send, or a sent mail whose mark succeeded or failed; `AttemptEffect` states its effect |
| Controller.Store.SendBirthdayMessage | controller.js:131-168 | the outcome is the one the lookup, the gate as selected and the two oracles decide, and the table is marked only when the mail and the UPDATE both succeed |
| ControllerProperties.AttemptEffect | controller.js:134-167 | a call changes the table only if the lookup found a zone, the day check holds (the whole date under the rule as written), the hour and flag checks hold, the mail went out and the mark succeeded; every other ending leaves the table unchanged |
| ControllerProperties.HourCheckIsEquality | controller.js:141 | with HOUR_SEND set to the numeral of an hour, both the condition as written and the corrected one pass at that hour only, neither before nor after it |
| ControllerProperties.UnsetHourNeverDue | controller.js:141 | with HOUR_SEND unset, `parseInt` gives NaN and nobody is ever due |
| ControllerProperties.DueOnEveryBirthday | controller.js:139-143 | the corrected gate opens each year on the birthday at the configured hour for an unmarked user |
| ControllerProperties.LeapDayBirthdayDueOnlyInLeapYears | controller.js:140 | a 29 February birthday is due only in leap years |
| ControllerProperties.AsWrittenFiresOnlyInBirthYear | controller.js:140 | the day check as written holds only in the birth year, and only when the corrected check holds |
| ControllerProperties.AsWrittenMissesLaterBirthdays | controller.js:136-143 | for a user born on 1990-05-17, at 09:00 on 2024-05-17 with HOUR_SEND "9", the call as written turns the user away and leaves the table unchanged, while the corrected call mails and marks |
| ControllerProperties.AsWrittenPassesMailOnlyInBirthYear | controller.js:140 | under the rule as written, either pass mails only users whose stored birthday is today's whole date, and only users the corrected rule would mail too |
| Controller.Store.SendToEach | controller.js:207-209 | the loop of both passes (it is also the loop at controller.js:116-118) leaves the table that the calls made one after another leave, and mails exactly the fetched users whose call sent |
| Controller.AfterAttempt | controller.js:160-163 | the table after one call: marked when the mail and the UPDATE both succeeded, unchanged otherwise; `AttemptEffect` states its meaning |
| Controller.PassTable | controller.js:207-209 | the table after the loop has called sendBirthdayMessage on each fetched row in turn; `PassTableClosedForm` states its effect |
| Controller.PassMails | controller.js:207-209 | the fetched rows whose call mailed, in fetch order |
| Controller.PassStep | controller.js:207-209 | one more turn of the loop applies one call to the table and adds at most that user to the mail list |
| Controller.TickTable | controller.js:202-213 | the table after a tick: the pass over the active rows, or the table unchanged when the SELECT fails; `TickRow` states its effect per row |
| Controller.TickMails | controller.js:202-213 | a tick mails exactly the active rows whose call sends, and no one when the fetch fails |
| Controller.RecoveryTable | controller.js:113-122 | the table after the recovery pass: the pass over the unmarked rows, or the table unchanged when the SELECT fails; `RecoveryRow` states its effect per row |
| Controller.RecoveryMails | controller.js:113-122 | the recovery pass mails exactly the unmarked rows whose call sends, and no one when the fetch fails |
| Controller.Store.CheckAndSendBirthdayMessages | controller.js:202-213 | one tick fetches the active rows and runs the loop; a failed fetch mails no one and leaves the table unchanged |
| Controller.Store.RecoverAndResendMessages | controller.js:113-122 | the recovery pass fetches the unmarked rows and runs the same loop; a failed fetch mails no one and leaves the table unchanged |
| ControllerProperties.PassTableClosedForm | controller.js:163-209 | the effect of a whole pass is one mark per id whose call mailed and marked |
| ControllerProperties.PassTableAppend | controller.js:207-209 | a pass over two lists of users, one after the other, is the pass over the first followed by the pass over the second |
| ControllerProperties.TickRow | controller.js:202-213 | after a tick a row is marked exactly when it is active and its call mailed and marked; inactive rows and every other row are unchanged, and so is the whole table when the fetch fails |
| ControllerProperties.RecoveryRow | controller.js:113-122 | after the recovery pass a row is marked exactly when it was unmarked and its call mailed and marked; every other row is unchanged |
| ControllerProperties.FailingUserIsSkipped | controller.js:165-209 | a user whose call fails does not stop the loop: the users after it are processed exactly as if it were absent |
| ControllerProperties.FailingUserGetsNoMail | controller.js:165-209 | the mails of the pass are those before and after the failing user |
| ControllerProperties.MarkedRowIsNotMailed | controller.js:142-191 | no pass mails a user whose row carries the mark |
| ControllerProperties.PassKeepsKeysAndMarks | controller.js:175 | either pass keeps ids unique and in place and never clears a mark |
| ControllerProperties.MarkedUserIsNeverMailedAgain | controller.js:142-191 | once a row is marked, no later sequence of ticks and recovery passes, with no edit between them, mails that user again |
| ControllerProperties.MailedOnceThenNeverAgain | controller.js:139-164 | a tick that mails and marks a user is followed by no other mail to that user, whatever passes follow |
| ControllerProperties.SameHourRecheckSendsNothing | controller.js:141-142 | after the first mail is marked, every later tick, those in the same hour included, turns the user away |
| ControllerProperties.EditCanClearMark | controller.js:52-69 | an edit that sets `message_sent_status` to false unmarks the row, and the next tick whose call sends for it mails the user again |
| ControllerProperties.UnconfirmedMarkMeansResend | controller.js:163-185 | when the mark fails after a sent mail, the row stays unmarked and the next tick with the same clock mails the user again |
| ControllerProperties.RecoveryReachesInactiveUsers | controller.js:191 | the recovery pass selects on the flag alone, so it mails an inactive user whom no tick would mail |
| JsNumber.ParseInt10 | controller.js:141 | `parseInt(text, 10)`: skip leading white space, read an optional sign and the leading decimal digits, NaN when there are none; `ParseIntRoundTrip`, `ParseIntOfNumeralPrefix`, `ParseIntIgnoresLeadingWhiteSpace` and `UndefinedIsNaN` state its meaning |
| JsNumber.ParseIntRoundTrip | controller.js:141 | `parseInt` of a printed integer gives that integer back |
| JsNumber.ParseIntOfNumeralPrefix | controller.js:141 | a printed integer followed by a non-digit still parses to that integer |
| JsNumber.ParseIntIgnoresLeadingWhiteSpace | controller.js:141 | leading white space does not change what `parseInt` reads |
| JsNumber.UndefinedIsNaN | controller.js:141 | the text of an unset variable and the empty text parse to NaN |
| Functions.NewRow | functions.js:19-20 | the inserted row carries the six given fields, with `location`, and a clear flag |
| Functions.Store.CreateUser | functions.js:16-30 | on success, one row with a fresh id and the six fields is appended; on failure, nothing changes |
| Functions.Store.CheckUserExists | functions.js:33-44 | true exactly when some row has the id; no answer when the query fails |
| Functions.Store.GetAllUsers | functions.js:47-58 | returns every row in table order, or nothing when the query fails |
| Functions.EditCheck | functions.js:61-78 | with each key read as an exact, plain column name, the UPDATE fails on an empty field map or on an assignment to a name that is not a writable column or with a value of the wrong kind, and otherwise succeeds |
| Functions.ApplyFields | functions.js:66-68 | one row after `SET k1 = v1, …`; `ApplyFieldsWrites` and `ApplyFieldsKeeps` state its meaning |
| Functions.Store.EditUser | functions.js:61-78 | the UPDATE either fails as a whole, leaving the table unchanged, or applies the field map to the rows with the id |
| Functions.Edited | functions.js:66-70 | the edited table has the same rows in the same places with the same ids; `EditedRow` gives the contents |
| FunctionsProperties.EditedRow | functions.js:66-70 | rows with another id are untouched; in rows with the id, each listed column reads back its new value and every other column keeps its old one |
| FunctionsProperties.ApplyFieldsWrites | functions.js:67 | each listed column reads back the value it was given |
| FunctionsProperties.ApplyFieldsKeeps | functions.js:67 | every column not listed keeps its value |
| FunctionsProperties.EditAbsentIdIsNoOp | functions.js:66-70 | editing an id that no row has changes nothing |
| Functions.Deleted | functions.js:82 | the rows left are exactly the rows whose id differs |
| Functions.Store.DeleteUser | functions.js:81-90 | on success exactly the rows with the id are removed; a failure is only logged and leaves the table unchanged |
| FunctionsProperties.DeleteAbsentIdIsNoOp | functions.js:82 | deleting an id that no row has changes nothing |
| FunctionsProperties.DeleteKeepsOrder | functions.js:82 | deleting keeps the remaining rows in table order |
| FunctionsProperties.CreateThenDeleteRestores | functions.js:16-90 | a freshly inserted user is found, and deleting it restores the table as it was |
| Functions.ActiveRows | functions.js:188-198 | the fetched rows are exactly the active ones |
| Functions.Store.FetchActiveUsers | functions.js:188-198 | returns the active rows in table order, or nothing when the SELECT fails |
| Functions.MarkSent | functions.js:162 | the mark keeps every row in its place with its id |
| FunctionsProperties.MarkSentFrame | functions.js:159-173 | marking changes only rows with the id, and in them only `message_sent`, which becomes true |
| Functions.Store.UpdateUserMessageStatus | functions.js:159-173 | a successful UPDATE marks the rows with the id; a failed one is caught and changes nothing |
| Functions.DueAsWritten | functions.js:127-132 | the condition as written: today's whole date is the birthday, the clock reads 09:00 exactly, and `message_sent` is falsy |
| Functions.Due | functions.js:127-132 | the corrected condition, with month and day in place of the whole date |
| Functions.Gate | functions.js:127-132 | the condition a call runs: `DueAsWritten` under `WholeDate`, `Due` under `MonthAndDay` |
| Functions.AttemptOf | functions.js:127-155 | how one call ends: the gate refusing, a failed send, or a sent mail whose mark succeeded or failed |
| Functions.Store.SendBirthdayMessage | functions.js:121-156 | the outcome is the one the gate as selected and the two oracles decide, and the table is marked only when the mail and the UPDATE both succeed |
| FunctionsProperties.AttemptEffect | functions.js:127-155 | a call changes the table only at 09:00 exactly, on the birthday (the whole date under the rule as written), for a row whose flag is falsy, when the mail went out and the mark succeeded; every other ending leaves the table unchanged |
| FunctionsProperties.OneOpeningPerDay | functions.js:129-130 | two calls, or two ticks, whose clock readings differ on the same day never both mail the same fetched row; the timer reads the clock at a new minute each time, so a failed mark causes no second mail that day |
| FunctionsProperties.DueOnEveryBirthday | functions.js:127-132 | the corrected gate opens each year at 09:00 on the birthday for an unmarked user |
| FunctionsProperties.LeapDayBirthdayDueOnlyInLeapYears | functions.js:128 | a 29 February birthday is due only in leap years |
| FunctionsProperties.AsWrittenFiresOnlyInBirthYear | functions.js:128 | the day check as written holds only in the birth year, and only when the corrected check holds |
| FunctionsProperties.AsWrittenMissesLaterBirthdays | functions.js:124-132 | for a user born on 1990-05-17, at 09:00 on 2024-05-17, the call as written turns the user away and leaves the table unchanged, while the corrected call mails and marks |
| FunctionsProperties.AsWrittenTickMailsOnlyInBirthYear | functions.js:128 | under the rule as written, a tick mails only users whose stored birthday is today's whole date, and only users the corrected rule would mail too |
| Functions.AfterAttempt | functions.js:148-151 | the table after one call: marked when the mail and the UPDATE both succeeded, unchanged otherwise; `AttemptEffect` states its meaning |
| Functions.PassTable | functions.js:179-181 | the table after the loop has called sendBirthdayMessage on each fetched row in turn; `PassTableClosedForm` states its effect |
| Functions.PassMails | functions.js:179-181 | the fetched rows whose call mailed, in fetch order |
| Functions.PassStep | functions.js:179-181 | one more turn of the loop applies one call to the table and adds at most that user to the mail list |
| Functions.Store.SendToEach | functions.js:179-181 | the loop leaves the table that the calls made one after another leave, and mails exactly the fetched users whose call sent |
| Functions.TickTable | functions.js:176-185 | the table after a tick: the pass over the active rows, or the table unchanged when the SELECT fails; `TickRow` states its effect per row |
| Functions.TickMails | functions.js:176-185 | a tick mails exactly the active rows whose call sends, and no one when the fetch fails |
| Functions.Store.CheckAndSendBirthdayMessages | functions.js:176-185 | one tick fetches the active rows and runs the loop; a failed fetch mails no one and leaves the table unchanged |
| FunctionsProperties.PassTableClosedForm | functions.js:151-181 | the effect of a whole pass is one mark per id whose call mailed and marked |
| FunctionsProperties.PassTableAppend | functions.js:179-181 | a pass over two lists of users is the pass over the first followed by the pass over the second |
| FunctionsProperties.TickRow | functions.js:176-185 | after a tick a row is marked exactly when it is active and its call mailed and marked; every other row is unchanged |
| FunctionsProperties.TickKeepsKeysAndMarks | functions.js:162 | a tick keeps ids unique and in place and never clears a mark |
| FunctionsProperties.FailingUserIsSkipped | functions.js:153-181 | a user whose call fails does not stop the loop: the users after it are processed exactly as if it were absent |
| FunctionsProperties.FailingUserGetsNoMail | functions.js:153-181 | the mails of the pass are those before and after the failing user |
| FunctionsProperties.MarkedRowIsNotMailed | functions.js:131 | no tick mails a user whose `message_sent` is true |
| FunctionsProperties.MarkedUserIsNeverMailedAgain | functions.js:131-162 | once `message_sent` is true, no later sequence of ticks, with no edit between them, mails that user again |
| FunctionsProperties.MailedOnceThenNeverAgain | functions.js:127-152 | a tick that mails and marks a user is followed by no other mail to that user |
| FunctionsProperties.EditCanClearMark | functions.js:61-78 | an edit that sets `message_sent` to false unmarks the row, and the next tick whose call sends for it mails the user again |
| Helper.IsSameMonthAndDay | helper.js:4-9 | true exactly when both dates are valid with equal month and day, or both are invalid, since both then print as "Invalid date" |
| Helper.FormatMonthDay | helper.js:5-6 | `format('MM-DD')`: two-digit month and day, or "Invalid date"; `FormatMonthDayInjective` states its meaning |
| Helper.FormatMonthDayInjective | helper.js:5-8 | two `MM-DD` texts are equal exactly when the months and the days are |
| Helper.IsSameMonthAndDayEquivalence | helper.js:5-8 | the comparison is reflexive and symmetric |
| Helper.IsSameMonthAndDayIgnoresYear | helper.js:4-9 | changing a year never changes the result |
| Helper.IsAfter | helper.js:16-23 | the later month, or the same month and a later day, and false whenever either date is invalid; `IsAfterIsStrictOrder`, `Trichotomy` and `InvalidIsIncomparable` state its laws |
| Helper.IsSameHour | helper.js:12-14 | for hours 0..23, true exactly when the hours are equal |
| Helper.IsAfterIsStrictOrder | helper.js:20-21 | `isAfter` is irreflexive, asymmetric and transitive |
| Helper.IsAfterIgnoresYear | helper.js:16-23 | the years take no part in `isAfter` |
| Helper.Trichotomy | helper.js:4-23 | for two valid parsed dates given to both helpers, exactly one of these holds: a is after b, b is after a, or they share month and day |
| Helper.InvalidIsIncomparable | helper.js:16-23 | against an invalid date, none of the three holds |

## Left out

- Mail transport (`sendMessage` and the nodemailer calls). A send is an oracle that succeeds or fails. The subject and text are not modelled.
- MySQL connection setup and the Promise and callback plumbing. Each statement is one atomic step on the in-memory table. Its success is an `ok` flag.
- Concurrency. Neither a tick that overlaps the previous one nor a write from an HTTP request during a pass is modelled.
- moment-timezone and city-timezones. The current Asia/Jakarta reading is a parameter, and the lookup is a function from city to zone names. Only whether it is empty matters.
- A birthday is assumed to read, in Asia/Jakarta, as its stored date. This holds when the MySQL driver builds the date at midnight in a host zone between UTC-12 and UTC+7. Other host zones, and timestamps in the middle of a day, are not modelled.
- `Controller.EditCheck`: refuses an assignment to `id`. MySQL would carry one out. The model keeps `id` as the table's key.
- `Controller.EditCheck`: MySQL's coercion of the values in a request body (strings into dates, numbers into flags) is not modelled. A value is accepted exactly when it already has its column's kind.
- `Controller.EditCheck`: takes each key of the field map as an exact, plain, lower-case column name. Column names in MySQL are case-insensitive and may be quoted, so a key such as `EMAIL` updates the row in the source but is refused here. The source pastes each key unescaped into `SET ${key} = ?`, so a key carrying SQL text runs as SQL, for instance one that adds its own `WHERE` and edits every row. That is not modelled either.
- `Functions.EditCheck`: takes each key as an exact, plain, lower-case column name. Case-insensitive and quoted names, and keys carrying SQL text (the source does not escape them), are not modelled.
- `Functions.EditCheck`: refuses an assignment to `id`, which MySQL would carry out. It does not coerce values either: a value is accepted exactly when it already has its column's kind.
- MySQL's coercion of a string id from the URL is not modelled. Ids are integers.
- `status` takes only "active" and "inactive", as on the create route.
- `Helper.IsSameHour`: is stated only for hours 0..23. moment's lenient reading of other `HH` texts is not modelled.
- `Helper.IsAfter` takes already parsed dates. The `DD/MM/YYYY` parser is not modelled.
- `Helper.IsSameMonthAndDay`: takes already parsed dates. moment's default parser (ISO 8601, then RFC 2822, then the `Date` constructor) is not modelled.
- `Helper.Trichotomy`: assumes both helpers read an input as the same date. That holds for `Date` and moment inputs. It fails for text, because `isSameMonthAndDay` uses the default parser and `isAfter` reads `DD/MM/YYYY`. For example, "2024-06-05" is 5 June for the first and an invalid moment for the second, and "06/05/2024" is 5 June for one and 6 May for the other.
- One clock reading is used for a whole pass, and one NOW() stamp for every mark in it.
- `parseInt` keeps very long digit runs exact, where JavaScript rounds them. No such run rounds to an hour 0..23.
- HTTP routing, Joi validation, the `setInterval` timer and logging.

## Findings

| source | as written | input that shows it | evidently intended | confidence | as-written member | corrected member |
|---|---|---|---|---|---|---|
| controller.js:140 | `now.isSame(userTime, 'day')` compares the whole calendar date, year included | birthday 1990-05-17, HOUR_SEND "9", now 2024-05-17 09:00 Asia/Jakarta: no mail | mail on the birthday every year, comparing month and day only | high; not executed | `Controller.DueAsWritten`, shown by `ControllerProperties.AsWrittenMissesLaterBirthdays` and `ControllerProperties.AsWrittenFiresOnlyInBirthYear` | `Controller.Due`, with `ControllerProperties.DueOnEveryBirthday`; the passes run it under `MonthAndDay` |
| functions.js:128 | `now.isSame(userTime, 'day')` compares the whole calendar date, year included | birthday 1990-05-17, now 2024-05-17 09:00: no mail | mail on the birthday every year at 09:00 | high; not executed | `Functions.DueAsWritten`, shown by `FunctionsProperties.AsWrittenMissesLaterBirthdays` and `FunctionsProperties.AsWrittenFiresOnlyInBirthYear` | `Functions.Due`, with `FunctionsProperties.DueOnEveryBirthday`; the passes run it under `MonthAndDay` |
