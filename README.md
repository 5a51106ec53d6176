# hourly-tracker WhatsApp bot: a Dafny model of its message handling

This project models the decision logic of the hourly-tracker WhatsApp bot:

- how it admits inbound messages;
- how it routes their text to commands;
- how it validates command arguments;
- how it stores log rows and undoes them;
- how it schedules and fans out reminders.

The socket is an append-only outbox of `(target, text)` pairs, `Transport.Outbox`. A send to a target in the outbox's `unreachable` set fails, as a rejected `sendMessage` would. The Supabase database is a set of in-memory tables, `Store.Db`. An insert into a table named in `Db.faults` fails with that message, as a rejected request would. Every handler runs as one sequential step.

Modules:

- `JsText`: the JavaScript string and number built-ins the code relies on. These are `trim` over the ECMAScript white-space set, `split` and `join` on one character, `indexOf`, the clamping one-argument `substring`, `replace` of the first occurrence only, `startsWith`, ASCII `toLowerCase`, `parseInt` (a `0x` prefix, `NaN` as `None`) and `padStart`.
- `Transport`: the shape of a message. It gives the cleaned sender id, which is the participant (or else the room) with the first "@s.whatsapp.net" and then the first "@lid" removed. It gives the display name (`pushName || cleanUserId`) and holds the outbox.
- `Store`: `databaseController.js`. It has find-or-create of a user, one insert per log kind, and `getLastUserEntry`'s scan of the four tables in a fixed order with a strict `>`, so the earlier table wins a tie. It also has `deleteLogEntry` by table name and id.
- `Reminders`: `reminderController.js`. It covers the allow-list, the hour-to-message function and the 19-slot table (06:00 to 23:00, then 00:00). It also covers the cron expression of each slot, and the fan-out where a failed send to one group does not stop the others.
- `LogCommands`: the `/energy` (1–5), `/sleep` and `/checkin` validators. Each ends in one reply or one `handleLogs` call.
- `LogWriter`: `handleLogs`. It resolves the user, makes the one save call the log type names, and sends one acknowledgment or error reply.
- `MessageRouter`: `messageController.js`. It covers:
  - the admission checks; the bot's own messages are not skipped;
  - case-insensitive prefix routing, where at most one of the eight commands runs;
  - the `/energy` (1–10) and text-argument checks;
  - `saveUserKPI`, `/help` and undo.

`saveUserKPI` calls `saveHourlyLog`, and the database module does not export that name. The call therefore throws a `TypeError` after the user has been found or created. The model keeps this: a KPI command never stores a row, and its reply is always the error reply.

## Model

| member | source | states |
|---|---|---|
| JsText.TrimIdempotent | WAbot/controllers/messageControllers/handleCommands/handleEnergyLog.js:6 | trimming twice is trimming once |
| JsText.WordsRoundTrip | WAbot/controllers/messageControllers/handleCommands/handleEnergyLog.js:6 | words free of white space, joined by single spaces, come back word for word from `trim().split(" ")` |
| JsText.SplitJoin | WAbot/controllers/messageControllers/reminderController.js:5 | joining the fields of a split with the same separator gives back the text |
| JsText.JoinSplit | WAbot/controllers/messageControllers/reminderController.js:5 | splitting a join of fields that do not contain the separator gives back the fields |
| JsText.ParseIntDecimal | WAbot/controllers/messageControllers/handleCommands/handleEnergyLog.js:9 | `parseInt` of any integer's decimal numeral is that integer |
| JsText.ParseIntStopsAtNonDigit | WAbot/controllers/messageControllers/handleCommands/handleEnergyLog.js:9 | `parseInt` reads the leading digits and ignores the rest |
| JsText.ParseIntHexPrefix | WAbot/controllers/messageControllers/handleCommands/handleEnergyLog.js:9 | a `0x` prefix makes `parseInt` read hexadecimal, after a sign and leading blanks too |
| JsText.ParseIntNaN | WAbot/controllers/messageControllers/handleCommands/handleEnergyLog.js:9 | the empty text, letters, a bare sign and a bare `0x` give `NaN` |
| JsText.Substring | WAbot/controllers/messageControllers/messageController.js:112 | `substring(start)` clamps a negative start to 0 and a start past the end to the end |
| JsText.IndexOf | WAbot/controllers/messageControllers/handleCommands/handleHourlyCheckinLog.js:10 | -1 exactly when the pattern does not occur, else its first occurrence |
| JsText.RemoveFirst | WAbot/controllers/messageControllers/messageController.js:235-237 | `replace(p, "")` leaves a text without `p` alone; otherwise the result is exactly one `p` shorter |
| JsText.ToLowerIdempotent | WAbot/controllers/messageControllers/messageController.js:78 | lower-casing twice is lower-casing once |
| Transport.SenderIdOfPhone | WAbot/controllers/messageControllers/messageController.js:234-237 | an id "phone@s.whatsapp.net" or "phone@lid" cleans to the bare phone number |
| Transport.SenderIdRemovesFirstOnly | WAbot/controllers/messageControllers/messageController.js:192-195 | only the first occurrence of a suffix is removed: "phone@lid@lid" cleans to "phone@lid" |
| Transport.Outbox.Send | WAbot/controllers/messageControllers/handleCommands/handleLogs.js:73-75 | a send succeeds exactly when the target is reachable, and then appends `(target, text)` to the outbox; a failed send appends nothing |
| Store.TableNamed | WAbot/controllers/databaseController.js:166-171 | the table a name denotes; `None` exactly when no table has that name |
| Store.TableNameRoundTrip | WAbot/controllers/databaseController.js:166-171 | every table is found by its own name |
| Store.FindUser | WAbot/controllers/databaseController.js:26-30 | the user found carries the phone number; `None` exactly when no user does |
| Store.FindUserUnique | WAbot/controllers/databaseController.js:26-35 | with unique phone numbers the lookup returns the one user with that number |
| Store.FindUserAppended | WAbot/controllers/databaseController.js:38-51 | after a new user is inserted, the lookup by its number finds it |
| Store.LatestRow | WAbot/controllers/databaseController.js:177-183 | a row of the user with the greatest `logged_at` in the table; `None` exactly when the user has no row there |
| Store.RowIndex | WAbot/controllers/databaseController.js:204-207 | the position of the row with that id; -1 exactly when there is none |
| Store.RemoveKeepsValid | WAbot/controllers/databaseController.js:202-214 | removing one row keeps ids unique and rows in their table |
| Store.SameIdSameRow | WAbot/controllers/databaseController.js:207 | in a valid table an id picks out one row |
| Store.Db.CreateOrGetUser | WAbot/controllers/databaseController.js:23-57 | an existing user is returned with nothing inserted; otherwise one user named `displayName`, or the phone number when that is empty, is appended, unless the insert fails; log tables are unchanged; afterwards the lookup finds the user returned |
| Store.Db.Insert | WAbot/controllers/databaseController.js:60-151 | one row with the user id and the kind's columns is appended to its own table and every other table is unchanged, or, on failure, nothing changes |
| Store.Db.SaveSleepLog | WAbot/controllers/databaseController.js:60-83 | appends exactly one sleep row with the times, scores and today's date; other tables unchanged |
| Store.Db.SaveEnergyLog | WAbot/controllers/databaseController.js:86-105 | appends exactly one energy row with the level; other tables unchanged |
| Store.Db.SaveHourlyLog | WAbot/controllers/databaseController.js:108-128 | appends exactly one hourly row with the rating and activity; other tables unchanged |
| Store.Db.SaveThoughtLog | WAbot/controllers/databaseController.js:131-151 | appends exactly one thought row with the content and type; other tables unchanged |
| Store.Db.ScanStep | WAbot/controllers/databaseController.js:185-191 | one iteration of the scan keeps "best of the tables seen so far, earlier table on ties" |
| Store.Db.ScanDone | WAbot/controllers/databaseController.js:176-194 | after the four tables the kept entry is the most recent one, or none when the user has no row |
| Store.Db.MostRecentUnique | WAbot/controllers/databaseController.js:185-190 | at most one entry is the most recent: ties in time go to the table scanned first |
| Store.Db.GetLastUserEntry | WAbot/controllers/databaseController.js:154-199 | `None` for an unknown user or a user with no rows; otherwise the user's most recent row tagged with its own table, where an earlier table wins a tie |
| Store.Db.DeleteLogEntry | WAbot/controllers/databaseController.js:202-219 | a name other than the four log tables or a missing id is an error and changes nothing; otherwise exactly the row with that id is removed from the named table and returned, and every other row stays |
| LogWriter.RowData | WAbot/controllers/messageControllers/handleCommands/handleLogs.js:25-71 | every known log type has a row to store; only an unknown type has none |
| LogWriter.ThoughtEmoji | WAbot/controllers/messageControllers/handleCommands/handleLogs.js:57-62 | 💭 exactly for "thought", 😊 exactly for "feeling", 💡 for everything else |
| LogWriter.SuccessText | WAbot/controllers/messageControllers/handleCommands/handleLogs.js:28-66 | every acknowledgment starts with "✅ " |
| LogWriter.SuccessTextQuotes | WAbot/controllers/messageControllers/handleCommands/handleLogs.js:28-66 | the acknowledgment quotes "Level: N/5"; "bedtime → waketime" and "Quality: q/5, Tiredness: t/5"; "Rating: r/5" and the activity; or the capitalised type, its emoji and the content |
| LogWriter.ErrorReply | WAbot/controllers/messageControllers/handleCommands/handleLogs.js:78-80 | "❌ Error saving <type> log: " followed by the error's message |
| LogWriter.SuccessIsNotError | WAbot/controllers/messageControllers/handleCommands/handleLogs.js:73-80 | a success reply is never an error reply |
| LogWriter.SaveRequest | WAbot/controllers/messageControllers/handleCommands/handleLogs.js:25-71 | each known log type appends exactly one row, with the request's fields, to its own table, or fails with nothing changed; an unknown type is the "Unknown log type" error with nothing changed |
| LogWriter.AcknowledgedIffStored | WAbot/controllers/messageControllers/handleCommands/handleLogs.js:25-81 | after the switch the reply is an acknowledgment exactly when a row was stored and the next id moved on by one; when none was stored, no table changed |
| LogWriter.SaveAndAcknowledge | WAbot/controllers/messageControllers/handleCommands/handleLogs.js:25-81 | the switch for one user leaves the tables, next id and reply of `AfterSwitch`: the request's row in its own table and the acknowledgment signed with the name, or the error reply with nothing stored; users are unchanged |
| LogWriter.RecordLog | WAbot/controllers/messageControllers/handleCommands/handleLogs.js:10-80 | the sender is found or created first; a known sender's request goes through the switch; a new sender is stored with the next id and their display name, then the switch runs for them; when the users insert fails the reply quotes its error and nothing changes (`AfterHandleLogs`) |
| LogWriter.HandleLogs | WAbot/controllers/messageControllers/handleCommands/handleLogs.js:10-82 | the database ends as `RecordLog` says, and exactly one reply, the one `AfterHandleLogs` gives, is sent to the room |
| Reminders.GetAllowedGroups | WAbot/controllers/messageControllers/reminderController.js:4-6 | [] when the variable is unset; at least one entry whenever it is set, even to "" |
| Reminders.AllowedGroupsShape | WAbot/controllers/messageControllers/reminderController.js:4-6 | no entry of the allow-list has surrounding white space or contains a comma |
| Reminders.AllowedGroupsRoundTrip | WAbot/controllers/messageControllers/reminderController.js:4-6 | ids written out comma-separated are read back exactly |
| Reminders.AllowedGroupsOfEmptyVariable | WAbot/controllers/messageControllers/reminderController.js:5 | a set but empty variable is one empty id, not an empty list |
| Reminders.HourlyMessage | WAbot/controllers/messageControllers/reminderController.js:9-21 | every hour's message is one of the three prompts |
| Reminders.HourlyMessageHours | WAbot/controllers/messageControllers/reminderController.js:9-21 | the sleep prompt exactly at 6, the energy prompt exactly at 11, the generic prompt at every other hour |
| Reminders.HourLabelShape | WAbot/controllers/messageControllers/reminderController.js:30 | an hour's label is its two zero-padded digits then ":00", and it parses back to the hour |
| Reminders.GenerateHourlyReminders | WAbot/controllers/messageControllers/reminderController.js:24-42 | 19 slots: hours 06 to 23 in order, each with its hour's message, then "00:00" with hour 0's message |
| Reminders.CronOfTime | WAbot/controllers/messageControllers/reminderController.js:64-65 | "HH:MM" becomes "MM HH * * *" |
| Reminders.CronOfSlot | WAbot/controllers/messageControllers/reminderController.js:64-65 | every slot fires at minute 00 of its hour |
| Reminders.StartScheduledReminders | WAbot/controllers/messageControllers/reminderController.js:47-87 | no job when the allow-list is empty; otherwise one job per slot, in order, with that slot's cron, time, message and the list |
| Reminders.DeliveriesReachEveryGroup | WAbot/controllers/messageControllers/reminderController.js:71-78 | every reachable group gets the text whichever others fail, and nothing else is delivered |
| Reminders.DeliveriesInOrder | WAbot/controllers/messageControllers/reminderController.js:71-78 | deliveries follow the order of the list |
| Reminders.FanOut | WAbot/controllers/messageControllers/reminderController.js:71-78 | the outbox grows by exactly the deliveries to the list's reachable groups, in order |
| Reminders.FireJob | WAbot/controllers/messageControllers/reminderController.js:67-79 | a firing sends the slot's message to every group of the job |
| Reminders.SendTestReminder | WAbot/controllers/messageControllers/reminderController.js:90-103 | the test text goes to every allowed group, in order; nothing when the list is empty |
| LogCommands.EnergyOfWord | WAbot/controllers/messageControllers/handleCommands/handleEnergyLog.js:8-20 | "/energy w" logs exactly when `parseInt(w)` is in 1..5, and logs that level; `NaN` or out of range gets the range reply |
| LogCommands.EnergyOfNumber | WAbot/controllers/messageControllers/handleCommands/handleEnergyLog.js:9-15 | "/energy n" logs `n` exactly when 1 <= n <= 5 |
| LogCommands.EnergyWordCount | WAbot/controllers/messageControllers/handleCommands/handleEnergyLog.js:21-25 | any word count other than two gets the format reply |
| LogCommands.EnergyDoubleSpace | WAbot/controllers/messageControllers/handleCommands/handleEnergyLog.js:6-8 | a doubled space makes an empty token, so the format reply goes out |
| LogCommands.MatchesTimeIff | WAbot/controllers/messageControllers/handleCommands/handleSleepLog.js:15 | the time pattern accepts exactly the texts that spell a time of day, with a 1- or 2-digit hour and a 2-digit minute |
| LogCommands.TimeExamples | WAbot/controllers/messageControllers/handleCommands/handleSleepLog.js:15 | "7:05", "23:59" and "07:00" pass; "24:00", "7:60" and "123:00" fail |
| LogCommands.SlotTimesMatch | WAbot/controllers/messageControllers/handleCommands/handleSleepLog.js:15 | every reminder slot's time is a time the sleep command accepts |
| LogCommands.SleepOfWords | WAbot/controllers/messageControllers/handleCommands/handleSleepLog.js:8-43 | five single-spaced words: bedtime is checked first, then wake time, then both scores together; on success the raw times and parsed scores are logged |
| LogCommands.SleepWordCount | WAbot/controllers/messageControllers/handleCommands/handleSleepLog.js:44-48 | any word count other than five gets the format reply |
| LogCommands.SleepExample | WAbot/controllers/messageControllers/handleCommands/handleSleepLog.js:19 | the example in the usage replies, "/sleep 23:00 07:00 4 2", is logged as it reads |
| LogCommands.CheckinNoteAsWrittenFindsEarlierOccurrence | WAbot/controllers/messageControllers/handleCommands/handleHourlyCheckinLog.js:10 | as written, "/checkin 2 c" gets the note "checkin 2 c", because the "c" inside the command is found first |
| LogCommands.CheckinNoteAsWrittenWithoutNote | WAbot/controllers/messageControllers/handleCommands/handleHourlyCheckinLog.js:10 | as written, "/checkin 3" gets the note "/checkin 3", because the search is for "undefined" and the start clamps to 0 |
| LogCommands.CheckinNoteAsWrittenTwoTokens | WAbot/controllers/messageControllers/handleCommands/handleHourlyCheckinLog.js:10 | as written, with two tokens the note is the whole trimmed text unless it contains "undefined" |
| LogCommands.CheckinTokens | WAbot/controllers/messageControllers/handleCommands/handleHourlyCheckinLog.js:6 | "c r note" splits into `c`, `r` and a third token exactly when there is a note |
| LogCommands.CheckinNoteOfCommand | WAbot/controllers/messageControllers/handleCommands/handleHourlyCheckinLog.js:10 | the corrected note of "c r note" is exactly `note` |
| LogCommands.FirstWordFound | WAbot/controllers/messageControllers/handleCommands/handleHourlyCheckinLog.js:10 | in "prefix note", the first occurrence of the note's first word starts within the prefix or at the note, and the text from there on is already trimmed |
| LogCommands.CheckinNoteAsWrittenEndsWithNote | WAbot/controllers/messageControllers/handleCommands/handleHourlyCheckinLog.js:10 | as written, the note of "c r note" is the text from the first occurrence of the note's first word; it always ends with `note`, and it is exactly `note` when that occurrence is the note's own |
| LogCommands.CheckinOfCommand | WAbot/controllers/messageControllers/handleCommands/handleHourlyCheckinLog.js:4-22 | as written: "c r note" logs the rating exactly when `parseInt(r)` is in 1..3, with the note `CheckinNoteAsWritten` gives (the text from the first occurrence of the note's first word, or of "undefined"), else the range reply |
| LogCommands.CheckinOfCommandIntended | WAbot/controllers/messageControllers/handleCommands/handleHourlyCheckinLog.js:4-22 | with the corrected note: "c r note" logs the rating with exactly `note` when `parseInt(r)` is in 1..3, else the range reply |
| LogCommands.CheckinWithoutRating | WAbot/controllers/messageControllers/handleCommands/handleHourlyCheckinLog.js:23-27 | a lone command gets the format reply |
| MessageRouter.AdmittedIff | WAbot/controllers/messageControllers/messageController.js:38-67 | a message is handled exactly when it has content and its room is a trimmed entry of the allow-list |
| MessageRouter.AdmittedIgnoresSender | WAbot/controllers/messageControllers/messageController.js:24-35 | the bot's own messages pass the same checks as everyone else's: `fromMe` makes no difference |
| MessageRouter.AdmittedMessagesIff | WAbot/controllers/messageControllers/messageController.js:20-73 | the handled messages of a batch are exactly those that pass the checks |
| MessageRouter.PrefixesExclusive | WAbot/controllers/messageControllers/messageController.js:78-188 | no text starts with two command prefixes |
| MessageRouter.RouteIff | WAbot/controllers/messageControllers/messageController.js:78-188 | a command runs exactly when the lower-cased text starts with its prefix, so at most one runs |
| MessageRouter.EnergyStepOfWord | WAbot/controllers/messageControllers/messageController.js:90-101 | "/energy w" saves exactly when `parseInt(w)` is in 1..10, and saves that level; otherwise the range reply |
| MessageRouter.EnergyStepWordCount | WAbot/controllers/messageControllers/messageController.js:102-106 | any word count other than two gets the format reply |
| MessageRouter.TextStepOfCommand | WAbot/controllers/messageControllers/messageController.js:112-163 | each text command's offset skips its prefix, in any case, and exactly one more character; the argument is the rest trimmed, and an empty one gets the usage reply |
| MessageRouter.KpiErrorReply | WAbot/controllers/messageControllers/messageController.js:260-262 | the save error reply ends with the error's message |
| MessageRouter.UndoneReply | WAbot/controllers/messageControllers/messageController.js:210-212 | the undo confirmation is signed with the display name |
| MessageRouter.NothingToUndoReply | WAbot/controllers/messageControllers/messageController.js:215-217 | the "No recent entries" reply names the user |
| MessageRouter.UndoErrorReply | WAbot/controllers/messageControllers/messageController.js:224-226 | the undo error reply ends with the error's message |
| MessageRouter.UndoReply | WAbot/controllers/messageControllers/messageController.js:202-226 | the confirmation exactly when the delete succeeded, otherwise the error reply |
| MessageRouter.KpiFailure | WAbot/controllers/messageControllers/messageController.js:245-246 | for a known sender, or when user inserts work, the error is always the missing `saveHourlyLog` |
| Transport.Deliver | WAbot/controllers/messageControllers/handleCommands/handleLogs.js:73-75 | a send delivers at most one message, exactly `(target, text)`, and nothing exactly when the target is unreachable |
| MessageRouter.KpiSaveFindsSender | WAbot/controllers/messageControllers/messageController.js:232-264 | after a KPI save the lookup finds the sender unless the users insert failed; log tables are unchanged, and users and the outbox only grow |
| MessageRouter.SaveUserKPI | WAbot/controllers/messageControllers/messageController.js:232-264 | users, logs, next id and outbox end as `AfterKpiSave` says: the sender is found or created as `createOrGetUser` does; no log row is stored; exactly one reply, the error reply with `KpiFailure`'s message, is sent |
| MessageRouter.RunStep | WAbot/controllers/messageControllers/messageController.js:92-163 | the state ends as `AfterStep` says: a usage reply changes nothing but the outbox; a save is `SaveUserKPI` |
| MessageRouter.DeleteWithoutTableName | WAbot/controllers/messageControllers/messageController.js:203 | the delete with no table name always fails as a missing "undefined" table and changes nothing |
| MessageRouter.UndoAsWrittenReply | WAbot/controllers/messageControllers/messageController.js:196-226 | the undo reply as written always starts with "❌ ": never the confirmation |
| MessageRouter.UndoAttempt | WAbot/controllers/messageControllers/messageController.js:191-226 | as written: no table ever changes; the reply is `UndoAsWrittenReply`: with an entry to undo the "undefined" table error, otherwise "No recent entries" naming the sender |
| MessageRouter.Undo | WAbot/controllers/messageControllers/messageController.js:188-228 | as written: the state ends as `AfterUndo` says, so nothing in the database changes and exactly the `UndoAsWrittenReply` is sent to the room |
| MessageRouter.UndoIntended | WAbot/controllers/messageControllers/messageController.js:188-228 | an entry is removed only when the sender has one: then exactly the most recent entry goes, from its own table, and the confirmation is sent; otherwise "No recent entries" and no change |
| MessageRouter.CommandKeepsLogs | WAbot/controllers/messageControllers/messageController.js:77-229 | as written, no command changes a log table; users, the next id and the outbox only grow |
| MessageRouter.HandleCommands | WAbot/controllers/messageControllers/messageController.js:77-229 | as written: the state ends as `AfterCommand` says for the command `Route` names, and only it: nothing; the test reminder to every allowed group; the KPI step; the help text; or undo as written |
| MessageRouter.HandleCommandsIntended | WAbot/controllers/messageControllers/messageController.js:77-229 | with the corrected undo: `/undo` removes the sender's most recent entry as `UndoIntended` says; every other command as `HandleCommands` |
| MessageRouter.HandleMessage | WAbot/controllers/messageControllers/messageController.js:20-73 | the message is admitted exactly when it passes the checks; the state ends as `AfterMessage` says: unchanged for a message that fails them, else its text handled as a command from its room |
| MessageRouter.AfterMessagesOfAdmitted | WAbot/controllers/messageControllers/messageController.js:13-74 | a batch leaves the same state as its admitted messages alone |
| MessageRouter.AfterMessagesKeepsLogs | WAbot/controllers/messageControllers/messageController.js:13-74 | as written, no batch changes a log table; users, the next id and the outbox only grow |
| MessageRouter.HandleIncomingMessages | WAbot/controllers/messageControllers/messageController.js:13-74 | the handled messages are exactly the batch's admitted ones, in order; users, logs, next id and outbox end as the fold `AfterMessages` of one message after another gives |

## Left out

- The WhatsApp socket is left out. A send is an outbox append that fails for the targets in a fixed `unreachable` set; connection handling is not modelled.
- The Supabase client, `createClient` and `testConnection` are left out; the database is in-memory tables. Ids come from one counter, and `logged_at` is the `now` the caller passes.
- The wording of remote errors is not modelled. An insert failure carries the message in `Db.faults`. A missing table is reported in PostgREST's "relation does not exist" form.
- Network failures of the user lookup, the log-table reads and the delete are not modelled. Only inserts fail.
- `node-cron` timing is left out. Only the cron expression, the job list and what one firing sends are modelled.
- `dotenv` and `process.env` are left out; the allow-list variable is a parameter, `None` when unset.
- `Date` is left out. `sleep_date` (`toISOString`) is the `today` parameter. `toLocaleString` is the `formatTime` parameter. Times are integers.
- `messages.forEach(async ...)` runs its callbacks concurrently, and `createOrGetUser` can race on the same sender. The model runs each message to completion in order.
- Console logging is left out.
- JsText.ToLower: `toLowerCase` folds only ASCII letters. No command prefix has other letters, but a text with a non-ASCII capital at its start is not covered.
- JsText.Capitalize: `toUpperCase`, used for the first letter of the thought type at WAbot/controllers/messageControllers/handleCommands/handleLogs.js:64, changes only ASCII letters; "é" is left as it is, where JavaScript would give "É".
- Strings are sequences of characters, not of UTF-16 code units: `length`, `indexOf` and `substring` count characters, so they differ from JavaScript on any text with a character outside the Basic Multilingual Plane, such as an emoji.
- MessageRouter.TextStepOfCommand: the offsets count characters, not UTF-16 code units. For "/mood😊" the model takes an empty argument and sends the usage reply, while JavaScript's `substring(6)` keeps half of the emoji's surrogate pair and the source goes on to `saveUserKPI`.
- Falsy JavaScript values (`undefined`, `null`, "") of `participant`, `pushName` and the message texts are all "".
- A message the bot sent itself that has no content makes the logging branch throw before the content check. The model skips it without a reply, which has the same effect.
- LogWriter.HandleLogs: a "thought" request always carries a `thoughtType`. The `TypeError` that an absent type would raise after the row is stored is not modelled.
- The `/energy`, `/sleep` and `/checkin` validators and `handleLogs` are not called from `handleCommands`. They are modelled standalone. `/checkin` runs with the note as written (`HandleHourlyCheckinLog`); `HandleHourlyCheckinLogIntended` is the same validator with the corrected note.
- LogWriter.HandleLogs: a send that fails is modelled by a fixed `unreachable` set, so a failure is the same for every send to that room. A success reply whose send fails once, so that the catch block then sends the error reply, is not modelled.
- MessageRouter.Undo: as for `HandleLogs`, a reply whose send fails once, followed by the catch block's error reply, is not modelled.
- MessageRouter.UndoIntended: as for `HandleLogs`, a confirmation whose send fails once, followed by the catch block's error reply, is not modelled.
- The router's `/energy` accepts 1–10 and the validator's accepts 1–5. Both are kept as written.
- Store.Db.DeleteLogEntry: only the four log tables and names of no table are modelled. A delete sent to the `users` table, which exists, is answered as a missing table here and removes nothing; no caller in the bot names `users`.
- `getLastUserEntry` is modelled as returning, within one table, the earliest stored row among rows tied on `logged_at`. The store's own order among such ties is not modelled.
- MessageRouter.HandleCommands: the source makes eight independent prefix tests. The model dispatches on `Route`, which `RouteIff` shows picks the only test that can pass.

## Findings

| source | as written | input that shows it | evidently intended | confidence | as-written member | corrected member |
|---|---|---|---|---|---|---|
| WAbot/controllers/messageControllers/messageController.js:203 | `deleteLogEntry(lastEntry.id)` passes no table name, so the delete goes to a table "undefined" that does not exist, and undo never removes anything | a sender with one logged entry sends "/undo": the reply is the undo error and the entry stays (`Undo`'s contract) | pass the entry's `table_name` (set at WAbot/controllers/databaseController.js:189), so the most recent entry is removed | not executed | MessageRouter.Undo | MessageRouter.UndoIntended |
| WAbot/controllers/messageControllers/handleCommands/handleHourlyCheckinLog.js:10 | the note starts at the first occurrence of the third token anywhere in the text, or of "undefined" when there is none | "/checkin 2 c" gives the note "checkin 2 c", and "/checkin 3" gives "/checkin 3" (`CheckinNoteAsWrittenFindsEarlierOccurrence`, `CheckinNoteAsWrittenWithoutNote`) | the note is the text after the command and the rating, trimmed, and "" when there is none (`CheckinNoteOfCommand`) | not executed | LogCommands.CheckinNoteAsWritten | LogCommands.CheckinNote |
