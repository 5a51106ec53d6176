/**
 * The inbound side of the bot (`controllers/messageControllers/messageController.js`): the
 * admission filter every inbound message goes through, the routing of its text to the eight
 * built-in commands, their argument checks and replies, the KPI save helper, and undo.
 */
module MessageRouter {
  import opened Wrappers
  import opened JsText
  import opened Transport
  import opened Store
  import Reminders

  // ---------------------------------------------------------------- admission

  /** `message.message.conversation || message.message.extendedTextMessage?.text || ""`. */
  function TextOf(c: Content): string {
    if c.conversation != "" then c.conversation else c.extendedText
  }

  /** The checks a message passes before its text is handled: it has content, the allow-list
      is not empty, and the room it came from is on the list. */
  predicate Admitted(m: Message, env: Option<string>) {
    var allowedGroups := Reminders.GetAllowedGroups(env);
    m.content.Some? && |allowedGroups| != 0 && m.key.remoteJid in allowedGroups
  }

  /** A message is handled exactly when it has content and its room equals, after trimming,
      one of the comma-separated entries of the allow-list variable. */
  lemma AdmittedIff(m: Message, env: Option<string>)
    ensures Admitted(m, env) <==>
              && m.content.Some? && env.Some?
              && exists i :: 0 <= i < |Split(env.value, ',')| && Trim(Split(env.value, ',')[i]) == m.key.remoteJid
  {
    var groups := Reminders.GetAllowedGroups(env);
    if env.Some? {
      var fields := Split(env.value, ',');
      assert |groups| == |fields| >= 1;
      if m.key.remoteJid in groups {
        var i :| 0 <= i < |groups| && groups[i] == m.key.remoteJid;
        assert 0 <= i < |fields| && Trim(fields[i]) == m.key.remoteJid;
        assert exists j :: 0 <= j < |Split(env.value, ',')| && Trim(Split(env.value, ',')[j]) == m.key.remoteJid;
      }
      if exists i :: 0 <= i < |fields| && Trim(fields[i]) == m.key.remoteJid {
        var i :| 0 <= i < |fields| && Trim(fields[i]) == m.key.remoteJid;
        assert groups[i] == m.key.remoteJid;
      }
    }
  }

  /** The bot's own messages are not skipped: who sent a message makes no difference. */
  lemma AdmittedIgnoresSender(m: Message, env: Option<string>, fromMe: bool)
    ensures Admitted(m.(key := m.key.(fromMe := fromMe)), env) == Admitted(m, env)
  {
    var other := m.(key := m.key.(fromMe := fromMe));
    assert other.content == m.content && other.key.remoteJid == m.key.remoteJid;
  }

  /** The messages of a batch that get past the checks, in batch order. */
  function AdmittedMessages(messages: seq<Message>, env: Option<string>): seq<Message> {
    if messages == [] then []
    else
      var last := messages[|messages| - 1];
      AdmittedMessages(messages[..|messages| - 1], env) + (if Admitted(last, env) then [last] else [])
  }

  /** The admitted messages are exactly the batch's messages that pass the checks. */
  lemma {:induction false} AdmittedMessagesIff(messages: seq<Message>, env: Option<string>)
    ensures forall m :: m in AdmittedMessages(messages, env) <==> m in messages && Admitted(m, env)
  {
    if messages != [] {
      var init := messages[..|messages| - 1];
      AdmittedMessagesIff(init, env);
      assert messages == init + [messages[|messages| - 1]];
    }
  }

  // ---------------------------------------------------------------- routing

  const TestReminderPrefix: string := "test reminder"
  const EnergyPrefix: string := "/energy"
  const MoodPrefix: string := "/mood"
  const ActivityPrefix: string := "/activity"
  const FoodPrefix: string := "/food"
  const NotePrefix: string := "/note"
  const HelpPrefix: string := "/help"
  const UndoPrefix: string := "/undo"

  /** The eight commands `handleCommands` recognises. */
  datatype Command =
    | TestReminderCommand | EnergyCommand | MoodCommand | ActivityCommand
    | FoodCommand | NoteCommand | HelpCommand | UndoCommand
  {
    /** The prefix the lower-cased text is tested against. */
    function Prefix(): string {
      match this
      case TestReminderCommand => TestReminderPrefix
      case EnergyCommand => EnergyPrefix
      case MoodCommand => MoodPrefix
      case ActivityCommand => ActivityPrefix
      case FoodCommand => FoodPrefix
      case NoteCommand => NotePrefix
      case HelpCommand => HelpPrefix
      case UndoCommand => UndoPrefix
    }

    /** The commands that end in a KPI save or a usage reply. */
    predicate IsKpi() {
      EnergyCommand? || MoodCommand? || ActivityCommand? || FoodCommand? || NoteCommand?
    }

    /** The commands whose argument is the rest of the text. */
    predicate TakesText() {
      MoodCommand? || ActivityCommand? || FoodCommand? || NoteCommand?
    }
  }

  /** No text starts with two different command prefixes: they differ in their first two
      characters. */
  lemma PrefixesExclusive(s: string, c: Command, d: Command)
    requires c != d && StartsWith(s, c.Prefix())
    ensures !StartsWith(s, d.Prefix())
  {
    var p, q := c.Prefix(), d.Prefix();
    assert s[0] == s[..|p|][0] == p[0] && s[1] == s[..|p|][1] == p[1];
    assert p[0] != q[0] || p[1] != q[1];
  }

  /** The command whose prefix the lower-cased text starts with, if any. */
  function Route(messageText: string): Option<Command> {
    var text := ToLower(messageText);
    if StartsWith(text, TestReminderCommand.Prefix()) then Some(TestReminderCommand)
    else if StartsWith(text, EnergyCommand.Prefix()) then Some(EnergyCommand)
    else if StartsWith(text, MoodCommand.Prefix()) then Some(MoodCommand)
    else if StartsWith(text, ActivityCommand.Prefix()) then Some(ActivityCommand)
    else if StartsWith(text, FoodCommand.Prefix()) then Some(FoodCommand)
    else if StartsWith(text, NoteCommand.Prefix()) then Some(NoteCommand)
    else if StartsWith(text, HelpCommand.Prefix()) then Some(HelpCommand)
    else if StartsWith(text, UndoCommand.Prefix()) then Some(UndoCommand)
    else None
  }

  /** A command runs exactly when the lower-cased text starts with its prefix, so the
      independent tests of `handleCommands` run at most one command. */
  lemma RouteIff(messageText: string, c: Command)
    ensures StartsWith(ToLower(messageText), c.Prefix()) <==> Route(messageText) == Some(c)
  {
    var text := ToLower(messageText);
    if Route(messageText).Some? {
      var d := Route(messageText).value;
      if c != d {
        PrefixesExclusive(text, d, c);
      }
    }
  }

  // ---------------------------------------------------------------- argument checks

  /** What a KPI command ends in: a usage reply, or a `saveUserKPI` call with these values. */
  datatype Step = Usage(text: string) | Save(kpiType: string, value: string)

  const EnergyRangeReply: string := "❌ Energy level must be 1-10\nExample: /energy 7"
  const EnergyFormatReply: string := "❌ Invalid format!\nUse: /energy [1-10]\nExample: /energy 7"

  /** The `/energy` branch: exactly two tokens, the second an integer from 1 to 10. */
  function EnergyStep(messageText: string): Step {
    var parts := Tokens(messageText);
    if |parts| == 2 then
      var energyLevel := ParseInt(parts[1]);
      if InRange(energyLevel, 1, 10) then Save("energy", IntToDecimal(energyLevel.value))
      else Usage(EnergyRangeReply)
    else Usage(EnergyFormatReply)
  }

  /** "/energy w" saves exactly when `w` reads as a number from 1 to 10, and saves that number. */
  lemma EnergyStepOfWord(command: string, w: string)
    requires IsWord(command) && IsWord(w)
    ensures EnergyStep(command + " " + w)
            == if InRange(ParseInt(w), 1, 10) then Save("energy", IntToDecimal(ParseInt(w).value))
               else Usage(EnergyRangeReply)
  {
    WordsRoundTrip([command, w]);
    assert Join([command, w], ' ') == command + " " + w;
  }

  /** Any other number of words gets the format reply. */
  lemma EnergyStepWordCount(words: seq<string>)
    requires |words| >= 1 && |words| != 2
    requires forall i :: 0 <= i < |words| ==> IsWord(words[i])
    ensures EnergyStep(Join(words, ' ')) == Usage(EnergyFormatReply)
  {
    WordsRoundTrip(words);
  }

  /** The text commands: the argument is the text from `offset` on, trimmed; an empty one gets
      the usage reply. */
  function TextStep(kpiType: string, offset: nat, usage: string, messageText: string): Step {
    var value := Trim(Substring(messageText, offset));
    if value != "" then Save(kpiType, value) else Usage(usage)
  }

  const MoodUsage: string := "❌ Please specify your mood\nExample: /mood happy"
  const ActivityUsage: string := "❌ Please specify your activity\nExample: /activity coding"
  const FoodUsage: string := "❌ Please specify what you ate\nExample: /food salad"
  const NoteUsage: string := "❌ Please add your note\nExample: /note feeling productive today"

  /** The check a KPI command makes of the original (not lower-cased) text. */
  function KpiStep(c: Command, messageText: string): Step
    requires c.IsKpi()
  {
    match c
    case EnergyCommand => EnergyStep(messageText)
    case MoodCommand => TextStep("mood", 6, MoodUsage, messageText)
    case ActivityCommand => TextStep("activity", 10, ActivityUsage, messageText)
    case FoodCommand => TextStep("food", 6, FoodUsage, messageText)
    case NoteCommand => TextStep("note", 6, NoteUsage, messageText)
  }

  /** The KPI type a command saves under. */
  function KpiType(c: Command): string
    requires c.IsKpi()
  {
    match c
    case EnergyCommand => "energy"
    case MoodCommand => "mood"
    case ActivityCommand => "activity"
    case FoodCommand => "food"
    case NoteCommand => "note"
  }

  /**
   * Each text command's offset skips its prefix, in whatever case it was typed, and exactly
   * one more character: the argument is what follows that character, trimmed. The character
   * need not be a space, so "/moodhappy" saves "appy".
   */
  lemma TextStepOfCommand(c: Command, prefix: string, separator: char, argument: string)
    requires c.TakesText() && |prefix| == |c.Prefix()|
    ensures KpiStep(c, prefix + [separator] + argument)
            == if Trim(argument) != "" then Save(KpiType(c), Trim(argument)) else Usage(KpiStep(c, "").text)
  {
    var s := prefix + [separator] + argument;
    assert s[|prefix| + 1..] == argument;
    assert Trim("") == "" by { assert AllSpace(""); }
  }

  // ---------------------------------------------------------------- replies

  const HelpText: string :=
    "🕐 *HourlyTracker Bot Commands*\n\n📊 *Tracking Commands:*\n- `/energy [1-10]` - Log energy level\n"
    + "- `/mood [text]` - Log your mood\n- `/activity [text]` - Log what you're doing\n"
    + "- `/food [text]` - Log what you ate\n- `/note [text]` - Add thoughts/ideas\n\n"
    + "⚙️ *Utility Commands:*\n- `/help` - Show this menu\n- `/undo` - Delete your last entry\n\n"
    + "Track every hour! 📈"

  /** The message of the `TypeError` that calling the missing `saveHourlyLog` import throws. */
  const SaveHourlyLogMissing: string := "saveHourlyLog is not a function"

  const KpiFailed: string := "❌ " + "Sorry, there was an error saving your log. Please try again later.\n\nError: "
  const Undone: string := "✅ " + "Undone last entry.\n\n📊 undefined: undefined\n📅 Logged: "
  const NoEntries: string := "❌ " + "No recent entries found to undo."
  const LogSomeFirst: string := "\nMake sure you have logged some data first using tracking commands."
  const UndoFailed: string := "❌ " + "Sorry, there was an error with undo. Please try again later.\n\nError: "

  /** The reply of a failed KPI save. */
  function KpiErrorReply(message: string): (r: string)
    ensures StartsWith(r, "❌ ") && EndsWith(r, message)
  {
    KpiFailed + message
  }

  /** The reply after an entry was removed. The entry has no `kpi_type` or `value` column, so
      both print as "undefined". */
  function UndoneReply(loggedTime: string, name: string): (r: string)
    ensures StartsWith(r, "✅ ") && EndsWith(r, "\n👤 User: " + name)
  {
    Undone + loggedTime + ("\n👤 User: " + name)
  }

  function NothingToUndoReply(name: string): (r: string)
    ensures StartsWith(r, "❌ ")
    ensures Contains(r, "\n👤 User: " + name + "\n")
  {
    var user := "\n👤 User: " + name + "\n";
    ContainsMiddle(NoEntries, user, LogSomeFirst);
    NoEntries + user + LogSomeFirst
  }

  function UndoErrorReply(message: string): (r: string)
    ensures StartsWith(r, "❌ ") && EndsWith(r, message)
  {
    UndoFailed + message
  }

  /** The reply once the delete of `entry` has answered `deleted`. */
  function UndoReply(deleted: Result<LogRow>, entry: Entry, formatTime: int -> string, name: string): (r: string)
    ensures deleted.Ok? <==> StartsWith(r, "✅ ")
  {
    match deleted
    case Ok(_) => UndoneReply(formatTime(entry.row.loggedAt), name)
    case Err(e) => UndoErrorReply(ErrorMessage(e))
  }

  // ---------------------------------------------------------------- what a handler changes

  /** What the handlers of a message can change: the users table, the log tables, the next
      id, and what the socket has delivered. */
  datatype World = World(users: seq<User>, logs: Tables, nextId: nat, sent: seq<Outgoing>)

  function WorldOf(db: Db, outbox: Outbox): World
    reads db, outbox
  {
    World(db.users, db.Logs(), db.nextId, outbox.sent)
  }

  /** The same world after one send of `text` to `target`. */
  function Sending(w: World, unreachable: set<string>, target: string, text: string): World {
    w.(sent := w.sent + Deliver(unreachable, target, text))
  }

  // ---------------------------------------------------------------- saveUserKPI

  /** The error a KPI save reports: the failed user insert's, or else the `TypeError` of the
      missing save function. */
  function KpiFailure(users: seq<User>, faults: map<string, string>, id: string): (message: string)
    ensures FindUser(users, id).Some? ==> message == SaveHourlyLogMissing
    ensures "users" !in faults ==> message == SaveHourlyLogMissing
  {
    if FindUser(users, id).None? && "users" in faults then faults["users"] else SaveHourlyLogMissing
  }

  /** What `saveUserKPI` leaves behind: a sender with no row gets one, with the next id and the
      display name, unless the users insert fails; no log row is stored; the error reply is
      sent to the room. */
  function AfterKpiSave(w: World, faults: map<string, string>, unreachable: set<string>,
                        message: Message, from: string): World
  {
    var id := SenderId(message);
    var replied := Sending(w, unreachable, from, KpiErrorReply(KpiFailure(w.users, faults, id)));
    if FindUser(w.users, id).None? && "users" !in faults then
      replied.(users := w.users + [User(w.nextId, id, DisplayName(message))], nextId := w.nextId + 1)
    else replied
  }

  /** After a KPI save the sender is a user, unless the users table rejected the insert; no log
      table changes and the outbox only grows. */
  lemma KpiSaveFindsSender(w: World, faults: map<string, string>, unreachable: set<string>,
                           message: Message, from: string)
    requires forall u :: u in w.users ==> u.id < w.nextId
    ensures var after := AfterKpiSave(w, faults, unreachable, message, from);
            && ("users" !in faults ==> FindUser(after.users, SenderId(message)).Some?)
            && after.logs == w.logs && w.users <= after.users && w.sent <= after.sent
  {
    var id := SenderId(message);
    if FindUser(w.users, id).None? && "users" !in faults {
      FindUserAppended(w.users, User(w.nextId, id, DisplayName(message)));
    }
  }

  /**
   * `saveUserKPI(message, from, sock, kpiType, value)`: find or create the sender, then call
   * `saveHourlyLog`, which the database module does not export. The call throws, so no row
   * is ever stored, and the reply is always the error reply.
   */
  method SaveUserKPI(db: Db, outbox: Outbox, message: Message, from: string, kpiType: string, value: string)
    returns (reply: string)
    requires db.Valid()
    modifies db, outbox
    ensures db.Valid()
    ensures reply == KpiErrorReply(KpiFailure(old(db.users), db.faults, SenderId(message)))
    ensures WorldOf(db, outbox) == AfterKpiSave(old(WorldOf(db, outbox)), db.faults, outbox.unreachable, message, from)
  {
    var cleanUserId := SenderId(message);
    var displayName := DisplayName(message);
    var user := db.CreateOrGetUser(cleanUserId, displayName);
    TablesExtensional(db.Logs(), old(db.Logs()));
    if user.Err? {
      reply := KpiErrorReply(ErrorMessage(user.error));
    } else {
      reply := KpiErrorReply(SaveHourlyLogMissing);
    }
    var _ := outbox.Send(from, reply);
  }

  /** What a KPI step leaves behind: a usage reply touches nothing but the chat; a save is
      `AfterKpiSave`. */
  function AfterStep(w: World, faults: map<string, string>, unreachable: set<string>,
                     message: Message, from: string, step: Step): World
  {
    match step
    case Usage(text) => Sending(w, unreachable, from, text)
    case Save(_, _) => AfterKpiSave(w, faults, unreachable, message, from)
  }

  /** The action a KPI command ends in: the usage reply, or the save. */
  method RunStep(db: Db, outbox: Outbox, message: Message, from: string, step: Step)
    requires db.Valid()
    modifies db, outbox
    ensures db.Valid()
    ensures WorldOf(db, outbox) == AfterStep(old(WorldOf(db, outbox)), db.faults, outbox.unreachable, message, from, step)
  {
    match step {
      case Usage(text) =>
        var _ := outbox.Send(from, text);
        TablesExtensional(db.Logs(), old(db.Logs()));
      case Save(kpiType, value) =>
        var _ := SaveUserKPI(db, outbox, message, from, kpiType, value);
    }
  }

  // ---------------------------------------------------------------- /undo

  /** The reply of the `/undo` branch as written: "No recent entries" when the sender has
      nothing to undo, else the error of the delete from the table "undefined". */
  ghost function UndoAsWrittenReply(users: seq<User>, logs: Tables, id: string, name: string): (r: string)
    ensures StartsWith(r, "❌ ")
  {
    var found := FindUser(users, id);
    if found.None? || NoRowsOf(logs, found.value.id) then NothingToUndoReply(name)
    else UndoErrorReply(ErrorMessage(MissingTable))
  }

  /** What the `/undo` branch as written leaves behind: the reply, and nothing else. */
  ghost function AfterUndo(w: World, unreachable: set<string>, message: Message, from: string): World {
    Sending(w, unreachable, from, UndoAsWrittenReply(w.users, w.logs, SenderId(message), DisplayName(message)))
  }

  /**
   * The `/undo` branch as written: it finds the sender's most recent entry, then calls
   * `deleteLogEntry(lastEntry.id)` without the table name. The delete goes to a table named
   * "undefined", which does not exist, so no entry is ever removed: the sender gets the error
   * reply whenever there was something to undo.
   */
  method Undo(db: Db, outbox: Outbox, message: Message, from: string, formatTime: int -> string)
    returns (reply: string)
    requires db.Valid()
    modifies db, outbox
    ensures db.Valid()
    ensures reply == UndoAsWrittenReply(old(db.users), old(db.Logs()), SenderId(message), DisplayName(message))
    ensures WorldOf(db, outbox) == AfterUndo(old(WorldOf(db, outbox)), outbox.unreachable, message, from)
  {
    reply := UndoAttempt(db, message, formatTime);
    var _ := outbox.Send(from, reply);
  }

  /** The database half of the `/undo` branch as written: look up the latest entry, attempt
      the delete, and choose the reply. */
  method UndoAttempt(db: Db, message: Message, formatTime: int -> string) returns (reply: string)
    requires db.Valid()
    modifies db
    ensures db.Valid() && db.users == old(db.users) && db.nextId == old(db.nextId)
    ensures db.Logs() == old(db.Logs())
    ensures reply == UndoAsWrittenReply(old(db.users), old(db.Logs()), SenderId(message), DisplayName(message))
  {
    var cleanUserId := SenderId(message);
    var pushName := DisplayName(message);
    ghost var found := FindUser(db.users, cleanUserId);
    if found.Some? {
      db.HasNoRowsOfLogs(found.value.id);
    }
    var lastEntry := db.GetLastUserEntry(cleanUserId);
    if lastEntry.Some? {
      var deleted := DeleteWithoutTableName(db, lastEntry.value.row.id);
      reply := UndoReply(deleted, lastEntry.value, formatTime, pushName);
    } else {
      reply := NothingToUndoReply(pushName);
    }
  }

  /** How JavaScript prints the missing argument, and the error of a table by that name. */
  const Undefined: string := "undefined"
  const MissingTable: DbError := NoSuchTable(Undefined)

  /** `deleteLogEntry(lastEntry.id)` as the undo branch writes it: the table name is
      `undefined`, so the delete always fails with the missing-table error and nothing changes. */
  method DeleteWithoutTableName(db: Db, entryId: nat) returns (deleted: Result<LogRow>)
    requires db.Valid()
    modifies db
    ensures db.Valid() && db.users == old(db.users) && db.nextId == old(db.nextId)
    ensures db.Logs() == old(db.Logs())
    ensures deleted == Err(MissingTable)
  {
    var tableName := Undefined;
    assert TableNamed(tableName).None? by { assert tableName[0] == 'u'; }
    deleted := db.DeleteLogEntry(entryId, tableName);
    TablesExtensional(db.Logs(), old(db.Logs()));
  }

  /**
   * What undo is meant to do: when the sender has an entry, the most recent one (see
   * `Db.IsMostRecent`) is removed from its table, nothing else in the database changes, and
   * the reply confirms it; with no entry, the reply says so and nothing changes.
   */
  twostate predicate UndoEffect(db: Db, outbox: Outbox, message: Message, from: string, formatTime: int -> string)
    reads db, outbox
  {
    var found := old(FindUser(db.users, SenderId(message)));
    var name := DisplayName(message);
    && db.users == old(db.users) && db.nextId == old(db.nextId)
    && (found.None? || old(db.HasNoRows(found.value.id)) ==>
          db.Logs() == old(db.Logs()) && outbox.sent == old(outbox.sent) + outbox.Delivery(from, NothingToUndoReply(name)))
    && (found.Some? && !old(db.HasNoRows(found.value.id)) ==>
          exists e: Entry, k: nat ::
            && old(db.IsMostRecent(e, found.value.id))
            && k < |old(db.Rows(e.table))| && old(db.Rows(e.table))[k] == e.row
            && db.Logs() == old(db.Logs()).RemoveAt(e.table, k)
            && outbox.sent == old(outbox.sent) + outbox.Delivery(from, UndoneReply(formatTime(e.row.loggedAt), name)))
  }

  /** The `/undo` branch as intended: the delete names the entry's own table. */
  method UndoIntended(db: Db, outbox: Outbox, message: Message, from: string, formatTime: int -> string)
    returns (reply: string)
    requires db.Valid()
    modifies db, outbox
    ensures db.Valid() && UndoEffect(db, outbox, message, from, formatTime)
    ensures outbox.sent == old(outbox.sent) + outbox.Delivery(from, reply)
    ensures old(outbox.sent) <= outbox.sent
  {
    var cleanUserId := SenderId(message);
    var pushName := DisplayName(message);
    var lastEntry := db.GetLastUserEntry(cleanUserId);
    if lastEntry.Some? {
      var e := lastEntry.value;
      ghost var before := db.Logs();
      ghost var rows := db.Rows(e.table);
      assert e.row in rows && before.Get(e.table) == rows;
      TableNameRoundTrip(e.table);
      var deleted := db.DeleteLogEntry(e.row.id, e.table.Name());
      ghost var k :| 0 <= k < |rows| && rows[k] == deleted.value && deleted.value.id == e.row.id
                     && db.Rows(e.table) == rows[..k] + rows[k + 1..];
      SameIdSameRow(rows, e.table, db.nextId, deleted.value, e.row);
      RemovedAt(before, db.Logs(), e.table, k);
      reply := UndoReply(deleted, e, formatTime, pushName);
      var _ := outbox.Send(from, reply);
      ghost var uid := old(FindUser(db.users, cleanUserId)).value.id;
      assert old(db.IsMostRecent(e, uid)) && before == old(db.Logs()) && rows == old(db.Rows(e.table));
      assert outbox.sent == old(outbox.sent) + outbox.Delivery(from, UndoneReply(formatTime(e.row.loggedAt), pushName));
    } else {
      reply := NothingToUndoReply(pushName);
      TablesExtensional(db.Logs(), old(db.Logs()));
      var _ := outbox.Send(from, reply);
    }
  }

  // ---------------------------------------------------------------- handleCommands

  /**
   * What `handleCommands` does with `messageText`, by the command it routes to: nothing for
   * no command; the test reminder to every allowed group; the KPI step's usage reply, or its
   * save (which stores no row, see `SaveUserKPI`); the help text; or undo as written.
   */
  ghost function AfterCommand(w: World, faults: map<string, string>, unreachable: set<string>, env: Option<string>,
                              messageText: string, from: string, message: Message): World
  {
    match Route(messageText)
    case None => w
    case Some(TestReminderCommand) =>
      w.(sent := w.sent + Reminders.Deliveries(Reminders.GetAllowedGroups(env), Reminders.TestReminderText, unreachable))
    case Some(HelpCommand) => Sending(w, unreachable, from, HelpText)
    case Some(UndoCommand) => AfterUndo(w, unreachable, message, from)
    case Some(c) => AfterStep(w, faults, unreachable, message, from, KpiStep(c, messageText))
  }

  /** As written, no command changes a log table: users are only ever added, and the outbox
      only grows. */
  lemma CommandKeepsLogs(w: World, faults: map<string, string>, unreachable: set<string>, env: Option<string>,
                         messageText: string, from: string, message: Message)
    ensures var after := AfterCommand(w, faults, unreachable, env, messageText, from, message);
            after.logs == w.logs && w.users <= after.users && w.nextId <= after.nextId && w.sent <= after.sent
  {
    match Route(messageText)
    case None =>
    case Some(TestReminderCommand) =>
    case Some(HelpCommand) => SendingKeepsLogs(w, unreachable, from, HelpText);
    case Some(UndoCommand) =>
      SendingKeepsLogs(w, unreachable, from, UndoAsWrittenReply(w.users, w.logs, SenderId(message), DisplayName(message)));
    case Some(c) => StepKeepsLogs(w, faults, unreachable, message, from, KpiStep(c, messageText));
  }

  lemma SendingKeepsLogs(w: World, unreachable: set<string>, target: string, text: string)
    ensures var after := Sending(w, unreachable, target, text);
            after.logs == w.logs && after.users == w.users && after.nextId == w.nextId && w.sent <= after.sent
  {
  }

  lemma StepKeepsLogs(w: World, faults: map<string, string>, unreachable: set<string>,
                      message: Message, from: string, step: Step)
    ensures var after := AfterStep(w, faults, unreachable, message, from, step);
            after.logs == w.logs && w.users <= after.users && w.nextId <= after.nextId && w.sent <= after.sent
  {
    var id := SenderId(message);
    match step
    case Usage(text) => SendingKeepsLogs(w, unreachable, from, text);
    case Save(_, _) =>
      SendingKeepsLogs(w, unreachable, from, KpiErrorReply(KpiFailure(w.users, faults, id)));
  }

  /**
   * `handleCommands(messageText, from, sock, message)`. The source makes eight independent
   * prefix tests on the lower-cased text; at most one passes, the one `Route` names
   * (`RouteIff`), so the method runs that command's branch.
   */
  method HandleCommands(db: Db, outbox: Outbox, env: Option<string>, messageText: string, from: string,
                        message: Message, formatTime: int -> string)
    requires db.Valid()
    modifies db, outbox
    ensures db.Valid()
    ensures WorldOf(db, outbox)
            == AfterCommand(old(WorldOf(db, outbox)), db.faults, outbox.unreachable, env, messageText, from, message)
  {
    var route := Route(messageText);
    match route {
      case None =>
        TablesExtensional(db.Logs(), old(db.Logs()));
      case Some(TestReminderCommand) =>
        Reminders.SendTestReminder(outbox, env);
        TablesExtensional(db.Logs(), old(db.Logs()));
      case Some(HelpCommand) =>
        var _ := outbox.Send(from, HelpText);
        TablesExtensional(db.Logs(), old(db.Logs()));
      case Some(UndoCommand) =>
        var _ := Undo(db, outbox, message, from, formatTime);
      case Some(c) =>
        RunStep(db, outbox, message, from, KpiStep(c, messageText));
    }
  }

  /** `handleCommands` with the undo branch as intended (`UndoIntended`); every other command
      runs as written. */
  method HandleCommandsIntended(db: Db, outbox: Outbox, env: Option<string>, messageText: string, from: string,
                                message: Message, formatTime: int -> string)
    requires db.Valid()
    modifies db, outbox
    ensures db.Valid()
    ensures Route(messageText) == Some(UndoCommand) ==> UndoEffect(db, outbox, message, from, formatTime)
    ensures Route(messageText) != Some(UndoCommand) ==>
              WorldOf(db, outbox)
              == AfterCommand(old(WorldOf(db, outbox)), db.faults, outbox.unreachable, env, messageText, from, message)
  {
    if Route(messageText) == Some(UndoCommand) {
      var _ := UndoIntended(db, outbox, message, from, formatTime);
    } else {
      HandleCommands(db, outbox, env, messageText, from, message, formatTime);
    }
  }

  // ---------------------------------------------------------------- handleIncomingMessages

  /** What one message does: nothing unless it passes the checks, else its text is handled as
      a command from its room. */
  ghost function AfterMessage(w: World, faults: map<string, string>, unreachable: set<string>, env: Option<string>,
                              m: Message): World
  {
    if Admitted(m, env) then AfterCommand(w, faults, unreachable, env, TextOf(m.content.value), m.key.remoteJid, m)
    else w
  }

  /** What a batch does: its messages one after another, in order. */
  ghost function AfterMessages(w: World, faults: map<string, string>, unreachable: set<string>, env: Option<string>,
                               messages: seq<Message>): World
  {
    if messages == [] then w
    else
      var last := messages[|messages| - 1];
      AfterMessage(AfterMessages(w, faults, unreachable, env, messages[..|messages| - 1]), faults, unreachable, env, last)
  }

  /** A batch does what its admitted messages alone do: the others leave no trace. */
  lemma {:induction false} AfterMessagesOfAdmitted(w: World, faults: map<string, string>, unreachable: set<string>,
                                                   env: Option<string>, messages: seq<Message>)
    ensures AfterMessages(w, faults, unreachable, env, messages)
            == AfterMessages(w, faults, unreachable, env, AdmittedMessages(messages, env))
  {
    if messages != [] {
      var init, last := messages[..|messages| - 1], messages[|messages| - 1];
      AfterMessagesOfAdmitted(w, faults, unreachable, env, init);
      var admitted := AdmittedMessages(init, env);
      if Admitted(last, env) {
        var all := admitted + [last];
        assert all[..|all| - 1] == admitted && all[|all| - 1] == last;
        assert AdmittedMessages(messages, env) == all;
        var before := AfterMessages(w, faults, unreachable, env, init);
        assert before == AfterMessages(w, faults, unreachable, env, admitted);
        assert AfterMessages(w, faults, unreachable, env, messages) == AfterMessage(before, faults, unreachable, env, last);
        assert AfterMessages(w, faults, unreachable, env, all) == AfterMessage(before, faults, unreachable, env, last);
      } else {
        assert AdmittedMessages(messages, env) == admitted;
        var before := AfterMessages(w, faults, unreachable, env, init);
        assert AfterMessage(before, faults, unreachable, env, last) == before;
      }
    }
  }

  /** As written, no batch changes a log table: users are only ever added, and the outbox only
      grows. */
  lemma {:induction false} AfterMessagesKeepsLogs(w: World, faults: map<string, string>, unreachable: set<string>,
                                                  env: Option<string>, messages: seq<Message>)
    ensures var after := AfterMessages(w, faults, unreachable, env, messages);
            after.logs == w.logs && w.users <= after.users && w.nextId <= after.nextId && w.sent <= after.sent
  {
    if messages != [] {
      var init, last := messages[..|messages| - 1], messages[|messages| - 1];
      AfterMessagesKeepsLogs(w, faults, unreachable, env, init);
      var mid := AfterMessages(w, faults, unreachable, env, init);
      if Admitted(last, env) {
        CommandKeepsLogs(mid, faults, unreachable, env, TextOf(last.content.value), last.key.remoteJid, last);
      }
    }
  }

  /** The callback `handleIncomingMessages` runs for one message: skip it unless it passes the
      checks, else handle its text as a command from its room. */
  method HandleMessage(db: Db, outbox: Outbox, env: Option<string>, message: Message, formatTime: int -> string)
    returns (admitted: bool)
    requires db.Valid()
    modifies db, outbox
    ensures db.Valid()
    ensures admitted <==> Admitted(message, env)
    ensures WorldOf(db, outbox) == AfterMessage(old(WorldOf(db, outbox)), db.faults, outbox.unreachable, env, message)
  {
    if message.content.None? {
      return false;
    }
    var from := message.key.remoteJid;
    var messageText := TextOf(message.content.value);
    var allowedGroups := Reminders.GetAllowedGroups(env);
    if |allowedGroups| == 0 {
      return false;
    }
    if from !in allowedGroups {
      return false;
    }
    HandleCommands(db, outbox, env, messageText, from, message, formatTime);
    return true;
  }

  /** `handleIncomingMessages({ messages }, sock)`: every message of the batch in order;
      `handled` lists the ones that got past the checks. */
  method HandleIncomingMessages(db: Db, outbox: Outbox, env: Option<string>, messages: seq<Message>,
                                formatTime: int -> string) returns (handled: seq<Message>)
    requires db.Valid()
    modifies db, outbox
    ensures db.Valid()
    ensures handled == AdmittedMessages(messages, env)
    ensures WorldOf(db, outbox) == AfterMessages(old(WorldOf(db, outbox)), db.faults, outbox.unreachable, env, messages)
    ensures db.Logs() == old(db.Logs()) && old(db.users) <= db.users && old(outbox.sent) <= outbox.sent
    ensures handled == [] ==> WorldOf(db, outbox) == old(WorldOf(db, outbox))
  {
    handled := [];
    for i := 0 to |messages|
      invariant db.Valid()
      invariant handled == AdmittedMessages(messages[..i], env)
      invariant WorldOf(db, outbox) == AfterMessages(old(WorldOf(db, outbox)), db.faults, outbox.unreachable, env, messages[..i])
    {
      var admitted := HandleMessage(db, outbox, env, messages[i], formatTime);
      if admitted {
        handled := handled + [messages[i]];
      }
      assert messages[..i + 1][..i] == messages[..i];
    }
    assert messages[..|messages|] == messages;
    AfterMessagesKeepsLogs(old(WorldOf(db, outbox)), db.faults, outbox.unreachable, env, messages);
    AfterMessagesOfAdmitted(old(WorldOf(db, outbox)), db.faults, outbox.unreachable, env, messages);
  }
}
