/**
 * `handleLogs` (`controllers/messageControllers/handleCommands/handleLogs.js`): resolve the
 * sender to a user, send the request to the one save call its log type names, and answer with
 * one reply, the acknowledgment on success and "❌ Error saving ..." on any failure.
 */
module LogWriter {
  import opened Wrappers
  import opened JsText
  import opened Transport
  import opened Store

  /** The `params` object a validator hands to `handleLogs`, one alternative per `logType`
      the switch knows; `OtherRequest` carries any other `logType`. */
  datatype LogRequest =
    | EnergyRequest(energyLevel: int)
    | SleepRequest(bedtime: string, waketime: string, quality: int, tiredness: int)
    | HourlyRequest(rating: int, activity: string)
    | ThoughtRequest(content: string, thoughtType: string)
    | OtherRequest(logType: string)
  {
    function LogType(): string {
      match this
      case EnergyRequest(_) => "energy"
      case SleepRequest(_, _, _, _) => "sleep"
      case HourlyRequest(_, _) => "hourly"
      case ThoughtRequest(_, _) => "thought"
      case OtherRequest(t) => t
    }

    /** An `OtherRequest` names a log type the switch has no case for. */
    predicate WellFormed() {
      OtherRequest? ==> logType !in {"energy", "sleep", "hourly", "thought"}
    }
  }

  /** The row a known request stores (`today` is the date string of the current day);
      `None` for a log type the switch does not know. */
  function RowData(req: LogRequest, today: string): (d: Option<LogData>)
    ensures d.None? <==> req.OtherRequest?
  {
    match req
    case EnergyRequest(level) => Some(EnergyData(level))
    case SleepRequest(b, w, q, t) => Some(SleepData(b, w, q, t, today))
    case HourlyRequest(r, a) => Some(HourlyData(r, a))
    case ThoughtRequest(c, t) => Some(ThoughtData(c, t))
    case OtherRequest(_) => None
  }

  /** The emoji of a thought: 💭 for "thought", 😊 for "feeling", 💡 for anything else. */
  function ThoughtEmoji(thoughtType: string): (e: string)
    ensures e == "💭" <==> thoughtType == "thought"
    ensures e == "😊" <==> thoughtType == "feeling"
    ensures e == "💡" <==> thoughtType != "thought" && thoughtType != "feeling"
  {
    if thoughtType == "thought" then "💭"
    else if thoughtType == "feeling" then "😊"
    else "💡"
  }

  const EnergyLogged: string := "✅ " + "Energy logged!\n"
  const SleepLogged: string := "✅ " + "Sleep logged!\n"
  const HourLogged: string := "✅ " + "Hour logged!\n"
  const Logged: string := " logged!\n"
  const LevelLabel: string := "⚡ Level: "
  const BedtimeLabel: string := "😴 "
  const Arrow: string := " → "
  const QualityLabel: string := "⭐ Quality: "
  const TirednessLabel: string := "/5, Tiredness: "
  const RatingLabel: string := "🕐 Rating: "
  const ActivityLabel: string := "📝 Activity: "
  const OutOfFive: string := "/5"

  /** The acknowledgment of a stored request, before the user line. */
  function SuccessText(req: LogRequest): (r: string)
    requires !req.OtherRequest?
    ensures StartsWith(r, "✅ ")
  {
    match req
    case EnergyRequest(level) =>
      EnergyLogged + (LevelLabel + IntToDecimal(level) + OutOfFive)
    case SleepRequest(b, w, q, t) =>
      SleepLogged + (BedtimeLabel + b + Arrow + w + "\n")
      + (QualityLabel + IntToDecimal(q) + TirednessLabel + IntToDecimal(t) + OutOfFive)
    case HourlyRequest(rating, activity) =>
      HourLogged + (RatingLabel + IntToDecimal(rating) + OutOfFive + "\n") + (ActivityLabel + activity)
    case ThoughtRequest(content, thoughtType) =>
      ("✅ " + Capitalize(thoughtType) + Logged) + (ThoughtEmoji(thoughtType) + " " + content)
  }

  /** The acknowledgment quotes what was stored: the level, the two times and both scores,
      the rating and the activity, or the capitalised thought type with its emoji and the
      content. */
  lemma SuccessTextQuotes(req: LogRequest)
    requires !req.OtherRequest?
    ensures req.EnergyRequest? ==> EndsWith(SuccessText(req), LevelLabel + IntToDecimal(req.energyLevel) + OutOfFive)
    ensures req.SleepRequest? ==>
              && Contains(SuccessText(req), BedtimeLabel + req.bedtime + Arrow + req.waketime + "\n")
              && EndsWith(SuccessText(req), QualityLabel + IntToDecimal(req.quality) + TirednessLabel
                                             + IntToDecimal(req.tiredness) + OutOfFive)
    ensures req.HourlyRequest? ==>
              && Contains(SuccessText(req), RatingLabel + IntToDecimal(req.rating) + OutOfFive + "\n")
              && EndsWith(SuccessText(req), ActivityLabel + req.activity)
    ensures req.ThoughtRequest? ==>
              && StartsWith(SuccessText(req), "✅ " + Capitalize(req.thoughtType) + Logged)
              && EndsWith(SuccessText(req), ThoughtEmoji(req.thoughtType) + " " + req.content)
  {
    match req
    case EnergyRequest(_) =>
    case SleepRequest(b, w, q, t) =>
      ContainsMiddle(SleepLogged, BedtimeLabel + b + Arrow + w + "\n",
                     QualityLabel + IntToDecimal(q) + TirednessLabel + IntToDecimal(t) + OutOfFive);
    case HourlyRequest(rating, activity) =>
      ContainsMiddle(HourLogged, RatingLabel + IntToDecimal(rating) + OutOfFive + "\n", ActivityLabel + activity);
    case ThoughtRequest(_, _) =>
  }

  const ErrorSaving: string := "❌ Error saving "
  const LogColon: string := " log: "
  const UnknownLogType: string := "Unknown log type: "
  /** The line that signs a reply with the sender's display name. */
  const UserTag: string := "\n👤 User: "

  /** The reply to a failure, quoting the error's message. */
  function ErrorReply(logType: string, message: string): (r: string)
    ensures StartsWith(r, ErrorSaving + logType + LogColon) && EndsWith(r, message)
  {
    (ErrorSaving + logType + LogColon) + message
  }

  /** A success reply and an error reply are never the same text. */
  lemma SuccessIsNotError(req: LogRequest, name: string, logType: string, message: string)
    requires !req.OtherRequest?
    ensures SuccessText(req) + UserTag + name != ErrorReply(logType, message)
  {
    var s := SuccessText(req) + UserTag + name;
    assert s[0] == SuccessText(req)[..2][0] == '✅';
    assert ErrorReply(logType, message)[0] == '❌';
  }

  /** The tables, the next id and the reply the switch of `handleLogs` leaves behind. */
  datatype SwitchOutcome = SwitchOutcome(logs: Tables, nextId: nat, reply: string)

  /**
   * What the switch of `handleLogs` and its reply do once the user is known, from the tables
   * `before` and the next id `base`: for an unknown log type or a failed save the reply quotes
   * the error and no table changes; else exactly one row, carrying `uid` and the request's
   * fields, is appended to the request's own table, and the reply acknowledges it, signed
   * with `name`.
   */
  function AfterSwitch(before: Tables, base: nat, faults: map<string, string>, uid: nat, req: LogRequest,
                       today: string, now: int, name: string): SwitchOutcome
  {
    match RowData(req, today)
    case None =>
      SwitchOutcome(before, base, ErrorReply(req.LogType(), UnknownLogType + req.LogType()))
    case Some(data) =>
      var t := data.Home();
      if t.Name() in faults then SwitchOutcome(before, base, ErrorReply(req.LogType(), faults[t.Name()]))
      else SwitchOutcome(before.Append(t, LogRow(base, uid, now, data)), base + 1, SuccessText(req) + UserTag + name)
  }

  /** The reply acknowledges a stored row exactly when the next id moved on, and when it did
      not, no table changed. */
  lemma AcknowledgedIffStored(before: Tables, base: nat, faults: map<string, string>, uid: nat, req: LogRequest,
                              today: string, now: int, name: string)
    ensures var o := AfterSwitch(before, base, faults, uid, req, today, now, name);
            && (StartsWith(o.reply, "✅ ") <==> o.nextId == base + 1)
            && (o.nextId == base ==> o.logs == before)
            && (o.nextId == base || o.nextId == base + 1)
  {
    var o := AfterSwitch(before, base, faults, uid, req, today, now, name);
    if o.nextId == base {
      assert o.reply[0] == '❌' by { assert StartsWith(o.reply, ErrorSaving); }
    } else {
      assert StartsWith(SuccessText(req), "✅ ");
    }
  }

  /** The `switch (params.logType)` of `handleLogs`: the save call the request's log type
      names, or the "Unknown log type" error. */
  method SaveRequest(db: Db, uid: nat, req: LogRequest, today: string, now: int) returns (saved: Result<LogRow>)
    requires db.Valid()
    modifies db
    ensures db.Valid() && db.users == old(db.users)
    ensures RowData(req, today).None? ==>
              saved == Err(Remote(UnknownLogType + req.LogType()))
              && db.nextId == old(db.nextId) && db.Logs() == old(db.Logs())
    ensures RowData(req, today).Some? ==>
              var data := RowData(req, today).value;
              var t := data.Home();
              && (t.Name() in db.faults ==>
                    saved == Err(Remote(db.faults[t.Name()])) && db.nextId == old(db.nextId) && db.Logs() == old(db.Logs()))
              && (t.Name() !in db.faults ==>
                    && saved == Ok(LogRow(old(db.nextId), uid, now, data))
                    && db.nextId == old(db.nextId) + 1 && db.Logs() == old(db.Logs()).Append(t, saved.value))
  {
    match req {
      case EnergyRequest(level) =>
        saved := db.SaveEnergyLog(uid, level, now);
      case SleepRequest(b, w, q, t) =>
        saved := db.SaveSleepLog(uid, b, w, q, t, today, now);
      case HourlyRequest(rating, activity) =>
        saved := db.SaveHourlyLog(uid, rating, activity, now);
      case ThoughtRequest(content, thoughtType) =>
        saved := db.SaveThoughtLog(uid, content, thoughtType, now);
      case OtherRequest(t) =>
        saved := Err(Remote(UnknownLogType + t));
    }
    var d := RowData(req, today);
    if d.Some? && saved.Ok? {
      TablesExtensional(db.Logs(), old(db.Logs()).Append(d.value.Home(), saved.value));
    } else {
      TablesExtensional(db.Logs(), old(db.Logs()));
    }
  }

  /** The switch of `handleLogs` and the reply it leads to, for the user `uid`. */
  method SaveAndAcknowledge(db: Db, uid: nat, req: LogRequest, today: string, now: int, name: string)
    returns (reply: string)
    requires db.Valid()
    modifies db
    ensures db.Valid() && db.users == old(db.users)
    ensures SwitchOutcome(db.Logs(), db.nextId, reply)
            == AfterSwitch(old(db.Logs()), old(db.nextId), db.faults, uid, req, today, now, name)
  {
    var saved := SaveRequest(db, uid, req, today, now);
    if saved.Err? {
      reply := ErrorReply(req.LogType(), ErrorMessage(saved.error));
    } else {
      reply := SuccessText(req) + UserTag + name;
    }
  }

  /** The users, the tables, the next id and the reply `handleLogs` leaves behind. */
  datatype Recorded = Recorded(users: seq<User>, logs: Tables, nextId: nat, reply: string)

  /**
   * What `handleLogs` does to the database for the sender `id` named `name`: a known sender's
   * request goes through the switch; an unknown sender is created first, with the next id,
   * and the switch runs for that new user; when the users table rejects the insert, the reply
   * quotes its error and nothing changes.
   */
  function AfterHandleLogs(users: seq<User>, logs: Tables, nextId: nat, faults: map<string, string>,
                           id: string, name: string, req: LogRequest, today: string, now: int): Recorded
  {
    match FindUser(users, id)
    case Some(u) =>
      var o := AfterSwitch(logs, nextId, faults, u.id, req, today, now, name);
      Recorded(users, o.logs, o.nextId, o.reply)
    case None =>
      if "users" in faults then Recorded(users, logs, nextId, ErrorReply(req.LogType(), faults["users"]))
      else
        var o := AfterSwitch(logs, nextId + 1, faults, nextId, req, today, now, name);
        Recorded(users + [User(nextId, id, if name != "" then name else id)], o.logs, o.nextId, o.reply)
  }

  /**
   * `handleLogs(message, from, sock, params)`. The sender is found or created first; when that
   * fails the reply quotes the error and no log table changes; otherwise the switch runs for
   * that user, as `AfterHandleLogs` says. Exactly one reply is sent, to `from`.
   */
  method HandleLogs(db: Db, outbox: Outbox, message: Message, from: string, req: LogRequest,
                    today: string, now: int) returns (reply: string)
    requires db.Valid() && req.WellFormed()
    modifies db, outbox
    ensures db.Valid()
    ensures outbox.sent == old(outbox.sent) + outbox.Delivery(from, reply)
    ensures Recorded(db.users, db.Logs(), db.nextId, reply)
            == AfterHandleLogs(old(db.users), old(db.Logs()), old(db.nextId), db.faults,
                               SenderId(message), DisplayName(message), req, today, now)
  {
    reply := RecordLog(db, message, req, today, now);
    var _ := outbox.Send(from, reply);
  }

  /** The database half of `handleLogs`: find or create the sender, then save and choose the reply. */
  method RecordLog(db: Db, message: Message, req: LogRequest, today: string, now: int) returns (reply: string)
    requires db.Valid() && req.WellFormed()
    modifies db
    ensures db.Valid()
    ensures Recorded(db.users, db.Logs(), db.nextId, reply)
            == AfterHandleLogs(old(db.users), old(db.Logs()), old(db.nextId), db.faults,
                               SenderId(message), DisplayName(message), req, today, now)
  {
    var cleanUserId := SenderId(message);
    ghost var users, logs, base := db.users, db.Logs(), db.nextId;
    var user := db.CreateOrGetUser(cleanUserId, DisplayName(message));
    ghost var users1, next1 := db.users, db.nextId;
    TablesExtensional(db.Logs(), logs);
    if user.Err? {
      reply := ErrorReply(req.LogType(), ErrorMessage(user.error));
    } else {
      reply := SaveAndAcknowledge(db, user.value.id, req, today, now, DisplayName(message));
    }
    SenderRecorded(users, logs, base, db.faults, cleanUserId, DisplayName(message), req, today, now,
                   user, users1, next1, db.Logs(), db.nextId, reply);
  }

  /** The sender lookup, then the switch or the error reply, give what `AfterHandleLogs` says. */
  lemma SenderRecorded(users: seq<User>, logs: Tables, base: nat, faults: map<string, string>, id: string,
                       name: string, req: LogRequest, today: string, now: int,
                       user: Result<User>, users1: seq<User>, next1: nat, after: Tables, next: nat, reply: string)
    requires FindUser(users, id).Some? ==> user == Ok(FindUser(users, id).value) && users1 == users && next1 == base
    requires FindUser(users, id).None? && "users" in faults ==>
               user == Err(Remote(faults["users"])) && users1 == users && next1 == base
    requires FindUser(users, id).None? && "users" !in faults ==>
               user == Ok(User(base, id, if name != "" then name else id)) && users1 == users + [user.value]
               && next1 == base + 1
    requires user.Err? ==> reply == ErrorReply(req.LogType(), ErrorMessage(user.error)) && after == logs && next == next1
    requires user.Ok? ==>
               SwitchOutcome(after, next, reply) == AfterSwitch(logs, next1, faults, user.value.id, req, today, now, name)
    ensures Recorded(users1, after, next, reply) == AfterHandleLogs(users, logs, base, faults, id, name, req, today, now)
  {
    match FindUser(users, id)
    case Some(u) =>
      assert user.value.id == u.id;
    case None =>
      if "users" in faults {
        assert ErrorMessage(user.error) == faults["users"];
      } else {
        assert user.value.id == base;
      }
  }
}
