/**
 * The database layer (`controllers/databaseController.js`) over in-memory tables: the users
 * table and the four append-only log tables, with find-or-create of a user, one insert per
 * log kind, the "most recent entry across the four tables" query behind undo, and delete by id.
 *
 * The remote store assigns ids and `logged_at`; here ids come from one counter and
 * `logged_at` is the `now` the caller passes in. An insert into a table named in `faults`
 * fails with that message, as a rejected request to the remote store would.
 */
module Store {
  import opened Wrappers

  datatype User = User(id: nat, phoneNumber: string, name: string)

  /** The four log tables, in the order `getLastUserEntry` scans them. */
  datatype Table = SleepLogs | EnergyLogs | HourlyLogs | ThoughtsLogs {
    function Name(): string {
      match this
      case SleepLogs => "sleep_logs"
      case EnergyLogs => "energy_logs"
      case HourlyLogs => "hourly_logs"
      case ThoughtsLogs => "thoughts_logs"
    }

    /** Position in the scan order. */
    function Rank(): nat {
      match this
      case SleepLogs => 0
      case EnergyLogs => 1
      case HourlyLogs => 2
      case ThoughtsLogs => 3
    }
  }

  const ScanOrder: seq<Table> := [SleepLogs, EnergyLogs, HourlyLogs, ThoughtsLogs]

  lemma ScanOrderRanks()
    ensures |ScanOrder| == 4
    ensures forall t: Table :: ScanOrder[t.Rank()] == t
    ensures forall k :: 0 <= k < 4 ==> ScanOrder[k].Rank() == k
  {
  }

  /** The table a name refers to; `None` for any other name. */
  function TableNamed(name: string): (t: Option<Table>)
    ensures t.Some? ==> t.value.Name() == name
    ensures t.None? ==> forall u: Table :: u.Name() != name
  {
    if name == "sleep_logs" then Some(SleepLogs)
    else if name == "energy_logs" then Some(EnergyLogs)
    else if name == "hourly_logs" then Some(HourlyLogs)
    else if name == "thoughts_logs" then Some(ThoughtsLogs)
    else None
  }

  /** Every table is found by its own name. */
  lemma TableNameRoundTrip(t: Table)
    ensures TableNamed(t.Name()) == Some(t)
  {
  }

  /** The kind-specific columns of a log row (`sleep_date` is the date string of the day). */
  datatype LogData =
    | SleepData(bedtime: string, wakeTime: string, sleepQuality: int, tirednessLevel: int, sleepDate: string)
    | EnergyData(energyLevel: int)
    | HourlyData(hourRating: int, activity: string)
    | ThoughtData(content: string, logType: string)
  {
    function Home(): Table {
      match this
      case SleepData(_, _, _, _, _) => SleepLogs
      case EnergyData(_) => EnergyLogs
      case HourlyData(_, _) => HourlyLogs
      case ThoughtData(_, _) => ThoughtsLogs
    }
  }

  datatype LogRow = LogRow(id: nat, userId: nat, loggedAt: int, data: LogData)

  /** A row tagged with the table it came from (`{ ...data, table_name }`). */
  datatype Entry = Entry(row: LogRow, table: Table)

  /** Why a database call failed: the remote store rejected it, the table does not exist,
      or `.single()` found no row. */
  datatype DbError = Remote(message: string) | NoSuchTable(name: string) | NoRow

  datatype Result<T> = Ok(value: T) | Err(error: DbError)

  /** The contents of the four log tables at one moment. */
  datatype Tables = Tables(sleep: seq<LogRow>, energy: seq<LogRow>, hourly: seq<LogRow>, thoughts: seq<LogRow>) {
    function Get(t: Table): seq<LogRow> {
      match t
      case SleepLogs => sleep
      case EnergyLogs => energy
      case HourlyLogs => hourly
      case ThoughtsLogs => thoughts
    }

    /** The same tables with the `k`-th row of table `t` removed. */
    function RemoveAt(t: Table, k: nat): (r: Tables)
      requires k < |Get(t)|
      ensures r.Get(t) == Get(t)[..k] + Get(t)[k + 1..]
      ensures forall u: Table :: u != t ==> r.Get(u) == Get(u)
    {
      match t
      case SleepLogs => this.(sleep := sleep[..k] + sleep[k + 1..])
      case EnergyLogs => this.(energy := energy[..k] + energy[k + 1..])
      case HourlyLogs => this.(hourly := hourly[..k] + hourly[k + 1..])
      case ThoughtsLogs => this.(thoughts := thoughts[..k] + thoughts[k + 1..])
    }

    /** The same tables with `row` appended to table `t` and every other table as it was. */
    function Append(t: Table, row: LogRow): (r: Tables)
      ensures r.Get(t) == Get(t) + [row]
      ensures forall u: Table :: u != t ==> r.Get(u) == Get(u)
    {
      match t
      case SleepLogs => this.(sleep := sleep + [row])
      case EnergyLogs => this.(energy := energy + [row])
      case HourlyLogs => this.(hourly := hourly + [row])
      case ThoughtsLogs => this.(thoughts := thoughts + [row])
    }
  }

  /** The user `uid` has no row in any of the tables. */
  ghost predicate NoRowsOf(logs: Tables, uid: nat) {
    forall t: Table, x :: x in logs.Get(t) ==> x.userId != uid
  }

  /** Rows of a valid table with the same id are the same row. */
  lemma SameIdSameRow(rows: seq<LogRow>, t: Table, next: nat, a: LogRow, b: LogRow)
    requires TableValid(rows, t, next) && a in rows && b in rows && a.id == b.id
    ensures a == b
  {
    var i :| 0 <= i < |rows| && rows[i] == a;
    var j :| 0 <= j < |rows| && rows[j] == b;
    assert i == j;
  }

  /** Two snapshots with the same rows in every table are the same. */
  lemma TablesExtensional(a: Tables, b: Tables)
    requires forall t: Table :: a.Get(t) == b.Get(t)
    ensures a == b
  {
    assert a.Get(SleepLogs) == b.Get(SleepLogs) && a.Get(EnergyLogs) == b.Get(EnergyLogs);
    assert a.Get(HourlyLogs) == b.Get(HourlyLogs) && a.Get(ThoughtsLogs) == b.Get(ThoughtsLogs);
  }

  /** Tables that differ from `before` only by the `k`-th row of `t` are `before.RemoveAt(t, k)`. */
  lemma RemovedAt(before: Tables, after: Tables, t: Table, k: nat)
    requires k < |before.Get(t)|
    requires after.Get(t) == before.Get(t)[..k] + before.Get(t)[k + 1..]
    requires forall u: Table :: u != t ==> after.Get(u) == before.Get(u)
    ensures after == before.RemoveAt(t, k)
  {
    TablesExtensional(after, before.RemoveAt(t, k));
  }

  /** `error.message` as the caller sees it. */
  function ErrorMessage(e: DbError): string {
    match e
    case Remote(message) => message
    case NoSuchTable(name) => "relation \"public." + name + "\" does not exist"
    case NoRow => "JSON object requested, multiple (or no) rows returned"
  }

  /** The user a `.eq("phone_number", phone)` lookup finds. */
  function FindUser(users: seq<User>, phone: string): (r: Option<User>)
    ensures r.Some? ==> r.value in users && r.value.phoneNumber == phone
    ensures r.None? ==> forall u :: u in users ==> u.phoneNumber != phone
  {
    if users == [] then None
    else if users[0].phoneNumber == phone then Some(users[0])
    else FindUser(users[1..], phone)
  }

  /** When phone numbers are unique, the lookup finds the one user with that number. */
  lemma {:induction false} FindUserUnique(users: seq<User>, u: User)
    requires forall i, j :: 0 <= i < j < |users| ==> users[i].phoneNumber != users[j].phoneNumber
    requires u in users
    ensures FindUser(users, u.phoneNumber) == Some(u)
  {
    if users[0] != u {
      assert u in users[1..];
      FindUserUnique(users[1..], u);
    }
  }

  /** After appending a user with a new phone number, the lookup finds that user. */
  lemma {:induction false} FindUserAppended(users: seq<User>, u: User)
    requires FindUser(users, u.phoneNumber).None?
    ensures FindUser(users + [u], u.phoneNumber) == Some(u)
  {
    if users != [] {
      assert (users + [u])[1..] == users[1..] + [u];
      FindUserAppended(users[1..], u);
    }
  }

  /**
   * The row `.eq("user_id", uid).order("logged_at", { ascending: false }).limit(1).single()`
   * returns: a row of the user with the greatest `logged_at` (the earliest stored among
   * equals), or `None` when the user has no row in the table.
   */
  function LatestRow(rows: seq<LogRow>, uid: nat): (r: Option<LogRow>)
    ensures r.Some? ==> r.value in rows && r.value.userId == uid
    ensures r.Some? ==> forall x :: x in rows && x.userId == uid ==> x.loggedAt <= r.value.loggedAt
    ensures r.None? <==> forall x :: x in rows ==> x.userId != uid
  {
    if rows == [] then None
    else
      var rest := LatestRow(rows[1..], uid);
      if rows[0].userId != uid then rest
      else if rest.None? || rows[0].loggedAt >= rest.value.loggedAt then Some(rows[0])
      else rest
  }

  /** The position of the row with id `id`, or -1. */
  function RowIndex(rows: seq<LogRow>, id: nat): (k: int)
    ensures -1 <= k < |rows|
    ensures k == -1 <==> forall x :: x in rows ==> x.id != id
    ensures k >= 0 ==> rows[k].id == id
  {
    if rows == [] then -1
    else if rows[0].id == id then 0
    else var k := RowIndex(rows[1..], id); if k == -1 then -1 else k + 1
  }

  /** Rows of table `t`: every id below `next`, no id twice, every row of `t`'s kind. */
  ghost predicate TableValid(rows: seq<LogRow>, t: Table, next: nat) {
    && (forall x :: x in rows ==> x.id < next && x.data.Home() == t)
    && (forall i, j :: 0 <= i < j < |rows| ==> rows[i].id != rows[j].id)
  }

  /** Removing one row keeps a table valid. */
  lemma RemoveKeepsValid(rows: seq<LogRow>, k: nat, t: Table, next: nat)
    requires k < |rows| && TableValid(rows, t, next)
    ensures TableValid(rows[..k] + rows[k + 1..], t, next)
  {
    var rest := rows[..k] + rows[k + 1..];
    assert forall x :: x in rest ==> x in rows;
    forall i, j | 0 <= i < j < |rest| ensures rest[i].id != rest[j].id {
      var i' := if i < k then i else i + 1;
      var j' := if j < k then j else j + 1;
      assert rest[i] == rows[i'] && rest[j] == rows[j'];
    }
  }

  class Db {
    var users: seq<User>
    var sleepLogs: seq<LogRow>
    var energyLogs: seq<LogRow>
    var hourlyLogs: seq<LogRow>
    var thoughtsLogs: seq<LogRow>
    var nextId: nat
    /** Tables whose inserts the remote store rejects, with the error message it returns. */
    const faults: map<string, string>

    function Rows(t: Table): seq<LogRow>
      reads this
    {
      match t
      case SleepLogs => sleepLogs
      case EnergyLogs => energyLogs
      case HourlyLogs => hourlyLogs
      case ThoughtsLogs => thoughtsLogs
    }

    /** All four log tables. */
    function Logs(): (r: Tables)
      reads this
      ensures forall t: Table :: r.Get(t) == Rows(t)
    {
      Tables(sleepLogs, energyLogs, hourlyLogs, thoughtsLogs)
    }

    /** Replaces the rows of table `t`, leaving every other table alone. */
    method SetRows(t: Table, rows: seq<LogRow>)
      modifies this
      ensures Rows(t) == rows
      ensures forall u: Table :: u != t ==> Rows(u) == old(Rows(u))
      ensures users == old(users) && nextId == old(nextId)
    {
      match t {
        case SleepLogs => sleepLogs := rows;
        case EnergyLogs => energyLogs := rows;
        case HourlyLogs => hourlyLogs := rows;
        case ThoughtsLogs => thoughtsLogs := rows;
      }
    }

    ghost predicate Valid()
      reads this
    {
      && (forall i, j :: 0 <= i < j < |users| ==> users[i].phoneNumber != users[j].phoneNumber)
      && (forall u :: u in users ==> u.id < nextId)
      && (forall t: Table :: TableValid(Rows(t), t, nextId))
    }

    constructor (faults: map<string, string>)
      ensures Valid() && this.faults == faults
      ensures users == [] && nextId == 0
      ensures forall t: Table :: Rows(t) == []
    {
      users, nextId := [], 0;
      sleepLogs, energyLogs, hourlyLogs, thoughtsLogs := [], [], [], [];
      this.faults := faults;
    }

    /**
     * `createOrGetUser(phoneNumber, displayName)`: the existing user with that phone number,
     * or a new user named `displayName` ("" counts as absent, then the phone number is the name).
     */
    method CreateOrGetUser(phoneNumber: string, displayName: string) returns (r: Result<User>)
      requires Valid()
      modifies this
      ensures Valid()
      ensures forall t: Table :: Rows(t) == old(Rows(t))
      ensures old(FindUser(users, phoneNumber)).Some? ==>
                r == Ok(old(FindUser(users, phoneNumber)).value) && users == old(users) && nextId == old(nextId)
      ensures old(FindUser(users, phoneNumber)).None? && "users" in faults ==>
                r == Err(Remote(faults["users"])) && users == old(users) && nextId == old(nextId)
      ensures old(FindUser(users, phoneNumber)).None? && "users" !in faults ==>
                && r == Ok(User(old(nextId), phoneNumber, if displayName != "" then displayName else phoneNumber))
                && users == old(users) + [r.value] && nextId == old(nextId) + 1
      ensures r.Ok? ==> FindUser(users, phoneNumber) == Some(r.value)
    {
      var existing := FindUser(users, phoneNumber);
      if existing.Some? {
        return Ok(existing.value);
      }
      if "users" in faults {
        return Err(Remote(faults["users"]));
      }
      var u := User(nextId, phoneNumber, if displayName != "" then displayName else phoneNumber);
      FindUserAppended(users, u);
      users := users + [u];
      nextId := nextId + 1;
      forall t: Table ensures TableValid(Rows(t), t, nextId) {
        assert TableValid(old(Rows(t)), t, old(nextId));
      }
      r := Ok(u);
    }

    /** One insert into table `t`; every `save*LogDB` is this with its own table and columns. */
    method Insert(t: Table, userId: nat, data: LogData, now: int) returns (r: Result<LogRow>)
      requires Valid() && data.Home() == t
      modifies this
      ensures Valid()
      ensures users == old(users)
      ensures forall u: Table :: u != t ==> Rows(u) == old(Rows(u))
      ensures t.Name() in faults ==>
                r == Err(Remote(faults[t.Name()])) && Rows(t) == old(Rows(t)) && nextId == old(nextId)
      ensures t.Name() !in faults ==>
                && r == Ok(LogRow(old(nextId), userId, now, data))
                && Rows(t) == old(Rows(t)) + [r.value] && nextId == old(nextId) + 1
    {
      if t.Name() in faults {
        return Err(Remote(faults[t.Name()]));
      }
      var row := LogRow(nextId, userId, now, data);
      SetRows(t, Rows(t) + [row]);
      nextId := nextId + 1;
      forall u: Table ensures TableValid(Rows(u), u, nextId) {
        assert TableValid(old(Rows(u)), u, old(nextId));
      }
      r := Ok(row);
    }

    /** `saveSleepLogDB`: appends one sleep row; `today` is the date part of the current time. */
    method SaveSleepLog(userId: nat, bedtime: string, wakeTime: string, quality: int, tiredness: int,
                        today: string, now: int) returns (r: Result<LogRow>)
      requires Valid()
      modifies this
      ensures Valid()
      ensures users == old(users)
      ensures forall u: Table :: u != SleepLogs ==> Rows(u) == old(Rows(u))
      ensures "sleep_logs" in faults ==>
                r == Err(Remote(faults["sleep_logs"])) && sleepLogs == old(sleepLogs) && nextId == old(nextId)
      ensures "sleep_logs" !in faults ==>
                && r == Ok(LogRow(old(nextId), userId, now, SleepData(bedtime, wakeTime, quality, tiredness, today)))
                && sleepLogs == old(sleepLogs) + [r.value] && nextId == old(nextId) + 1
    {
      r := Insert(SleepLogs, userId, SleepData(bedtime, wakeTime, quality, tiredness, today), now);
    }

    /** `saveEnergyLogDB`: appends one energy row. */
    method SaveEnergyLog(userId: nat, energyLevel: int, now: int) returns (r: Result<LogRow>)
      requires Valid()
      modifies this
      ensures Valid()
      ensures users == old(users)
      ensures forall u: Table :: u != EnergyLogs ==> Rows(u) == old(Rows(u))
      ensures "energy_logs" in faults ==>
                r == Err(Remote(faults["energy_logs"])) && energyLogs == old(energyLogs) && nextId == old(nextId)
      ensures "energy_logs" !in faults ==>
                && r == Ok(LogRow(old(nextId), userId, now, EnergyData(energyLevel)))
                && energyLogs == old(energyLogs) + [r.value] && nextId == old(nextId) + 1
    {
      r := Insert(EnergyLogs, userId, EnergyData(energyLevel), now);
    }

    /** `saveHourlyLogDB`: appends one hourly row. */
    method SaveHourlyLog(userId: nat, rating: int, activity: string, now: int) returns (r: Result<LogRow>)
      requires Valid()
      modifies this
      ensures Valid()
      ensures users == old(users)
      ensures forall u: Table :: u != HourlyLogs ==> Rows(u) == old(Rows(u))
      ensures "hourly_logs" in faults ==>
                r == Err(Remote(faults["hourly_logs"])) && hourlyLogs == old(hourlyLogs) && nextId == old(nextId)
      ensures "hourly_logs" !in faults ==>
                && r == Ok(LogRow(old(nextId), userId, now, HourlyData(rating, activity)))
                && hourlyLogs == old(hourlyLogs) + [r.value] && nextId == old(nextId) + 1
    {
      r := Insert(HourlyLogs, userId, HourlyData(rating, activity), now);
    }

    /** `saveThoughtLogDB`: appends one thought row. */
    method SaveThoughtLog(userId: nat, content: string, logType: string, now: int) returns (r: Result<LogRow>)
      requires Valid()
      modifies this
      ensures Valid()
      ensures users == old(users)
      ensures forall u: Table :: u != ThoughtsLogs ==> Rows(u) == old(Rows(u))
      ensures "thoughts_logs" in faults ==>
                r == Err(Remote(faults["thoughts_logs"])) && thoughtsLogs == old(thoughtsLogs) && nextId == old(nextId)
      ensures "thoughts_logs" !in faults ==>
                && r == Ok(LogRow(old(nextId), userId, now, ThoughtData(content, logType)))
                && thoughtsLogs == old(thoughtsLogs) + [r.value] && nextId == old(nextId) + 1
    {
      r := Insert(ThoughtsLogs, userId, ThoughtData(content, logType), now);
    }

    /** The user `uid` has no row in any log table. */
    ghost predicate HasNoRows(uid: nat)
      reads this
    {
      forall t: Table, x :: x in Rows(t) ==> x.userId != uid
    }

    /** Having no rows is a property of the tables alone. */
    lemma HasNoRowsOfLogs(uid: nat)
      ensures HasNoRows(uid) <==> NoRowsOf(Logs(), uid)
    {
    }

    /** `e` is the entry undo should remove for user `uid`: a row of the user in its table,
        no later row of the user in any table, and every row of the user in a table scanned
        earlier strictly older. */
    ghost predicate IsMostRecent(e: Entry, uid: nat)
      reads this
    {
      && e.row in Rows(e.table) && e.row.userId == uid
      && e.row == LatestRow(Rows(e.table), uid).value
      && (forall t: Table, x :: x in Rows(t) && x.userId == uid ==> x.loggedAt <= e.row.loggedAt)
      && (forall t: Table, x :: x in Rows(t) && x.userId == uid && t.Rank() < e.table.Rank() ==>
            x.loggedAt < e.row.loggedAt)
    }

    /** The user has no row in the first `i` tables of the scan. */
    ghost predicate NoRowsBefore(i: nat, uid: nat)
      reads this
    {
      forall k, x :: 0 <= k < i && k < |ScanOrder| && x in Rows(ScanOrder[k]) ==> x.userId != uid
    }

    /** `e` is what the scan keeps after the first `i` tables. */
    ghost predicate BestBefore(e: Entry, i: nat, uid: nat)
      reads this
    {
      && e.table.Rank() < i
      && LatestRow(Rows(e.table), uid) == Some(e.row)
      && forall k, x :: 0 <= k < i && k < |ScanOrder| && x in Rows(ScanOrder[k]) && x.userId == uid ==>
           x.loggedAt <= e.row.loggedAt && (k < e.table.Rank() ==> x.loggedAt < e.row.loggedAt)
    }

    ghost predicate ScanInvariant(r: Option<Entry>, i: nat, uid: nat)
      reads this
    {
      (r.None? <==> NoRowsBefore(i, uid)) && (r.Some? ==> BestBefore(r.value, i, uid))
    }

    /** One iteration of the scan keeps its invariant. */
    lemma ScanStep(r: Option<Entry>, i: nat, uid: nat, r': Option<Entry>)
      requires i < 4 && ScanInvariant(r, i, uid)
      requires var data := LatestRow(Rows(ScanOrder[i]), uid);
               r' == if data.Some? && (r.None? || data.value.loggedAt > r.value.row.loggedAt)
                     then Some(Entry(data.value, ScanOrder[i])) else r
      ensures ScanInvariant(r', i + 1, uid)
    {
      ScanOrderRanks();
      var data := LatestRow(Rows(ScanOrder[i]), uid);
      if r'.Some? {
        forall k, x | 0 <= k < i + 1 && x in Rows(ScanOrder[k]) && x.userId == uid
          ensures x.loggedAt <= r'.value.row.loggedAt
          ensures k < r'.value.table.Rank() ==> x.loggedAt < r'.value.row.loggedAt
        {
          if k < i {
            assert r.Some?;
          }
        }
      }
    }

    /** After all four tables the invariant is the specification of `getLastUserEntry`. */
    lemma ScanDone(r: Option<Entry>, uid: nat)
      requires ScanInvariant(r, 4, uid)
      ensures r.None? <==> forall t: Table, x :: x in Rows(t) ==> x.userId != uid
      ensures r.Some? ==> IsMostRecent(r.value, uid)
    {
      ScanOrderRanks();
      forall t: Table, x | x in Rows(t) && x.userId == uid
        ensures r.Some? && x.loggedAt <= r.value.row.loggedAt
        ensures t.Rank() < r.value.table.Rank() ==> x.loggedAt < r.value.row.loggedAt
      {
        assert x in Rows(ScanOrder[t.Rank()]);
      }
      if r.None? {
        forall t: Table, x | x in Rows(t) ensures x.userId != uid {
          assert x in Rows(ScanOrder[t.Rank()]);
        }
      }
    }

    /** At most one entry is the most recent: ties in time go to the table scanned first. */
    lemma MostRecentUnique(e: Entry, f: Entry, uid: nat)
      requires IsMostRecent(e, uid) && IsMostRecent(f, uid)
      ensures e == f
    {
      assert e.row.loggedAt == f.row.loggedAt;
      assert e.table.Rank() == f.table.Rank();
    }

    /**
     * `getLastUserEntry(phoneNumber)`: look the user up, then scan the four tables in order,
     * keeping a table's latest row only when it is strictly later than the best so far.
     * `None` when the user does not exist or has no row anywhere.
     */
    method GetLastUserEntry(phoneNumber: string) returns (r: Option<Entry>)
      requires Valid()
      ensures FindUser(users, phoneNumber).None? ==> r.None?
      ensures FindUser(users, phoneNumber).Some? ==>
                var uid := FindUser(users, phoneNumber).value.id;
                && (r.None? <==> HasNoRows(uid))
                && (r.Some? ==> IsMostRecent(r.value, uid))
    {
      var user := FindUser(users, phoneNumber);
      if user.None? {
        return None;
      }
      var uid := user.value.id;
      r := None;
      var bestTime := 0;
      for i := 0 to 4
        invariant ScanInvariant(r, i, uid)
        invariant r.Some? ==> bestTime == r.value.row.loggedAt
      {
        var t := ScanOrder[i];
        var data := LatestRow(Rows(t), uid);
        ghost var before := r;
        if data.Some? && (r.None? || data.value.loggedAt > bestTime) {
          r := Some(Entry(data.value, t));
          bestTime := data.value.loggedAt;
        }
        ScanStep(before, i, uid, r);
      }
      ScanDone(r, uid);
    }

    /**
     * `deleteLogEntry(entryId, tableName)`: remove the row with that id from the named table
     * and return it. A name other than the four log tables, or a missing row, is an error and
     * changes nothing.
     */
    method DeleteLogEntry(entryId: nat, tableName: string) returns (r: Result<LogRow>)
      requires Valid()
      modifies this
      ensures Valid()
      ensures users == old(users) && nextId == old(nextId)
      ensures TableNamed(tableName).None? ==>
                r == Err(NoSuchTable(tableName)) && forall t: Table :: Rows(t) == old(Rows(t))
      ensures TableNamed(tableName).Some? ==>
                var t := TableNamed(tableName).value;
                && (forall u: Table :: u != t ==> Rows(u) == old(Rows(u)))
                && ((forall x :: x in old(Rows(t)) ==> x.id != entryId) ==>
                      r == Err(NoRow) && Rows(t) == old(Rows(t)))
                && (r.Ok? <==> exists x :: x in old(Rows(t)) && x.id == entryId)
                && (r.Ok? ==> exists k :: 0 <= k < |old(Rows(t))| && old(Rows(t))[k] == r.value
                                && r.value.id == entryId
                                && Rows(t) == old(Rows(t))[..k] + old(Rows(t))[k + 1..])
    {
      var table := TableNamed(tableName);
      if table.None? {
        return Err(NoSuchTable(tableName));
      }
      var t := table.value;
      var rows := Rows(t);
      var k := RowIndex(rows, entryId);
      if k == -1 {
        return Err(NoRow);
      }
      RemoveKeepsValid(rows, k, t, nextId);
      SetRows(t, rows[..k] + rows[k + 1..]);
      forall u: Table ensures TableValid(Rows(u), u, nextId) {
        assert TableValid(old(Rows(u)), u, nextId);
      }
      r := Ok(rows[k]);
    }
  }
}
