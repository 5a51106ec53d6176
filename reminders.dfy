/**
 * The reminder side of the bot (`controllers/messageControllers/reminderController.js`):
 * the allow-list read from configuration, the hour-to-message function, the table of 19 daily
 * slots, the cron expression of each slot, and the delivery of one message to every allowed
 * group, where a failed send to one group does not stop the others.
 */
module Reminders {
  import opened Wrappers
  import opened JsText
  import opened Transport

  /**
   * `getAllowedGroups()`, with `env` the value of `WA_ALLOWED_GROUPS` (`None` when unset):
   * one trimmed entry per comma-separated field, in order. A set variable always gives at
   * least one entry, even when it is empty (`AllowedGroupsOfEmptyVariable`).
   */
  function GetAllowedGroups(env: Option<string>): (groups: seq<string>)
    ensures env.None? ==> groups == []
    ensures env.Some? ==> |groups| >= 1
  {
    match env
    case None => []
    case Some(s) =>
      var fields := Split(s, ',');
      seq(|fields|, i requires 0 <= i < |fields| => Trim(fields[i]))
  }

  /** No entry of the allow-list has surrounding white space or a comma. */
  lemma AllowedGroupsShape(env: Option<string>)
    ensures forall g :: g in GetAllowedGroups(env) ==> Trim(g) == g && ',' !in g
  {
    var groups := GetAllowedGroups(env);
    forall g | g in groups
      ensures Trim(g) == g && ',' !in g
    {
      var i :| 0 <= i < |groups| && groups[i] == g;
      var f := Split(env.value, ',')[i];
      TrimIdempotent(f);
      TrimKeepsOut(f, ',');
    }
  }

  /** A list written out as comma-separated identifiers is read back exactly. */
  lemma AllowedGroupsRoundTrip(ids: seq<string>)
    requires |ids| >= 1
    requires forall i :: 0 <= i < |ids| ==> ',' !in ids[i] && Trim(ids[i]) == ids[i]
    ensures GetAllowedGroups(Some(Join(ids, ','))) == ids
  {
    JoinSplit(ids, ',');
  }

  /** A variable that is set but empty is not an empty list: it is one empty identifier. */
  lemma AllowedGroupsOfEmptyVariable()
    ensures GetAllowedGroups(Some("")) == [""]
  {
    assert Split("", ',') == [""];
  }

  const SleepReminder: string :=
    "🌅 Good morning! Time to log your sleep! Use /sleep [bedtime] [waketime] [quality 1-5] [tiredness 1-5]"
  const EnergyReminder: string :=
    "⚡ Mid-morning energy check! How's your energy level right now? Use /energy [1-5]"
  const HourReminder: string := "🕐 Make sure to log your hour and energy"
  const TestReminderText: string :=
    "🧪 Test hourly reminder! This is what you'll receive every hour from 6am-12am!"

  /** `getHourlyMessage(hour)`: the sleep prompt at 6, the energy prompt at 11, one generic
      prompt at every other hour. */
  function HourlyMessage(hour: int): (m: string)
    ensures m in {SleepReminder, EnergyReminder, HourReminder}
  {
    if hour == 6 then SleepReminder
    else if hour == 11 then EnergyReminder
    else HourReminder
  }

  /** Each prompt is sent at exactly the hours `getHourlyMessage` picks it for. */
  lemma HourlyMessageHours(hour: int)
    ensures HourlyMessage(hour) == SleepReminder <==> hour == 6
    ensures HourlyMessage(hour) == EnergyReminder <==> hour == 11
    ensures HourlyMessage(hour) == HourReminder <==> hour != 6 && hour != 11
  {
    // the three prompts have different lengths
    assert |HourReminder| < |EnergyReminder| < |SleepReminder|;
  }

  /** A reminder slot: `time` is "HH:MM", `message` the text sent then. */
  datatype Slot = Slot(time: string, message: string)

  /** `` `${hour.toString().padStart(2, "0")}:00` ``. */
  function HourLabel(hour: nat): string {
    PadTwo(NatToDecimal(hour)) + ":00"
  }

  /** The label of an hour of the day is two digits, a colon and "00", and its digits read back
      as the hour. */
  lemma HourLabelShape(hour: nat)
    requires hour < 24
    ensures |HourLabel(hour)| == 5 && HourLabel(hour)[2..] == ":00"
    ensures HourLabel(hour)[..2] == [DigitChar(hour / 10), DigitChar(hour % 10)]
    ensures ParseInt(HourLabel(hour)) == Some(hour)
  {
    var hhmm := HourLabel(hour);
    if hour < 10 {
      assert NatToDecimal(hour) == [DigitChar(hour)];
      assert hhmm == ['0', DigitChar(hour), ':', '0', '0'];
      NoLeadingSpace(hhmm);
      assert IsDigitIn(hhmm[0], 10) && IsDigitIn(hhmm[1], 10) && !IsDigitIn(hhmm[2], 10);
      assert DigitRun(hhmm, 10) == 2;
      assert hhmm[..2] == ['0', DigitChar(hour)];
      assert DigitsValue(['0'], 10) == 0;
      assert hhmm[..2][..1] == ['0'];
    } else {
      var d := NatToDecimal(hour);
      assert d == NatToDecimal(hour / 10) + [DigitChar(hour % 10)];
      assert NatToDecimal(hour / 10) == [DigitChar(hour / 10)];
      ParseIntStopsAtNonDigit(hour, ":00");
    }
  }

  /**
   * `generateHourlyReminders()`: one slot per hour from 06:00 to 23:00 in increasing order,
   * then 00:00, each with that hour's message.
   */
  method GenerateHourlyReminders() returns (reminders: seq<Slot>)
    ensures |reminders| == 19
    ensures forall i :: 0 <= i < 18 ==> reminders[i] == Slot(HourLabel(i + 6), HourlyMessage(i + 6))
    ensures reminders[18] == Slot("00:00", HourlyMessage(0))
  {
    reminders := [];
    for hour := 6 to 24
      invariant |reminders| == hour - 6
      invariant forall i :: 0 <= i < hour - 6 ==> reminders[i] == Slot(HourLabel(i + 6), HourlyMessage(i + 6))
    {
      reminders := reminders + [Slot(HourLabel(hour), HourlyMessage(hour))];
    }
    reminders := reminders + [Slot("00:00", HourlyMessage(0))];
  }

  /** `` const [hour, minute] = time.split(":"); `${minute} ${hour} * * *` `` */
  function CronExpression(time: string): string {
    var fields := Split(time, ':');
    var minute := if |fields| >= 2 then fields[1] else "undefined";
    minute + " " + fields[0] + " * * *"
  }

  /** The cron expression of "HH:MM" is "MM HH * * *": every day at that hour and minute. */
  lemma CronOfTime(hh: string, mm: string)
    requires ':' !in hh && ':' !in mm
    ensures CronExpression(hh + ":" + mm) == mm + " " + hh + " * * *"
  {
    JoinSplit([hh, mm], ':');
    assert Join([hh, mm], ':') == hh + [':'] + Join([mm], ':');
  }

  /** Each hourly slot fires at minute 0 of its hour. */
  lemma CronOfSlot(hour: nat)
    requires hour < 24
    ensures CronExpression(HourLabel(hour)) == HourLabel(hour)[3..] + " " + HourLabel(hour)[..2] + " * * *"
    ensures HourLabel(hour)[3..] == "00"
  {
    var hhmm := HourLabel(hour);
    HourLabelShape(hour);
    var hh, mm := hhmm[..2], hhmm[3..];
    assert hhmm[2..][1..] == mm;
    assert hhmm == hh + ":" + mm;
    assert ':' !in hh by { assert hh[0] == DigitChar(hour / 10) && hh[1] == DigitChar(hour % 10); }
    CronOfTime(hh, mm);
  }

  /** One `cron.schedule` registration: the expression, the slot, and the groups the firing
      sends to (the allow-list as read when the reminders were armed). */
  datatype Job = Job(cron: string, time: string, message: string, groups: seq<string>)

  /**
   * `startScheduledReminders(sock)` over `reminderTimes` (the `REMINDER_TIMES` table built by
   * `GenerateHourlyReminders` when the module loads): nothing is scheduled when the allow-list
   * is empty; otherwise one job per slot, in order.
   */
  method StartScheduledReminders(env: Option<string>, reminderTimes: seq<Slot>) returns (jobs: seq<Job>)
    ensures GetAllowedGroups(env) == [] ==> jobs == []
    ensures GetAllowedGroups(env) != [] ==>
              && |jobs| == |reminderTimes|
              && forall i :: 0 <= i < |jobs| ==>
                   jobs[i] == Job(CronExpression(reminderTimes[i].time), reminderTimes[i].time,
                                  reminderTimes[i].message, GetAllowedGroups(env))
  {
    var allowedGroups := GetAllowedGroups(env);
    if |allowedGroups| == 0 {
      return [];
    }
    jobs := [];
    for i := 0 to |reminderTimes|
      invariant |jobs| == i
      invariant forall k :: 0 <= k < i ==>
                  jobs[k] == Job(CronExpression(reminderTimes[k].time), reminderTimes[k].time,
                                 reminderTimes[k].message, allowedGroups)
    {
      var slot := reminderTimes[i];
      jobs := jobs + [Job(CronExpression(slot.time), slot.time, slot.message, allowedGroups)];
    }
  }

  /** What sending `text` to each of `groups` in turn delivers, when sends to `unreachable`
      targets fail. */
  function Deliveries(groups: seq<string>, text: string, unreachable: set<string>): seq<Outgoing> {
    if groups == [] then []
    else
      var last := groups[|groups| - 1];
      Deliveries(groups[..|groups| - 1], text, unreachable)
      + Deliver(unreachable, last, text)
  }

  /** Every reachable group receives the text, whichever other groups fail, and nothing else is
      delivered. */
  lemma {:induction false} DeliveriesReachEveryGroup(groups: seq<string>, text: string, unreachable: set<string>)
    ensures forall g :: g in groups && g !in unreachable ==> Outgoing(g, text) in Deliveries(groups, text, unreachable)
    ensures forall o :: o in Deliveries(groups, text, unreachable) ==>
              o.text == text && o.target in groups && o.target !in unreachable
  {
    if groups != [] {
      var init := groups[..|groups| - 1];
      DeliveriesReachEveryGroup(init, text, unreachable);
      assert groups == init + [groups[|groups| - 1]];
    }
  }

  /** Deliveries keep the order of the list: the first group's message, when it goes through,
      comes first. */
  lemma {:induction false} DeliveriesInOrder(g: string, rest: seq<string>, text: string, unreachable: set<string>)
    ensures Deliveries([g] + rest, text, unreachable)
            == (if g in unreachable then [] else [Outgoing(g, text)]) + Deliveries(rest, text, unreachable)
  {
    if rest != [] {
      var init := rest[..|rest| - 1];
      DeliveriesInOrder(g, init, text, unreachable);
      assert ([g] + rest)[..|[g] + rest| - 1] == [g] + init;
    } else {
      assert [g][..0] == [];
    }
  }

  /** Sends `text` to every group in order; a rejected send is caught and the loop goes on. */
  method FanOut(outbox: Outbox, groups: seq<string>, text: string)
    modifies outbox
    ensures outbox.sent == old(outbox.sent) + Deliveries(groups, text, outbox.unreachable)
  {
    for i := 0 to |groups|
      invariant outbox.sent == old(outbox.sent) + Deliveries(groups[..i], text, outbox.unreachable)
    {
      var _ := outbox.Send(groups[i], text);
      assert groups[..i + 1][..i] == groups[..i];
    }
    assert groups[..|groups|] == groups;
  }

  /** The callback `cron.schedule` runs when a job fires: the slot's message to each group. */
  method FireJob(outbox: Outbox, job: Job)
    modifies outbox
    ensures outbox.sent == old(outbox.sent) + Deliveries(job.groups, job.message, outbox.unreachable)
  {
    FanOut(outbox, job.groups, job.message);
  }

  /** `sendTestReminder(sock)`: the test text to every allowed group (none when the list is empty). */
  method SendTestReminder(outbox: Outbox, env: Option<string>)
    modifies outbox
    ensures outbox.sent == old(outbox.sent) + Deliveries(GetAllowedGroups(env), TestReminderText, outbox.unreachable)
    ensures old(outbox.sent) <= outbox.sent
  {
    FanOut(outbox, GetAllowedGroups(env), TestReminderText);
  }
}
