/**
 * The three command validators under `controllers/messageControllers/handleCommands/`:
 * `handleEnergyLog`, `handleSleepLog` and `handleHourlyCheckinLog`. Each splits the trimmed
 * text on single spaces, checks the token count, then the format, then the integer range, and
 * ends in exactly one action: a usage reply or one `handleLogs` call. That action is the
 * `Outcome` each function returns.
 */
module LogCommands {
  import opened Wrappers
  import opened JsText
  import opened LogWriter
  import Reminders

  /** What a validator ends in: one reply to the chat, or one `handleLogs` call with these
      parameters. */
  datatype Outcome = Reply(text: string) | Log(request: LogRequest)

  // ---------------------------------------------------------------- /energy

  const EnergyRangeReply: string := "❌ Energy level must be 1-5\nExample: /energy 4"
  const EnergyFormatReply: string := "❌ Invalid format!\nUse: /energy [1-5]\nExample: /energy 4"

  /** `handleEnergyLog(messageText, ...)`. */
  function HandleEnergyLog(messageText: string): Outcome {
    var parts := Tokens(messageText);
    if |parts| == 2 then
      var energyLevel := ParseInt(parts[1]);
      if InRange(energyLevel, 1, 5) then Log(EnergyRequest(energyLevel.value))
      else Reply(EnergyRangeReply)
    else Reply(EnergyFormatReply)
  }

  /** "/energy w" logs exactly when `w` reads as a number from 1 to 5, and logs that number;
      anything else, `NaN` included, gets the range reply. */
  lemma EnergyOfWord(command: string, w: string)
    requires IsWord(command) && IsWord(w)
    ensures HandleEnergyLog(command + " " + w)
            == if InRange(ParseInt(w), 1, 5) then Log(EnergyRequest(ParseInt(w).value)) else Reply(EnergyRangeReply)
  {
    WordsRoundTrip([command, w]);
    assert Join([command, w], ' ') == command + " " + w;
  }

  /** "/energy n" logs `n` exactly when 1 <= n <= 5. */
  lemma EnergyOfNumber(n: int)
    ensures HandleEnergyLog("/energy " + IntToDecimal(n))
            == if 1 <= n <= 5 then Log(EnergyRequest(n)) else Reply(EnergyRangeReply)
  {
    var command, d := "/energy", IntToDecimal(n);
    NumeralIsWord(n);
    EnergyOfWord(command, d);
    assert command + " " == "/energy ";
    ParseIntDecimal(n);
  }

  /** Any number of words other than two gets the format reply. */
  lemma EnergyWordCount(words: seq<string>)
    requires |words| >= 1 && |words| != 2
    requires forall i :: 0 <= i < |words| ==> IsWord(words[i])
    ensures HandleEnergyLog(Join(words, ' ')) == Reply(EnergyFormatReply)
  {
    WordsRoundTrip(words);
  }

  /** A doubled space makes an empty token, so the count is wrong and the format reply
      goes out, whatever the level. */
  lemma EnergyDoubleSpace(command: string, w: string)
    requires IsWord(command) && IsWord(w)
    ensures HandleEnergyLog(command + "  " + w) == Reply(EnergyFormatReply)
  {
    var words := [command, "", w];
    WordsRoundTrip(words);
    assert Join(words[1..], ' ') == "" + " " + w;
    assert Join(words, ' ') == command + "  " + w;
  }

  // ---------------------------------------------------------------- /sleep

  const BedtimeReply: string := "❌ Invalid bedtime format! Use HH:MM (24-hour)\nExample: /sleep 23:00 07:00 4 2"
  const WakeTimeReply: string := "❌ Invalid wake time format! Use HH:MM (24-hour)\nExample: /sleep 23:00 07:00 4 2"
  const ScoresReply: string := "❌ Quality and tiredness must be 1-5\nExample: /sleep 23:00 07:00 4 2"
  const SleepFormatReply: string :=
    "❌ Invalid format!\nUse: /sleep [bedtime] [waketime] [quality 1-5] [tiredness 1-5]\nExample: /sleep 23:00 07:00 4 2"

  predicate IsDecimalDigit(c: char) {
    '0' <= c <= '9'
  }

  /** `[01]?[0-9]|2[0-3]`. */
  predicate MatchesHour(h: string) {
    || (|h| == 1 && IsDecimalDigit(h[0]))
    || (|h| == 2 && (h[0] == '0' || h[0] == '1') && IsDecimalDigit(h[1]))
    || (|h| == 2 && h[0] == '2' && '0' <= h[1] <= '3')
  }

  /** `/^([01]?[0-9]|2[0-3]):[0-5][0-9]$/.test(s)`. */
  predicate MatchesTime(s: string) {
    && |s| >= 4
    && MatchesHour(s[..|s| - 3])
    && s[|s| - 3] == ':' && '0' <= s[|s| - 2] <= '5' && IsDecimalDigit(s[|s| - 1])
  }

  /** The two digits of a number below 100. */
  function TwoDigits(n: nat): string
    requires n < 100
  {
    [DigitChar(n / 10), DigitChar(n % 10)]
  }

  /** `s` writes the time `h`:`m` of a 24-hour clock: the hour in one digit (below 10) or two,
      the minute always in two. */
  ghost predicate Spells(s: string, h: nat, m: nat) {
    && h < 24 && m < 60
    && (s == TwoDigits(h) + ":" + TwoDigits(m) || (h < 10 && s == [DigitChar(h)] + ":" + TwoDigits(m)))
  }

  lemma DigitCharValue(c: char)
    requires IsDecimalDigit(c)
    ensures 0 <= DigitValue(c) < 10 && DigitChar(DigitValue(c)) == c
  {
  }

  /** The time pattern accepts exactly the texts that spell a time of day. */
  lemma MatchesTimeIff(s: string)
    ensures MatchesTime(s) <==> exists h: nat, m: nat :: Spells(s, h, m)
  {
    if MatchesTime(s) {
      var hs := s[..|s| - 3];
      DigitCharValue(s[|s| - 2]);
      DigitCharValue(s[|s| - 1]);
      var m: nat := 10 * DigitValue(s[|s| - 2]) + DigitValue(s[|s| - 1]);
      assert TwoDigits(m) == s[|s| - 2..];
      DigitCharValue(hs[0]);
      if |hs| == 1 {
        var h: nat := DigitValue(hs[0]);
        assert s == [DigitChar(h)] + ":" + TwoDigits(m);
        assert Spells(s, h, m);
      } else {
        DigitCharValue(hs[1]);
        var h: nat := 10 * DigitValue(hs[0]) + DigitValue(hs[1]);
        assert s == TwoDigits(h) + ":" + TwoDigits(m);
        assert Spells(s, h, m);
      }
    }
  }

  /** Texts that the pattern takes and leaves. */
  lemma TimeExamples()
    ensures MatchesTime("7:05") && MatchesTime("23:59") && MatchesTime("07:00")
    ensures !MatchesTime("24:00") && !MatchesTime("7:60") && !MatchesTime("123:00")
  {
    assert "7:05"[..1] == "7";
    assert "23:59"[..2] == "23";
    assert "07:00"[..2] == "07";
    assert "24:00"[..2] == "24";
    assert "123:00"[..3] == "123";
  }

  /** Every reminder slot's time is a time the sleep command accepts. */
  lemma SlotTimesMatch(hour: nat)
    requires hour < 24
    ensures MatchesTime(Reminders.HourLabel(hour))
  {
    Reminders.HourLabelShape(hour);
    var s := Reminders.HourLabel(hour);
    assert s[2..][0] == ':' && s[2..][1] == '0' && s[2..][2] == '0';
    TwoDigitHour(hour);
  }

  /** An hour of the day written in two digits matches the hour part of the pattern. */
  lemma TwoDigitHour(hour: nat)
    requires hour < 24
    ensures MatchesHour([DigitChar(hour / 10), DigitChar(hour % 10)])
  {
    if hour < 10 {
      assert hour / 10 == 0;
    } else if hour < 20 {
      assert hour / 10 == 1;
    } else {
      assert hour / 10 == 2 && hour % 10 <= 3;
    }
  }

  /** `handleSleepLog(messageText, ...)`: bedtime is checked before wake time, and both
      scores together after. */
  function HandleSleepLog(messageText: string): Outcome {
    var parts := Tokens(messageText);
    if |parts| == 5 then
      var bedtime := parts[1];
      var waketime := parts[2];
      var quality := ParseInt(parts[3]);
      var tiredness := ParseInt(parts[4]);
      if !MatchesTime(bedtime) then Reply(BedtimeReply)
      else if !MatchesTime(waketime) then Reply(WakeTimeReply)
      else if InRange(quality, 1, 5) && InRange(tiredness, 1, 5) then
        Log(SleepRequest(bedtime, waketime, quality.value, tiredness.value))
      else Reply(ScoresReply)
    else Reply(SleepFormatReply)
  }

  /** "/sleep b w q t" written with single spaces: the first failing check answers, and when
      none fails the raw times and the parsed scores are logged. */
  lemma SleepOfWords(command: string, b: string, w: string, q: string, t: string)
    requires IsWord(command) && IsWord(b) && IsWord(w) && IsWord(q) && IsWord(t)
    ensures HandleSleepLog(command + " " + b + " " + w + " " + q + " " + t)
            == if !MatchesTime(b) then Reply(BedtimeReply)
               else if !MatchesTime(w) then Reply(WakeTimeReply)
               else if InRange(ParseInt(q), 1, 5) && InRange(ParseInt(t), 1, 5) then
                 Log(SleepRequest(b, w, ParseInt(q).value, ParseInt(t).value))
               else Reply(ScoresReply)
  {
    var words := [command, b, w, q, t];
    WordsRoundTrip(words);
    JoinFive(command, b, w, q, t);
  }

  lemma JoinFive(command: string, b: string, w: string, q: string, t: string)
    ensures Join([command, b, w, q, t], ' ') == command + " " + b + " " + w + " " + q + " " + t
  {
    var words := [command, b, w, q, t];
    assert Join(words[3..], ' ') == q + " " + t;
    assert Join(words[2..], ' ') == w + " " + q + " " + t;
    assert Join(words[1..], ' ') == b + " " + w + " " + q + " " + t;
  }

  /** Any number of words other than five gets the format reply, whatever the words are. */
  lemma SleepWordCount(words: seq<string>)
    requires |words| >= 1 && |words| != 5
    requires forall i :: 0 <= i < |words| ==> IsWord(words[i])
    ensures HandleSleepLog(Join(words, ' ')) == Reply(SleepFormatReply)
  {
    WordsRoundTrip(words);
  }

  lemma ExampleFields(b: string, w: string, q: string, t: string)
    requires b == "23:00" && w == "07:00" && q == "4" && t == "2"
    ensures MatchesTime(b) && MatchesTime(w) && ParseInt(q) == Some(4) && ParseInt(t) == Some(2)
  {
    assert b[..2] == "23" && w[..2] == "07";
    ParseIntDecimal(4);
    ParseIntDecimal(2);
    assert IntToDecimal(4) == q && IntToDecimal(2) == t;
  }

  /** The example the usage replies give, "/sleep 23:00 07:00 4 2", is logged as it reads. */
  lemma SleepExample(c: string, b: string, w: string, q: string, t: string)
    requires c == "/sleep" && b == "23:00" && w == "07:00" && q == "4" && t == "2"
    ensures HandleSleepLog(c + " " + b + " " + w + " " + q + " " + t) == Log(SleepRequest(b, w, 4, 2))
  {
    ExampleFields(b, w, q, t);
    VisibleIsWord(c);
    VisibleIsWord(b);
    VisibleIsWord(w);
    VisibleIsWord(q);
    VisibleIsWord(t);
    SleepOfWords(c, b, w, q, t);
  }

  // ---------------------------------------------------------------- /checkin

  const RatingReply: string := "❌ Rating must be 1-3\nExample: /checkin 3 worked on project and had lunch"
  const CheckinFormatReply: string :=
    "❌ Invalid format!\nUse: /checkin [1-3] [note]\nExample: /checkin 3 was coding all hour"

  /** The note as the code computes it: the text from the first occurrence of the third token
      (of "undefined" when there is none), trimmed. */
  function CheckinNoteAsWritten(messageText: string): string {
    var parts := Tokens(messageText);
    var third := if |parts| > 2 then parts[2] else "undefined";
    Trim(Substring(messageText, IndexOf(messageText, third)))
  }

  /** The first occurrence of the third token can lie inside the command: for
      "/checkin 2 c" the "c" of "checkin" is found, and the note keeps most of the command. */
  lemma CheckinNoteAsWrittenFindsEarlierOccurrence(c: string, r: string, n: string)
    requires c == "/checkin" && r == "2" && n == "c"
    ensures CheckinNoteAsWritten(c + " " + r + " " + n) == "checkin 2 c"
  {
    var text := c + " " + r + " " + n;
    var words := [c, r, n];
    WordsRoundTrip(words);
    assert Join(words[1..], ' ') == r + " " + n;
    assert Join(words, ' ') == text;
    assert OccursAt(text, n, 1) && !OccursAt(text, n, 0);
    assert IndexOf(text, n) == 1;
    var note := text[1..];
    assert note == "checkin 2 c";
    TrimUnpadded(note);
  }

  /** With no third token the search is for "undefined"; when it is absent the note is the
      whole command: "/checkin 3" is logged with the note "/checkin 3". */
  lemma CheckinNoteAsWrittenWithoutNote(c: string, r: string)
    requires c == "/checkin" && r == "3"
    ensures CheckinNoteAsWritten(c + " " + r) == c + " " + r
  {
    var text := c + " " + r;
    WordsRoundTrip([c, r]);
    assert Join([c, r], ' ') == text;
    NotContainsShort(text, "undefined", "");
    assert text + "" == text;
    TrimUnpadded(text);
  }

  /** With two tokens, the as-written note is the whole trimmed message unless the text
      contains "undefined". */
  lemma CheckinNoteAsWrittenTwoTokens(messageText: string)
    requires |Tokens(messageText)| == 2 && !Contains(messageText, "undefined")
    ensures CheckinNoteAsWritten(messageText) == Trim(messageText)
  {
  }

  /** The note the check-in evidently means: the trimmed text after the command and the
      rating, "" when there is none. */
  function CheckinNote(messageText: string): string {
    var parts := Tokens(messageText);
    if |parts| < 2 then ""
    else Trim(Substring(Trim(messageText), |parts[0]| + |parts[1]| + 2))
  }

  /** A note that neither starts nor ends with white space. */
  predicate IsTrimmed(note: string) {
    note == [] || (!IsJsSpace(note[0]) && !IsJsSpace(note[|note| - 1]))
  }

  /** "c r" followed, when the note is not empty, by a space and the note. */
  function CheckinText(c: string, r: string, note: string): string {
    c + " " + r + (if note == [] then "" else " " + note)
  }

  lemma CheckinTextTrimmed(c: string, r: string, note: string)
    requires IsWord(c) && IsWord(r) && IsTrimmed(note)
    ensures Trim(CheckinText(c, r, note)) == CheckinText(c, r, note)
  {
    var text := CheckinText(c, r, note);
    assert text[0] == c[0];
    if note == [] {
      assert text[|text| - 1] == r[|r| - 1];
    } else {
      assert text[|text| - 1] == note[|note| - 1];
    }
    TrimUnpadded(text);
  }

  /** The first two tokens of "c r note" are `c` and `r`, and a third exists exactly when
      there is a note. */
  lemma CheckinTokens(c: string, r: string, note: string)
    requires IsWord(c) && IsWord(r) && IsTrimmed(note)
    ensures var parts := Tokens(CheckinText(c, r, note));
            |parts| >= 2 && parts[0] == c && parts[1] == r && (note != [] <==> |parts| > 2)
  {
    var rest := if note == [] then "" else " " + note;
    var tail := r + rest;
    var s1 := [' '] + tail;
    var text := CheckinText(c, r, note);
    assert text == c + s1;
    CheckinTextTrimmed(c, r, note);
    assert IsJsSpace(' ');
    SplitPrefix(c, s1, ' ');
    assert s1[1..] == tail;
    assert Split(s1, ' ') == [""] + Split(tail, ' ');
    SplitPrefix(r, rest, ' ');
    if note != [] {
      assert rest == [' '] + note;
      assert rest[1..] == note;
      assert Split(rest, ' ') == [""] + Split(note, ' ');
    }
  }

  /** For "c r note", the intended note is exactly `note`. */
  lemma CheckinNoteOfCommand(c: string, r: string, note: string)
    requires IsWord(c) && IsWord(r) && IsTrimmed(note)
    ensures CheckinNote(CheckinText(c, r, note)) == note
  {
    var text := CheckinText(c, r, note);
    CheckinTokens(c, r, note);
    CheckinTextTrimmed(c, r, note);
    var k := |c| + |r| + 2;
    assert |Tokens(text)[0]| + |Tokens(text)[1]| + 2 == k;
    if note != [] {
      var pre := c + " " + r + " ";
      assert text == pre + note && |pre| == k;
      assert Substring(text, k) == note by { DropFromPrefix(pre, note, k); }
    } else {
      assert |text| < k;
    }
    TrimUnpadded(note);
  }

  /** The checks of `handleHourlyCheckinLog` once the note is known: at least two tokens, then
      a rating from 1 to 3, which is logged with `note`. */
  function CheckinWith(messageText: string, note: string): Outcome {
    var parts := Tokens(messageText);
    if |parts| >= 2 then
      var rating := ParseInt(parts[1]);
      if InRange(rating, 1, 3) then Log(HourlyRequest(rating.value, note))
      else Reply(RatingReply)
    else Reply(CheckinFormatReply)
  }

  /** `handleHourlyCheckinLog(messageText, ...)` as written: the note is `CheckinNoteAsWritten`. */
  function HandleHourlyCheckinLog(messageText: string): Outcome {
    CheckinWith(messageText, CheckinNoteAsWritten(messageText))
  }

  /** `handleHourlyCheckinLog` as intended: the note is the text after the rating. */
  function HandleHourlyCheckinLogIntended(messageText: string): Outcome {
    CheckinWith(messageText, CheckinNote(messageText))
  }

  /** "c r note" logs the rating exactly when `r` reads as 1, 2 or 3, with the note the code
      computes (see `CheckinNoteAsWrittenEndsWithNote`). */
  lemma CheckinOfCommand(c: string, r: string, note: string)
    requires IsWord(c) && IsWord(r) && IsTrimmed(note)
    ensures var text := CheckinText(c, r, note);
            HandleHourlyCheckinLog(text)
            == if InRange(ParseInt(r), 1, 3) then Log(HourlyRequest(ParseInt(r).value, CheckinNoteAsWritten(text)))
               else Reply(RatingReply)
  {
    CheckinTokens(c, r, note);
  }

  /** The split of "c r note" is `c`, `r`, then the words of the note. */
  lemma CheckinParts(c: string, r: string, note: string)
    requires IsWord(c) && IsWord(r) && IsTrimmed(note) && note != []
    ensures Tokens(CheckinText(c, r, note)) == [c, r] + Split(note, ' ')
  {
    var text := CheckinText(c, r, note);
    assert text == c + [' '] + (r + [' '] + note);
    CheckinTextTrimmed(c, r, note);
    assert ' ' !in c && ' ' !in r by { assert IsJsSpace(' '); }
    TwoFieldsThenRest(c, r, note, ' ');
  }

  /** Two separator-free fields, each followed by the separator, head the split. */
  lemma TwoFieldsThenRest(a: string, b: string, rest: string, sep: char)
    requires sep !in a && sep !in b
    ensures Split(a + [sep] + (b + [sep] + rest), sep) == [a, b] + Split(rest, sep)
  {
    FieldThenSeparator(a, b + [sep] + rest, sep);
    FieldThenSeparator(b, rest, sep);
    assert [a] + ([b] + Split(rest, sep)) == [a, b] + Split(rest, sep);
  }

  /** The first field of a split is where the text starts. */
  lemma FirstFieldIsPrefix(s: string, sep: char)
    ensures StartsWith(s, Split(s, sep)[0])
  {
    SplitJoin(s, sep);
    JoinStart(Split(s, sep), sep);
  }

  /** The first word of a note that follows `pre` is found no later than the note, and the
      text from there on needs no trimming. */
  lemma FirstWordFound(pre: string, note: string)
    requires IsTrimmed(note) && note != []
    ensures var text := pre + note;
            var k := IndexOf(text, Split(note, ' ')[0]);
            0 <= k <= |pre| && Trim(Substring(text, k)) == text[k..]
  {
    var text := pre + note;
    var w := Split(note, ' ')[0];
    assert w != [] && w[0] == note[0] by {
      assert IsJsSpace(' ');
      assert note[0] != ' ';
    }
    FirstFieldIsPrefix(note, ' ');
    assert OccursAt(text, w, |pre|) by { assert text[|pre|..|pre| + |w|] == note[..|w|]; }
    var k := IndexOf(text, w);
    assert k != -1 by { assert Contains(text, w); }
    var tail := text[k..];
    assert tail[0] == text[k..k + |w|][0] == note[0];
    assert tail[|tail| - 1] == note[|note| - 1];
    TrimUnpadded(tail);
  }

  /**
   * As written, the note of "c r note" is the text from the first occurrence of the note's
   * first word. That occurrence is at the note itself or earlier, so the logged note always
   * ends with the intended one, and is exactly it when the word does not occur before.
   */
  lemma CheckinNoteAsWrittenEndsWithNote(c: string, r: string, note: string)
    requires IsWord(c) && IsWord(r) && IsTrimmed(note) && note != []
    ensures var text := CheckinText(c, r, note);
            var k := IndexOf(text, Split(note, ' ')[0]);
            && 0 <= k <= |c| + |r| + 2
            && CheckinNoteAsWritten(text) == text[k..]
            && EndsWith(CheckinNoteAsWritten(text), note)
            && (CheckinNoteAsWritten(text) == note <==> k == |c| + |r| + 2)
  {
    var text := CheckinText(c, r, note);
    var pre := c + " " + r + " ";
    assert text == pre + note;
    CheckinParts(c, r, note);
    var w := Split(note, ' ')[0];
    assert Tokens(text)[2] == w;
    FirstWordFound(pre, note);
    var k := IndexOf(text, w);
    assert CheckinNoteAsWritten(text) == Trim(Substring(text, k));
    DropFromPrefix(pre, note, k);
    EndsWithAppended(pre[k..], note);
  }

  /** Dropping part of the first text of a concatenation keeps all of the second. */
  lemma DropFromPrefix(a: string, b: string, k: nat)
    requires k <= |a|
    ensures (a + b)[k..] == a[k..] + b
  {
  }

  /** A concatenation ends with its second text. */
  lemma EndsWithAppended(a: string, b: string)
    ensures EndsWith(a + b, b)
  {
    assert (a + b)[|a|..] == b;
  }

  /** "c r note" logs the rating with exactly `note` under the intended validator. */
  lemma CheckinOfCommandIntended(c: string, r: string, note: string)
    requires IsWord(c) && IsWord(r) && IsTrimmed(note)
    ensures HandleHourlyCheckinLogIntended(CheckinText(c, r, note))
            == if InRange(ParseInt(r), 1, 3) then Log(HourlyRequest(ParseInt(r).value, note)) else Reply(RatingReply)
  {
    CheckinTokens(c, r, note);
    CheckinNoteOfCommand(c, r, note);
  }

  /** A lone command gets the format reply. */
  lemma CheckinWithoutRating(c: string)
    requires IsWord(c)
    ensures HandleHourlyCheckinLog(c) == Reply(CheckinFormatReply)
  {
    WordsRoundTrip([c]);
  }
}
