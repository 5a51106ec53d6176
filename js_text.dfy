/** An optional value; `None` stands for JavaScript's `null`, `undefined` and `NaN` results. */
module Wrappers {
  datatype Option<+T> = None | Some(value: T)
}

/**
 * The JavaScript string built-ins the bot relies on, with their exact edge cases:
 * `split` on a one-character separator, `trim`, `indexOf`, one-argument `substring`,
 * `replace` with a string pattern, `startsWith`, `toLowerCase` (ASCII letters),
 * `parseInt` with no radix, integer-to-string conversion and `padStart(2, "0")`.
 */
module JsText {
  import opened Wrappers

  // ---------------------------------------------------------------- whitespace

  /** The WhiteSpace and LineTerminator code points of ECMAScript: what `trim` and `parseInt` skip. */
  predicate IsJsSpace(c: char) {
    c == '\t' || c == '\n' || c == '\U{000B}' || c == '\U{000C}' || c == '\r' || c == ' '
    || c == '\U{00A0}' || c == '\U{1680}' || ('\U{2000}' <= c <= '\U{200A}')
    || c == '\U{2028}' || c == '\U{2029}' || c == '\U{202F}' || c == '\U{205F}'
    || c == '\U{3000}' || c == '\U{FEFF}'
  }

  predicate AllSpace(s: string) {
    forall i :: 0 <= i < |s| ==> IsJsSpace(s[i])
  }

  /** Length of the run of whitespace that starts `s`. */
  function LeadingSpaces(s: string): (n: nat)
    ensures n <= |s|
    ensures forall i :: 0 <= i < n ==> IsJsSpace(s[i])
    ensures n < |s| ==> !IsJsSpace(s[n])
  {
    if s == [] || !IsJsSpace(s[0]) then 0 else 1 + LeadingSpaces(s[1..])
  }

  /** Length of the run of whitespace that ends `s`. */
  function TrailingSpaces(s: string): (n: nat)
    ensures n <= |s|
    ensures forall i :: |s| - n <= i < |s| ==> IsJsSpace(s[i])
    ensures n < |s| ==> !IsJsSpace(s[|s| - 1 - n])
  {
    if s == [] || !IsJsSpace(s[|s| - 1]) then 0 else 1 + TrailingSpaces(s[..|s| - 1])
  }

  /** `s.trim()`: the infix of `s` left after removing whitespace at both ends. */
  function Trim(s: string): (r: string)
    ensures r == [] || (!IsJsSpace(r[0]) && !IsJsSpace(r[|r| - 1]))
    ensures LeadingSpaces(s) + |r| <= |s| && r == s[LeadingSpaces(s)..LeadingSpaces(s) + |r|]
    ensures forall i :: 0 <= i < |s| && !(LeadingSpaces(s) <= i < LeadingSpaces(s) + |r|) ==> IsJsSpace(s[i])
  {
    var t := s[LeadingSpaces(s)..];
    t[..|t| - TrailingSpaces(t)]
  }

  /** Trimming removes exactly the whitespace padding around a text that has none at its ends. */
  lemma TrimPadded(a: string, m: string, b: string)
    requires AllSpace(a) && AllSpace(b)
    requires m == [] || (!IsJsSpace(m[0]) && !IsJsSpace(m[|m| - 1]))
    ensures Trim(a + m + b) == m
  {
    var s := a + m + b;
    if m == [] {
      forall i | 0 <= i < |s| ensures IsJsSpace(s[i]) {
        if i < |a| { assert s[i] == a[i]; } else { assert s[i] == b[i - |a|]; }
      }
      assert LeadingSpaces(s) == |s|;
    } else {
      forall i | 0 <= i < |a| ensures IsJsSpace(s[i]) { assert s[i] == a[i]; }
      forall i | |a| + |m| <= i < |s| ensures IsJsSpace(s[i]) { assert s[i] == b[i - |a| - |m|]; }
      assert s[|a|] == m[0] && s[|a| + |m| - 1] == m[|m| - 1];
      TrimBetween(s, |a|, |a| + |m|);
      assert s[|a|..|a| + |m|] == m;
    }
  }

  /** Trimming keeps exactly the stretch between whitespace-only ends when that stretch starts
      and ends with a non-whitespace character. */
  lemma TrimBetween(s: string, i: nat, j: nat)
    requires i < j <= |s|
    requires forall k :: 0 <= k < i ==> IsJsSpace(s[k])
    requires forall k :: j <= k < |s| ==> IsJsSpace(s[k])
    requires !IsJsSpace(s[i]) && !IsJsSpace(s[j - 1])
    ensures Trim(s) == s[i..j]
  {
    var r := Trim(s);
    var l := LeadingSpaces(s);
    assert l == i;
    // the last character of the stretch is not whitespace, so it lies inside the result
    assert j - 1 < l + |r|;
    // the last character of the result is not whitespace, so it lies inside the stretch
    assert r[|r| - 1] == s[l + |r| - 1];
  }

  /** Text with no whitespace at either end is its own trim. */
  lemma TrimUnpadded(s: string)
    requires s == [] || (!IsJsSpace(s[0]) && !IsJsSpace(s[|s| - 1]))
    ensures Trim(s) == s
  {
    TrimPadded([], s, []);
    assert [] + s + [] == s;
  }

  /** `trim` is idempotent. */
  lemma TrimIdempotent(s: string)
    ensures Trim(Trim(s)) == Trim(s)
  {
    TrimUnpadded(Trim(s));
  }

  /** Trimming keeps out any character the text did not contain. */
  lemma TrimKeepsOut(s: string, c: char)
    requires c !in s
    ensures c !in Trim(s)
  {
    var k, r := LeadingSpaces(s), Trim(s);
    forall j | 0 <= j < |r|
      ensures r[j] != c
    {
      assert r[j] == s[k + j];
    }
  }

  // ---------------------------------------------------------------- split / join

  /** `s.split(sep)` for a one-character separator: every separator ends a field, so
      adjacent separators give an empty field and the empty string gives one empty field. */
  function Split(s: string, sep: char): (r: seq<string>)
    ensures |r| >= 1
    ensures forall i :: 0 <= i < |r| ==> sep !in r[i]
  {
    if s == [] then [""]
    else
      var rest := Split(s[1..], sep);
      if s[0] == sep then [""] + rest else [[s[0]] + rest[0]] + rest[1..]
  }

  /** `parts.join(sep)` for a one-character separator. */
  function Join(parts: seq<string>, sep: char): string
    requires |parts| >= 1
  {
    if |parts| == 1 then parts[0] else parts[0] + [sep] + Join(parts[1..], sep)
  }

  /** A join ends with the last field's last character. */
  lemma {:induction false} JoinEnd(parts: seq<string>, sep: char)
    requires |parts| >= 1 && parts[|parts| - 1] != []
    ensures |Join(parts, sep)| >= |parts[|parts| - 1]|
    ensures Join(parts, sep)[|Join(parts, sep)| - 1] == parts[|parts| - 1][|parts[|parts| - 1]| - 1]
  {
    if |parts| > 1 {
      var rest := parts[1..];
      assert rest[|rest| - 1] == parts[|parts| - 1];
      JoinEnd(rest, sep);
    }
  }

  /** A join starts with the first field. */
  lemma JoinStart(parts: seq<string>, sep: char)
    requires |parts| >= 1
    ensures |Join(parts, sep)| >= |parts[0]| && Join(parts, sep)[..|parts[0]|] == parts[0]
  {
  }

  /** No character of `w` is JavaScript white space. */
  predicate NoSpace(w: string) {
    forall j :: 0 <= j < |w| ==> !IsJsSpace(w[j])
  }

  /** Words without white space, joined by single spaces, come back word for word from
      `text.trim().split(" ")`, as long as the first and the last word are not empty. */
  lemma WordsRoundTrip(words: seq<string>)
    requires |words| >= 1 && words[0] != [] && words[|words| - 1] != []
    requires forall i :: 0 <= i < |words| ==> NoSpace(words[i])
    ensures Split(Trim(Join(words, ' ')), ' ') == words
  {
    JoinUntrimmed(words);
    assert IsJsSpace(' ');
    JoinSplit(words, ' ');
  }

  /** Such a join starts and ends with a word, so `trim` leaves it as it is. */
  lemma JoinUntrimmed(words: seq<string>)
    requires |words| >= 1 && words[0] != [] && words[|words| - 1] != []
    requires forall i :: 0 <= i < |words| ==> NoSpace(words[i])
    ensures Trim(Join(words, ' ')) == Join(words, ' ')
  {
    var s := Join(words, ' ');
    var first, last := words[0], words[|words| - 1];
    assert NoSpace(first) && NoSpace(last);
    JoinStart(words, ' ');
    JoinEnd(words, ' ');
    assert s[0] == s[..|first|][0] == first[0];
    assert !IsJsSpace(s[0]) && !IsJsSpace(s[|s| - 1]);
    TrimUnpadded(s);
  }

  /** `messageText.trim().split(" ")`. */
  function Tokens(messageText: string): (parts: seq<string>)
    ensures |parts| >= 1
  {
    Split(Trim(messageText), ' ')
  }

  /** `v >= lo && v <= hi`; `NaN` (`None`) fails both comparisons. */
  predicate InRange(v: Option<int>, lo: int, hi: int) {
    v.Some? && lo <= v.value <= hi
  }

  /** A non-empty run of characters none of which is white space. */
  predicate IsWord(w: string) {
    w != [] && NoSpace(w)
  }

  /** Visible ASCII is never white space. */
  lemma VisibleIsWord(w: string)
    requires w != [] && forall i :: 0 <= i < |w| ==> '!' <= w[i] <= '~'
    ensures IsWord(w)
  {
  }

  lemma NumeralIsWord(i: int)
    ensures IsWord(IntToDecimal(i))
  {
  }

  /** Joining the fields of a split with the same separator gives back the text. */
  lemma {:induction false} SplitJoin(s: string, sep: char)
    ensures Join(Split(s, sep), sep) == s
  {
    if s != [] {
      var rest := Split(s[1..], sep);
      SplitJoin(s[1..], sep);
      if s[0] == sep {
        assert Split(s, sep) == [""] + rest;
        assert ([""] + rest)[1..] == rest;
      } else {
        var r := Split(s, sep);
        assert r == [[s[0]] + rest[0]] + rest[1..];
        if |rest| > 1 {
          assert r[1..] == rest[1..];
          assert Join(rest, sep) == rest[0] + [sep] + Join(rest[1..], sep);
          assert Join(r, sep) == [s[0]] + rest[0] + [sep] + Join(rest[1..], sep);
        }
        assert Join(r, sep) == [s[0]] + Join(rest, sep);
        assert s == [s[0]] + s[1..];
      }
    }
  }

  /** Splitting text that starts with a separator-free prefix extends the first field. */
  lemma {:induction false} SplitPrefix(p: string, tail: string, sep: char)
    requires sep !in p
    ensures Split(p + tail, sep) == [p + Split(tail, sep)[0]] + Split(tail, sep)[1..]
  {
    if p != [] {
      SplitPrefix(p[1..], tail, sep);
      assert (p + tail)[1..] == p[1..] + tail;
      assert (p + tail)[0] == p[0];
      assert [p[0]] + (p[1..] + Split(tail, sep)[0]) == p + Split(tail, sep)[0];
    } else {
      assert p + tail == tail;
      assert p + Split(tail, sep)[0] == Split(tail, sep)[0];
      assert Split(tail, sep) == [Split(tail, sep)[0]] + Split(tail, sep)[1..];
    }
  }

  /** A separator-free field followed by a separator is the first field of the split. */
  lemma FieldThenSeparator(p: string, j: string, sep: char)
    requires sep !in p
    ensures Split(p + [sep] + j, sep) == [p] + Split(j, sep)
  {
    SplitPrefix(p, [sep] + j, sep);
    assert p + [sep] + j == p + ([sep] + j);
    assert ([sep] + j)[1..] == j;
    assert Split([sep] + j, sep) == [""] + Split(j, sep);
    assert p + "" == p;
  }

  /** A separator-free field on its own splits into itself. */
  lemma LoneField(p: string, sep: char)
    requires sep !in p
    ensures Split(p, sep) == [p]
  {
    SplitPrefix(p, [], sep);
    assert p + [] == p;
    assert Split([], sep) == [""];
    assert p + "" == p;
  }

  /** Splitting a join of separator-free fields gives back the fields. */
  lemma {:induction false} JoinSplit(parts: seq<string>, sep: char)
    requires |parts| >= 1
    requires forall i :: 0 <= i < |parts| ==> sep !in parts[i]
    ensures Split(Join(parts, sep), sep) == parts
  {
    if |parts| == 1 {
      LoneField(parts[0], sep);
    } else {
      JoinSplit(parts[1..], sep);
      FieldThenSeparator(parts[0], Join(parts[1..], sep), sep);
      assert [parts[0]] + parts[1..] == parts;
    }
  }

  // ---------------------------------------------------------------- search and slicing

  /** `p` occurs in `s` starting at index `k`. */
  predicate OccursAt(s: string, p: string, k: int) {
    0 <= k && k + |p| <= |s| && s[k..k + |p|] == p
  }

  predicate Contains(s: string, p: string) {
    exists k :: 0 <= k <= |s| && OccursAt(s, p, k)
  }

  function IndexFrom(s: string, p: string, from: nat): (k: int)
    requires from <= |s|
    ensures k == -1 || (from <= k && OccursAt(s, p, k))
    ensures forall j :: from <= j <= |s| && (k == -1 || j < k) ==> !OccursAt(s, p, j)
    decreases |s| - from
  {
    if OccursAt(s, p, from) then from
    else if from == |s| then -1
    else IndexFrom(s, p, from + 1)
  }

  /** `s.indexOf(p)`: the first index where `p` occurs, or -1. */
  function IndexOf(s: string, p: string): (k: int)
    ensures k == -1 <==> !Contains(s, p)
    ensures k != -1 ==> OccursAt(s, p, k) && forall j :: 0 <= j < k ==> !OccursAt(s, p, j)
  {
    IndexFrom(s, p, 0)
  }

  /** `s.substring(start)` with one argument: the start is clamped to `0..|s|`. */
  function Substring(s: string, start: int): (r: string)
    ensures start <= 0 ==> r == s
    ensures start >= |s| ==> r == []
    ensures 0 <= start <= |s| ==> s == s[..start] + r
  {
    if start <= 0 then s else if start >= |s| then [] else s[start..]
  }

  /** `s.replace(p, "")` with a string pattern: only the first occurrence is removed. */
  function RemoveFirst(s: string, p: string): (r: string)
    ensures !Contains(s, p) ==> r == s
    ensures Contains(s, p) ==> |r| == |s| - |p|
  {
    var k := IndexOf(s, p);
    if k == -1 then s else s[..k] + s[k + |p|..]
  }

  /** Removing a pattern that starts with a character absent from `u` and occurs right after `u`
      takes exactly that occurrence away. */
  lemma RemoveFirstSuffix(u: string, p: string, tail: string)
    requires |p| >= 1 && p[0] !in u
    ensures RemoveFirst(u + p + tail, p) == u + tail
  {
    var s := u + p + tail;
    assert s[|u|..|u| + |p|] == p;
    assert OccursAt(s, p, |u|);
    forall j | 0 <= j < |u| ensures !OccursAt(s, p, j) {
      assert s[j] == u[j];
      assert s[j] != p[0];
    }
    var k := IndexOf(s, p);
    assert k == |u|;
    assert s[..k] == u;
    assert s[k + |p|..] == tail;
  }

  /** A pattern cannot occur where its first character is absent, nor in a tail shorter than it. */
  lemma NotContainsShort(u: string, p: string, tail: string)
    requires |p| >= 1 && p[0] !in u && |tail| < |p|
    ensures !Contains(u + tail, p)
  {
    var s := u + tail;
    forall k | 0 <= k <= |s| ensures !OccursAt(s, p, k) {
      if k < |u| {
        assert s[k] == u[k];
        assert s[k] != p[0];
      }
    }
  }

  /** The middle part of a concatenation occurs in it. */
  lemma ContainsMiddle(a: string, b: string, c: string)
    ensures Contains(a + b + c, b)
  {
    assert (a + b + c)[|a|..|a| + |b|] == b;
    assert OccursAt(a + b + c, b, |a|);
  }

  /** `s.startsWith(p)`. */
  predicate StartsWith(s: string, p: string) {
    |p| <= |s| && s[..|p|] == p
  }

  /** `s.endsWith(p)`. */
  predicate EndsWith(s: string, p: string) {
    |p| <= |s| && s[|s| - |p|..] == p
  }

  // ---------------------------------------------------------------- case

  function LowerChar(c: char): char {
    if 'A' <= c <= 'Z' then (c as int + 32) as char else c
  }

  function UpperChar(c: char): char {
    if 'a' <= c <= 'z' then (c as int - 32) as char else c
  }

  /** `s.toLowerCase()` on ASCII letters; every other character is kept. */
  function ToLower(s: string): (r: string)
    ensures |r| == |s|
  {
    seq(|s|, i requires 0 <= i < |s| => LowerChar(s[i]))
  }

  /** Lower-casing is idempotent and leaves every non-letter where it was. */
  lemma ToLowerIdempotent(s: string)
    ensures ToLower(ToLower(s)) == ToLower(s)
  {
  }

  /** `s.charAt(0).toUpperCase() + s.slice(1)`. */
  function Capitalize(s: string): (r: string)
    ensures |r| == |s|
    ensures s != [] ==> r[0] == UpperChar(s[0]) && r[1..] == s[1..]
  {
    if s == [] then [] else [UpperChar(s[0])] + s[1..]
  }

  // ---------------------------------------------------------------- numbers

  /** The value of a digit or letter in radices up to 36, or -1. */
  function DigitValue(c: char): int {
    if '0' <= c <= '9' then c as int - '0' as int
    else if 'a' <= c <= 'z' then c as int - 'a' as int + 10
    else if 'A' <= c <= 'Z' then c as int - 'A' as int + 10
    else -1
  }

  predicate IsDigitIn(c: char, radix: nat) {
    0 <= DigitValue(c) < radix
  }

  /** Length of the run of `radix` digits that starts `s`. */
  function DigitRun(s: string, radix: nat): (n: nat)
    ensures n <= |s|
    ensures forall i :: 0 <= i < n ==> IsDigitIn(s[i], radix)
    ensures n < |s| ==> !IsDigitIn(s[n], radix)
  {
    if s == [] || !IsDigitIn(s[0], radix) then 0 else 1 + DigitRun(s[1..], radix)
  }

  /** The number a sequence of digits denotes, most significant first. */
  function DigitsValue(ds: string, radix: nat): nat
  {
    if ds == [] then 0
    else DigitsValue(ds[..|ds| - 1], radix) * radix
         + (if IsDigitIn(ds[|ds| - 1], radix) then DigitValue(ds[|ds| - 1]) else 0)
  }

  /** The value of the leading digits of `u`, or `None` when `u` does not start with one. */
  function LeadingNumber(u: string, radix: nat): Option<nat> {
    var n := DigitRun(u, radix);
    if n == 0 then None else Some(DigitsValue(u[..n], radix))
  }

  /**
   * `parseInt(s)` with no radix: skip leading whitespace, take an optional sign, read
   * hexadecimal after `0x`/`0X` and decimal otherwise, and stop at the first character
   * that is not a digit. `None` is `NaN`, which fails every comparison.
   */
  function ParseInt(s: string): Option<int> {
    ParseSigned(s[LeadingSpaces(s)..])
  }

  /** `parseInt` after the leading whitespace: an optional sign, then the magnitude. */
  function ParseSigned(t: string): Option<int> {
    var negative := t != [] && t[0] == '-';
    var u := if t != [] && (t[0] == '-' || t[0] == '+') then t[1..] else t;
    match Magnitude(u)
    case None => None
    case Some(v) => var x: int := v; Some(if negative then -x else x)
  }

  /** `parseInt`'s magnitude: hexadecimal after `0x`/`0X`, decimal otherwise. */
  function Magnitude(u: string): Option<nat> {
    if |u| >= 2 && u[0] == '0' && (u[1] == 'x' || u[1] == 'X') then LeadingNumber(u[2..], 16)
    else LeadingNumber(u, 10)
  }

  function DigitChar(d: nat): char
    requires d < 10
  {
    ('0' as int + d) as char
  }

  /** The decimal numeral of `n`, as `String(n)` writes it: no sign, no leading zero. */
  function NatToDecimal(n: nat): (r: string)
    ensures |r| >= 1
    ensures forall i :: 0 <= i < |r| ==> '0' <= r[i] <= '9'
    ensures |r| >= 2 ==> r[0] != '0'
    ensures n < 10 <==> |r| == 1
  {
    if n < 10 then [DigitChar(n)] else NatToDecimal(n / 10) + [DigitChar(n % 10)]
  }

  /** `String(i)` for an integer. */
  function IntToDecimal(i: int): string {
    if i < 0 then "-" + NatToDecimal(-i) else NatToDecimal(i)
  }

  /** `String(n).padStart(2, "0")`. */
  function PadTwo(s: string): (r: string)
    ensures |r| == if |s| >= 2 then |s| else 2
    ensures |s| <= 2 ==> r[2 - |s|..] == s
  {
    if |s| >= 2 then s else if |s| == 1 then "0" + s else "00"
  }

  lemma {:induction false} DecimalValue(n: nat)
    ensures DigitsValue(NatToDecimal(n), 10) == n
  {
    var r := NatToDecimal(n);
    if n >= 10 {
      DecimalValue(n / 10);
      assert r[..|r| - 1] == NatToDecimal(n / 10);
      assert r[|r| - 1] == DigitChar(n % 10);
    }
  }

  /** A digit string is one leading run of decimal digits. */
  lemma AllDigitsRun(s: string)
    requires forall i :: 0 <= i < |s| ==> '0' <= s[i] <= '9'
    ensures DigitRun(s, 10) == |s|
  {
  }

  /** A string of decimal digits is read whole. */
  lemma DigitsNumber(d: string)
    requires |d| >= 1 && forall i :: 0 <= i < |d| ==> '0' <= d[i] <= '9'
    ensures LeadingNumber(d, 10) == Some(DigitsValue(d, 10))
  {
    AllDigitsRun(d);
    assert d[..|d|] == d;
  }

  /** A magnitude is read as it stands, or negated after a minus sign. */
  lemma SignedMagnitude(u: string, v: nat)
    requires u != [] && !IsJsSpace(u[0]) && u[0] != '-' && u[0] != '+' && Magnitude(u) == Some(v)
    ensures ParseInt(u) == Some(v)
    ensures ParseInt("-" + u) == Some(0 - v as int)
  {
    var t := "-" + u;
    assert t[0] == '-' && t[1..] == u;
    NoLeadingSpace(u);
    NoLeadingSpace(t);
  }

  /** Text that does not start with whitespace is parsed as it stands. */
  lemma NoLeadingSpace(s: string)
    requires s != [] && !IsJsSpace(s[0])
    ensures ParseInt(s) == ParseSigned(s)
  {
    assert s[0..] == s;
  }

  /** `parseInt(String(n)) === n`: the integer printer and `parseInt` are inverse. */
  lemma ParseIntDecimal(i: int)
    ensures ParseInt(IntToDecimal(i)) == Some(i)
  {
    var n: nat := if i < 0 then -i else i;
    var d := NatToDecimal(n);
    DecimalValue(n);
    DigitsNumber(d);
    assert Magnitude(d) == Some(n);
    SignedMagnitude(d, n);
  }

  /** `parseInt` reads only the leading digits: a numeral followed by a non-digit keeps its value. */
  lemma ParseIntStopsAtNonDigit(n: nat, tail: string)
    requires tail != [] && !IsDigitIn(tail[0], 10)
    requires n == 0 ==> tail[0] != 'x' && tail[0] != 'X'
    ensures ParseInt(NatToDecimal(n) + tail) == Some(n)
  {
    var d := NatToDecimal(n);
    var s := d + tail;
    DecimalValue(n);
    assert s[0] == d[0];
    assert !IsJsSpace(s[0]);
    assert LeadingSpaces(s) == 0;
    assert s[0..] == s;
    var run := DigitRun(s, 10);
    assert forall i :: 0 <= i < |d| ==> s[i] == d[i];
    assert s[|d|] == tail[0];
    assert run == |d|;
    assert s[..|d|] == d;
    if |d| >= 2 {
      assert s[0] != '0';
    } else {
      assert s[1] == tail[0];
    }
  }

  /** With no radix, `parseInt` reads a `0x` prefix as hexadecimal: `parseInt("0x5") === 5`. */
  lemma ParseIntHexPrefix()
    ensures ParseInt("0x5") == Some(5)
    ensures ParseInt(" -0XA") == Some(-10)
  {
    assert LeadingSpaces("0x5") == 0;
    assert "0x5"[0..] == "0x5";
    assert DigitRun("5", 16) == 1;
    assert " -0XA"[1..] == "-0XA";
    assert LeadingSpaces(" -0XA") == 1;
    assert DigitRun("A", 16) == 1;
  }

  /** `NaN` cases: no digit after the optional sign, or nothing after `0x`. */
  lemma ParseIntNaN()
    ensures ParseInt("") == None
    ensures ParseInt("abc") == None
    ensures ParseInt("-") == None
    ensures ParseInt("0x") == None
  {
    assert LeadingSpaces("abc") == 0;
    assert "abc"[0..] == "abc";
    assert DigitRun("abc", 10) == 0;
    assert LeadingSpaces("-") == 0;
    assert "-"[0..] == "-";
    assert LeadingSpaces("0x") == 0;
    assert "0x"[0..] == "0x";
    assert "0x"[2..] == "";
  }
}
