/**
 * Clock-time reading shared by both copies of `parseTimeToDate`
 * (src/lib/utils.ts:85-124 and src/App.tsx:22-56): the normalisation of the
 * input, the regular expressions the if-chain tests, and a one-pass reference
 * grammar that says which texts are times and what they are worth.
 *
 * A time is an `int` number of minutes after the roster day's local
 * midnight: `setHours(h, m, 0, 0)` on that midnight is `h * 60 + m`, with no
 * range check, so hour 24 or minute 99 simply run on.
 */
module Clock {
  import opened Text

  datatype Meridiem = Am | Pm

  /** `.replace(/[–—]/g, "-")`: en and em dashes become hyphens. */
  function NormalizeDashes(s: string): (r: string)
    ensures |r| == |s|
    ensures '\U{2013}' !in r && '\U{2014}' !in r
    ensures forall i :: 0 <= i < |s| && r[i] != s[i] ==> r[i] == '-'
    ensures forall i :: 0 <= i < |s| && s[i] != '\U{2013}' && s[i] != '\U{2014}' ==> r[i] == s[i]
  {
    seq(|s|, i requires 0 <= i < |s| => if s[i] == '\U{2013}' || s[i] == '\U{2014}' then '-' else s[i])
  }

  /** Dash normalisation changes nothing the second time. */
  lemma NormalizeDashesIdempotent(s: string)
    ensures NormalizeDashes(NormalizeDashes(s)) == NormalizeDashes(s)
  {
  }

  /** The text the time patterns are tried on: trimmed, lower-cased,
      dash-normalised and with whitespace runs made single spaces. */
  function NormalizeTime(t: string): string {
    CollapseSpaces(NormalizeDashes(Lower(Trim(t))))
  }

  /** `(am|pm)$` filling `s` from `k` to the end. */
  function MeridiemAt(s: string, k: nat): Option<Meridiem> {
    if k <= |s| && s[k..] == "am" then Some(Am)
    else if k <= |s| && s[k..] == "pm" then Some(Pm)
    else None
  }

  /** The value of the leading one or two digits, or None when the leading
      digit run is empty or longer than two (`^(\d{1,2})` then cannot be
      followed by anything but a digit, which no pattern accepts). */
  function LeadingHour(s: string): (r: Option<nat>)
    ensures r.Some? ==> 1 <= DigitEnd(s, 0) <= 2
  {
    var n := DigitEnd(s, 0);
    if 1 <= n <= 2 then Some(DecimalValue(s[..n])) else None
  }

  /** `:` and two digits at `n`. */
  predicate MinutesAt(s: string, n: nat) {
    n + 3 <= |s| && s[n] == ':' && IsDigit(s[n + 1]) && IsDigit(s[n + 2])
  }

  function MinuteValue(s: string, n: nat): nat
    requires MinutesAt(s, n)
  {
    DecimalValue(s[n + 1..n + 3])
  }

  datatype AmPmParts = AmPmParts(hour: nat, minute: Option<nat>, meridiem: Meridiem)

  /** `^(\d{1,2})(?::(\d{2}))?\s*(am|pm)$`; the optional minutes are tried
      first and dropped when the rest then fails. */
  function AmPmMatch(s: string): Option<AmPmParts> {
    match LeadingHour(s)
    case None => None
    case Some(h) =>
      var n := DigitEnd(s, 0);
      if MinutesAt(s, n) && MeridiemAt(s, SkipSpaces(s, n + 3)).Some? then
        Some(AmPmParts(h, Some(MinuteValue(s, n)), MeridiemAt(s, SkipSpaces(s, n + 3)).value))
      else match MeridiemAt(s, SkipSpaces(s, n))
        case Some(ap) => Some(AmPmParts(h, None, ap))
        case None => None
  }

  /** `^(\d{1,2})(?::(\d{2}))$`: hour and minutes. */
  function HhmmMatch(s: string): Option<(nat, nat)> {
    match LeadingHour(s)
    case None => None
    case Some(h) =>
      var n := DigitEnd(s, 0);
      if MinutesAt(s, n) && n + 3 == |s| then Some((h, MinuteValue(s, n))) else None
  }

  /** `^(\d{1,2})\s*(am|pm)$`: hour and meridiem. */
  function HourAmPmMatch(s: string): Option<(nat, Meridiem)> {
    match LeadingHour(s)
    case None => None
    case Some(h) =>
      match MeridiemAt(s, SkipSpaces(s, DigitEnd(s, 0)))
      case Some(ap) => Some((h, ap))
      case None => None
  }

  /** `^\d{1,2}$`: the hour. */
  function BareHourMatch(s: string): Option<nat> {
    match LeadingHour(s)
    case None => None
    case Some(h) => if DigitEnd(s, 0) == |s| then Some(h) else None
  }

  /** The 12-hour to 24-hour rule of the source: pm adds 12 except to 12, and 12 am is 0. */
  function To24(h: nat, ap: Meridiem): nat {
    if ap == Pm && h != 12 then h + 12 else if ap == Am && h == 12 then 0 else h
  }

  /** On the 12-hour dial the rule is the usual one: am hours give `h mod 12`,
      pm hours `h mod 12 + 12`, so the 24 readings are exactly 0..23. */
  lemma To24OnDial(h: nat)
    requires 1 <= h <= 12
    ensures To24(h, Am) == h % 12 && To24(h, Pm) == h % 12 + 12
    ensures 0 <= To24(h, Am) < 12 <= To24(h, Pm) < 24
  {
  }

  /** The reference grammar, read in one pass: one or two digits of hour,
      optionally `:` and two digits of minute, then either the end of the text
      (a 24-hour reading) or optional whitespace and a meridiem filling the rest. */
  function ClockOf(s: string): Option<int> {
    match LeadingHour(s)
    case None => None
    case Some(h) =>
      var n := DigitEnd(s, 0);
      var m := if MinutesAt(s, n) then MinuteValue(s, n) else 0;
      var k := if MinutesAt(s, n) then n + 3 else n;
      if k == |s| then Some(h * 60 + m)
      else match MeridiemAt(s, SkipSpaces(s, k))
        case Some(ap) => Some(To24(h, ap) * 60 + m)
        case None => None
  }

  /** What `parseTimeToDate` returns: null for the empty string, otherwise the
      reading of the normalised text. */
  function ClockSpec(timeStr: string): Option<int> {
    if timeStr == [] then None else ClockOf(NormalizeTime(timeStr))
  }

  /** The hour-only meridiem pattern is shadowed: whatever it matches, the
      general meridiem pattern matches first, with no minutes and the same
      hour and meridiem. */
  lemma HourAmPmShadowed(s: string)
    requires HourAmPmMatch(s).Some?
    ensures AmPmMatch(s) == Some(AmPmParts(HourAmPmMatch(s).value.0, None, HourAmPmMatch(s).value.1))
  {
  }

  /** The `24` / `24:00` branch of src/lib/utils.ts is shadowed: `24` is a bare
      hour and `24:00` an hour-and-minutes text, both worth hour 24, minute 0. */
  lemma TwentyFourShadowed()
    ensures BareHourMatch("24") == Some(24)
    ensures HhmmMatch("24:00") == Some((24, 0))
  {
    var s := "24";
    assert DigitEnd(s, 2) == 2;
    assert DigitEnd(s, 0) == 2;
    assert s[..2] == "24";
    assert DecimalValue("24") == 24 by {
      assert "24"[..1] == "2" && "2"[..0] == [];
    }
    var t := "24:00";
    assert DigitEnd(t, 2) == 2;
    assert DigitEnd(t, 0) == 2;
    assert t[..2] == "24" && t[3..5] == "00";
    assert DecimalValue("00") == 0 by {
      assert "00"[..1] == "0" && "0"[..0] == [];
    }
  }

  /** The if-chain agrees with the reference grammar, branch by branch. */
  lemma AmPmAgrees(s: string)
    requires AmPmMatch(s).Some?
    ensures ClockOf(s) == Some(To24(AmPmMatch(s).value.hour, AmPmMatch(s).value.meridiem) * 60
                               + (if AmPmMatch(s).value.minute.Some? then AmPmMatch(s).value.minute.value else 0))
  {
  }

  lemma HhmmAgrees(s: string)
    requires AmPmMatch(s).None? && HhmmMatch(s).Some?
    ensures ClockOf(s) == Some(HhmmMatch(s).value.0 * 60 + HhmmMatch(s).value.1)
  {
    var n := DigitEnd(s, 0);
    assert MinutesAt(s, n) && n + 3 == |s|;
    assert LeadingHour(s) == Some(HhmmMatch(s).value.0);
  }

  lemma BareHourAgrees(s: string)
    requires AmPmMatch(s).None? && HhmmMatch(s).None? && BareHourMatch(s).Some?
    ensures ClockOf(s) == Some(BareHourMatch(s).value * 60)
  {
  }

  lemma NoMatchAgrees(s: string)
    requires AmPmMatch(s).None? && HhmmMatch(s).None? && BareHourMatch(s).None?
    ensures ClockOf(s) == None
  {
    var n := DigitEnd(s, 0);
    if LeadingHour(s).Some? && MinutesAt(s, n) && n + 3 < |s| {
      assert MeridiemAt(s, SkipSpaces(s, n + 3)).None?;
    }
  }

  /** Text without en or em dashes keeps every character. */
  lemma NormalizeDashesNone(s: string)
    requires '\U{2013}' !in s && '\U{2014}' !in s
    ensures NormalizeDashes(s) == s
  {
  }

  /** Text already trimmed, lower-case, single-spaced and without en or em
      dashes is left as it is by the normalisation. */
  lemma NormalizeTimeOfNormal(s: string)
    requires Trimmed(s) && SingleSpaced(s) && NoUpperAscii(s)
    requires '\U{2013}' !in s && '\U{2014}' !in s
    ensures NormalizeTime(s) == s
  {
    LowerTrimOfPlain(s);
    NormalizeDashesNone(s);
    CollapseOfSingleSpaced(s);
    NormalizeTimeOfFixed(s, s);
  }

  lemma LowerTrimOfPlain(s: string)
    requires Trimmed(s) && NoUpperAscii(s)
    ensures Lower(Trim(s)) == s
  {
    TrimOfTrimmed(s);
    LowerOfLower(s);
  }

  lemma NormalizeTimeOfFixed(t: string, s: string)
    requires Lower(Trim(t)) == s && NormalizeDashes(s) == s && CollapseSpaces(s) == s
    ensures NormalizeTime(t) == s
  {
  }

  function MeridiemText(ap: Meridiem): string {
    if ap == Am then "am" else "pm"
  }

  /** An hour of one or two digits, a space and a meridiem reads as that
      hour on the 24-hour clock, on the hour. */
  lemma {:induction false} MeridiemReading(d: string, ap: Meridiem)
    requires 1 <= |d| <= 2 && forall i :: 0 <= i < |d| ==> IsDigit(d[i])
    ensures ClockSpec(d + " " + MeridiemText(ap)) == Some(To24(DecimalValue(d), ap) * 60)
  {
    var s := d + " " + MeridiemText(ap);
    assert NormalizeTime(s) == s by {
      MeridiemTextNormal(d, ap);
      NormalizeTimeOfNormal(s);
    }
    ClockOfMeridiemText(d, ap);
  }

  /** Such a text is already in normal form. */
  lemma MeridiemTextNormal(d: string, ap: Meridiem)
    requires 1 <= |d| <= 2 && forall i :: 0 <= i < |d| ==> IsDigit(d[i])
    ensures var s := d + " " + MeridiemText(ap);
            Trimmed(s) && SingleSpaced(s) && NoUpperAscii(s) && '\U{2013}' !in s && '\U{2014}' !in s
  {
    var m := MeridiemText(ap);
    var s := d + " " + m;
    var n := |d|;
    assert forall i :: 0 <= i < n ==> s[i] == d[i];
    assert s[n] == ' ';
    assert forall i :: n < i < |s| ==> s[i] == m[i - n - 1];
    assert forall i :: 0 <= i < |s| && IsSpace(s[i]) ==> i == n;
    assert SingleSpaced(s) by {
      forall i, j | 0 <= i < j < |s| && j == i + 1 && IsSpace(s[i]) ensures !IsSpace(s[j]) {
        assert i == n;
      }
    }
    assert s[|s| - 1] == 'm';
  }

  /** The grammar reads such a text as the hour and meridiem it spells. */
  lemma ClockOfMeridiemText(d: string, ap: Meridiem)
    requires 1 <= |d| <= 2 && forall i :: 0 <= i < |d| ==> IsDigit(d[i])
    ensures ClockOf(d + " " + MeridiemText(ap)) == Some(To24(DecimalValue(d), ap) * 60)
  {
    var s := d + " " + MeridiemText(ap);
    MeridiemTextHour(d, ap);
    MeridiemTextTail(d, ap);
    ClockOfHourMeridiem(s, DecimalValue(d), ap);
  }

  lemma MeridiemTextHour(d: string, ap: Meridiem)
    requires 1 <= |d| <= 2 && forall i :: 0 <= i < |d| ==> IsDigit(d[i])
    ensures var s := d + " " + MeridiemText(ap);
            DigitEnd(s, 0) == |d| && LeadingHour(s) == Some(DecimalValue(d))
  {
    var s := d + " " + MeridiemText(ap);
    assert s[..|d|] == d;
    assert s[|d|] == ' ';
    DigitEndIs(s, 0, |d|);
  }

  lemma MeridiemTextTail(d: string, ap: Meridiem)
    requires 1 <= |d|
    ensures var s := d + " " + MeridiemText(ap);
            !MinutesAt(s, |d|) && |d| != |s| && SkipSpaces(s, |d|) == |d| + 1
            && MeridiemAt(s, |d| + 1) == Some(ap)
  {
    var m := MeridiemText(ap);
    var s := d + " " + m;
    var n := |d|;
    assert s[n] == ' ' && s[n + 1..] == m;
    assert SkipSpaces(s, n + 1) == n + 1;
  }

  /** A leading hour with no minutes, followed by a meridiem, reads through the meridiem. */
  lemma ClockOfHourMeridiem(s: string, h: nat, ap: Meridiem)
    requires LeadingHour(s) == Some(h)
    requires !MinutesAt(s, DigitEnd(s, 0)) && DigitEnd(s, 0) != |s|
    requires MeridiemAt(s, SkipSpaces(s, DigitEnd(s, 0))) == Some(ap)
    ensures ClockOf(s) == Some(To24(h, ap) * 60)
  {
  }
}
