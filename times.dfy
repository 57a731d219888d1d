/**
 * The time parser and the date-range note of src/lib/utils.ts:
 * `parseTimeToDate` (its if-chain, proved against the reference grammar of
 * module Clock), `fmtHM` and `buildDateNote`.
 *
 * A `Date` on the roster day is its number of minutes after that day's
 * local midnight; the day itself and the time zone are not modelled.
 */
module Times {
  import opened Text
  import opened Clock

  /** `parseTimeToDate` of src/lib/utils.ts: null for the empty string,
      otherwise the if-chain below on the normalised text. */
  method ParseTimeToDate(timeStr: string) returns (r: Option<int>)
    ensures r == ClockSpec(timeStr)
    ensures timeStr == [] ==> r.None?
  {
    if timeStr == [] {
      return None;
    }
    var s := NormalizeTime(timeStr);
    assert ClockSpec(timeStr) == ClockOf(s);
    r := ReadClock(s);
  }

  /** The if-chain of `parseTimeToDate`: the first of its patterns that
      matches sets the hour and minute, and an unmatched text gives null. */
  method ReadClock(s: string) returns (r: Option<int>)
    ensures r == ClockOf(s)
  {
    var h: int, m: int := 0, 0;
    var ampm := AmPmMatch(s);
    var hhmm := HhmmMatch(s);
    var hOnly := HourAmPmMatch(s);
    if hOnly.Some? {
      HourAmPmShadowed(s);
    }
    if ampm.Some? {
      AmPmAgrees(s);
      h := ampm.value.hour;
      m := if ampm.value.minute.Some? then ampm.value.minute.value else 0;
      var ap := ampm.value.meridiem;
      if ap == Pm && h != 12 { h := h + 12; }
      if ap == Am && h == 12 { h := 0; }
    } else if hOnly.Some? {
      // shadowed by the pattern above: whatever this one matches, that one matches too
      match hOnly {
        case Some((hh, ap)) =>
          h := hh;
          if ap == Pm && h != 12 { h := h + 12; }
          if ap == Am && h == 12 { h := 0; }
      }
    } else if hhmm.Some? {
      HhmmAgrees(s);
      h := hhmm.value.0;
      m := hhmm.value.1;
    } else if BareHourMatch(s).Some? {
      BareHourAgrees(s);
      h := BareHourMatch(s).value;
    } else if s == "24:00" || s == "24" {
      // shadowed by the two patterns above, which read these texts as hour 24
      TwentyFourShadowed();
      h := 24;
    } else {
      NoMatchAgrees(s);
      return None;
    }
    r := Some(h * 60 + m);
  }

  /** `fmtHM`: the hour of the day and the minute, each as two digits. */
  function FmtHM(t: int): (r: string)
    ensures |r| == 5 && r[2] == ':'
    ensures IsDigit(r[0]) && IsDigit(r[1]) && IsDigit(r[3]) && IsDigit(r[4])
  {
    Pad2((t / 60) % 24) + ":" + Pad2(t % 60)
  }

  lemma DayMinutes(t: int)
    ensures ((t / 60) % 24) * 60 + t % 60 == t % 1440
  {
    var q := t / 60;
    var a := q / 24;
    assert t == q * 60 + t % 60;
    assert q == a * 24 + q % 24;
    assert t == a * 1440 + ((q % 24) * 60 + t % 60);
  }

  /** Reading a formatted time back with the clock grammar gives the
      instant's minute of the day. */
  lemma FmtHMReadBack(t: int)
    ensures ClockOf(FmtHM(t)) == Some(t % 1440)
  {
    var s := FmtHM(t);
    var h, m := (t / 60) % 24, t % 60;
    assert s[..2] == Pad2(h) && s[3..5] == Pad2(m);
    assert DigitEnd(s, 2) == 2;
    assert DigitEnd(s, 0) == 2;
    assert LeadingHour(s) == Some(h);
    assert MinutesAt(s, 2) && MinuteValue(s, 2) == m;
    DayMinutes(t);
  }

  /** The start and end of one roster row, when they parsed. */
  datatype Span = Span(start: Option<int>, end: Option<int>)

  /** `.filter(Boolean)` on a column: the instants that are there, in order
      (a `Date` object is always truthy, so only the nulls go). */
  function Present(xs: seq<Option<int>>): (r: seq<int>)
    ensures |r| <= |xs|
    ensures forall v :: v in r <==> Some(v) in xs
  {
    if xs == [] then []
    else
      var rest := Present(xs[1..]);
      assert forall o :: o in xs <==> o == xs[0] || o in xs[1..];
      match xs[0]
      case None => rest
      case Some(v) => [v] + rest
  }

  function Starts(rows: seq<Span>): seq<Option<int>> {
    seq(|rows|, i requires 0 <= i < |rows| => rows[i].start)
  }

  function Ends(rows: seq<Span>): seq<Option<int>> {
    seq(|rows|, i requires 0 <= i < |rows| => rows[i].end)
  }

  /** `Math.min(...xs)` on a non-empty list. */
  function MinOf(xs: seq<int>): (m: int)
    requires xs != []
    ensures m in xs && forall x :: x in xs ==> m <= x
  {
    if |xs| == 1 then xs[0]
    else
      var rest := MinOf(xs[1..]);
      assert forall x :: x in xs ==> x == xs[0] || x in xs[1..];
      if xs[0] <= rest then xs[0] else rest
  }

  /** `Math.max(...xs)` on a non-empty list. */
  function MaxOf(xs: seq<int>): (m: int)
    requires xs != []
    ensures m in xs && forall x :: x in xs ==> x <= m
  {
    if |xs| == 1 then xs[0]
    else
      var rest := MaxOf(xs[1..]);
      assert forall x :: x in xs ==> x == xs[0] || x in xs[1..];
      if xs[0] >= rest then xs[0] else rest
  }

  const SAME_DAY_SEP: string := " - "
  const NEXT_DAY_SEP: string := " \U{2192} next day "

  /** `toDateString` equality for two instants of the roster: the same
      day bucket of 1440 minutes. */
  predicate SameDay(a: int, b: int) {
    a / 1440 == b / 1440
  }

  /** `buildDateNote`: empty when no row has a start or none has an end,
      otherwise the earliest start and the latest end joined by the same-day
      or the next-day separator. */
  function BuildDateNote(rows: seq<Span>): (r: string)
    ensures r == [] <==> Present(Starts(rows)) == [] || Present(Ends(rows)) == []
  {
    var starts := Present(Starts(rows));
    var ends := Present(Ends(rows));
    if starts == [] || ends == [] then ""
    else
      var minS := MinOf(starts);
      var maxE := MaxOf(ends);
      FmtHM(minS) + (if SameDay(minS, maxE) then SAME_DAY_SEP else NEXT_DAY_SEP) + FmtHM(maxE)
  }

  /** A non-empty note reads back, with the clock grammar, as the minute of
      day of the earliest start and of the latest end, and its separator says
      whether the two fall on the same day. */
  lemma BuildDateNoteReadBack(rows: seq<Span>, minS: int, maxE: int)
    requires Some(minS) in Starts(rows) && forall i :: 0 <= i < |rows| && rows[i].start.Some? ==> minS <= rows[i].start.value
    requires Some(maxE) in Ends(rows) && forall i :: 0 <= i < |rows| && rows[i].end.Some? ==> rows[i].end.value <= maxE
    ensures var r := BuildDateNote(rows);
            |r| > 10
            && ClockOf(r[..5]) == Some(minS % 1440)
            && ClockOf(r[|r| - 5..]) == Some(maxE % 1440)
            && (r[5..|r| - 5] == SAME_DAY_SEP <==> SameDay(minS, maxE))
            && (r[5..|r| - 5] == NEXT_DAY_SEP <==> !SameDay(minS, maxE))
  {
    var starts := Present(Starts(rows));
    var ends := Present(Ends(rows));
    assert minS in starts && maxE in ends;
    var a := MinOf(starts);
    var b := MaxOf(ends);
    assert a == minS by {
      assert Some(a) in Starts(rows);
    }
    assert b == maxE by {
      assert Some(b) in Ends(rows);
    }
    var r := BuildDateNote(rows);
    var sep := if SameDay(minS, maxE) then SAME_DAY_SEP else NEXT_DAY_SEP;
    assert r == FmtHM(minS) + sep + FmtHM(maxE);
    assert r[..5] == FmtHM(minS);
    assert r[|r| - 5..] == FmtHM(maxE);
    assert r[5..|r| - 5] == sep;
    assert SAME_DAY_SEP != NEXT_DAY_SEP by { assert |SAME_DAY_SEP| != |NEXT_DAY_SEP|; }
    FmtHMReadBack(minS);
    FmtHMReadBack(maxE);
  }
}
