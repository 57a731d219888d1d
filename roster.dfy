/**
 * The roster parser of src/App.tsx (`parsed`, lines 164-227): the page title
 * from the first `]d/m/yyyy[` date, the body table's rows, one `Row` per
 * data row, then the grouping of module Grouping.
 */
module Roster {
  import opened Text
  import opened BBCode
  import opened Clock
  import opened AppHelpers
  import opened Grouping

  // ------------------------------------------------------------ page title

  /** A date `d/m/yyyy` as the title pattern reads it: one or two digits, a
      slash at `p`, one or two digits, a slash at `q`, four digits. */
  predicate DateText(d: string, p: nat, q: nat) {
    && 1 <= p <= 2 && p + 1 < q <= p + 3 && q + 5 == |d|
    && d[p] == '/' && d[q] == '/'
    && forall k :: 0 <= k < |d| && k != p && k != q ==> IsDigit(d[k])
  }

  ghost predicate IsDate(d: string) {
    exists p: nat, q: nat :: DateText(d, p, q)
  }

  /** `\](\d{1,2}\/\d{1,2}\/\d{4})\[` tried at `i`: the end of the captured
      date, which starts at `i + 1`. */
  function DateAt(s: string, i: nat): (e: Option<nat>)
    ensures e.Some? ==> i + 1 < e.value < |s| && s[i] == ']' && s[e.value] == '[' && IsDate(s[i + 1..e.value])
  {
    if i >= |s| || s[i] != ']' then None
    else
      var a := DigitEndMax(s, i + 1, 2);
      if a == i + 1 || a >= |s| || s[a] != '/' then None
      else
        var b := DigitEndMax(s, a + 1, 2);
        if b == a + 1 || b >= |s| || s[b] != '/' then None
        else
          var c := DigitEndMax(s, b + 1, 4);
          if c != b + 5 || c >= |s| || s[c] != '[' then None
          else
            DateTextAt(s, i, a, b, c);
            Some(c)
  }

  /** Digit runs of the right lengths around two slashes form a date. */
  lemma DateTextAt(s: string, i: nat, a: nat, b: nat, c: nat)
    requires i + 1 < a && a + 1 < b && c <= |s| && a <= i + 3 && b <= a + 3 && c == b + 5
    requires s[a] == '/' && s[b] == '/'
    requires forall j :: i + 1 <= j < a ==> IsDigit(s[j])
    requires forall j :: a + 1 <= j < b ==> IsDigit(s[j])
    requires forall j :: b + 1 <= j < c ==> IsDigit(s[j])
    ensures IsDate(s[i + 1..c])
  {
    var d := s[i + 1..c];
    forall k | 0 <= k < |d| && k != a - (i + 1) && k != b - (i + 1) ensures IsDigit(d[k]) {
      assert d[k] == s[i + 1 + k];
    }
    assert d[a - (i + 1)] == s[a] && d[b - (i + 1)] == s[b];
    assert DateText(d, a - (i + 1), b - (i + 1));
  }

  /** The pattern finds every bracketed date: with DateAt's own contract,
      DateAt matches exactly the `]`, date, `[` texts. */
  lemma DateAtComplete(s: string, i: nat, e: nat)
    requires i + 1 < e < |s| && s[i] == ']' && s[e] == '[' && IsDate(s[i + 1..e])
    ensures DateAt(s, i) == Some(e)
  {
    var d := s[i + 1..e];
    var p: nat, q: nat :| DateText(d, p, q);
    DateTextIn(s, i, e, p, q);
    DateAtOfParts(s, i, i + 1 + p, i + 1 + q, e);
  }

  lemma DateAtOfParts(s: string, i: nat, a: nat, b: nat, e: nat)
    requires i + 1 < a <= i + 3 && a + 1 < b <= a + 3 && b + 5 == e < |s|
    requires s[i] == ']' && s[e] == '[' && s[a] == '/' && s[b] == '/'
    requires forall k :: i + 1 <= k < e && k != a && k != b ==> IsDigit(s[k])
    ensures DateAt(s, i) == Some(e)
  {
    DigitEndMaxIs(s, i + 1, 2, a);
    DigitEndMaxIs(s, a + 1, 2, b);
    DigitEndMaxIs(s, b + 1, 4, e);
    DateAtIs(s, i, a, b, e);
  }

  /** A date text read at its place in `s`. */
  lemma DateTextIn(s: string, i: nat, e: nat, p: nat, q: nat)
    requires i + 1 < e <= |s| && DateText(s[i + 1..e], p, q)
    ensures i + 1 + q + 5 == e && s[i + 1 + p] == '/' && s[i + 1 + q] == '/'
    ensures forall k :: i + 1 <= k < e && k != i + 1 + p && k != i + 1 + q ==> IsDigit(s[k])
  {
    var d := s[i + 1..e];
    assert forall k :: 0 <= k < |d| ==> d[k] == s[i + 1 + k];
    forall k | i + 1 <= k < e && k != i + 1 + p && k != i + 1 + q ensures IsDigit(s[k]) {
      assert s[k] == d[k - (i + 1)];
    }
  }

  /** DateAt's steps, given where each digit run ends. */
  lemma DateAtIs(s: string, i: nat, a: nat, b: nat, c: nat)
    requires i < |s| && s[i] == ']'
    requires DigitEndMax(s, i + 1, 2) == a && i + 1 < a < |s| && s[a] == '/'
    requires DigitEndMax(s, a + 1, 2) == b && a + 1 < b < |s| && s[b] == '/'
    requires DigitEndMax(s, b + 1, 4) == c && c == b + 5 && c < |s| && s[c] == '['
    ensures DateAt(s, i) == Some(c)
  {
  }

  /** The leftmost place at or after `i` where the date pattern matches. */
  function FirstDate(s: string, i: nat): (r: Option<nat>)
    ensures r.Some? ==> i <= r.value && DateAt(s, r.value).Some?
    ensures forall j :: i <= j && (r.None? || j < r.value) ==> DateAt(s, j).None?
    decreases |s| - i
  {
    if i >= |s| then
      NoDateBeyond(s, i);
      None
    else if DateAt(s, i).Some? then Some(i)
    else FirstDate(s, i + 1)
  }

  lemma NoDateBeyond(s: string, i: nat)
    requires i >= |s|
    ensures forall j :: i <= j ==> DateAt(s, j).None?
  {
  }

  const WEEKDAYS: seq<string> := ["Monday", "Tuesday", "Wednesday", "Thursday", "Friday", "Saturday", "Sunday"]
  const WEEKDAY_OPEN: string := "[SIZE=4]"
  const WEEKDAY_CLOSE: string := "[/SIZE]"

  /** The `k`-th weekday name at `p`, ignoring case, then `[/SIZE]`. */
  predicate WeekdayFits(s: string, p: nat, k: nat)
    requires k < |WEEKDAYS|
  {
    MatchCI(s, p, WEEKDAYS[k]) && MatchCI(s, p + |WEEKDAYS[k]|, WEEKDAY_CLOSE)
  }

  /** The alternation `(Monday|...|Sunday)\[\/SIZE\]` at `p`, ignoring
      case, trying the names from the `k`-th on: the first name that fits. */
  function WeekdayFrom(s: string, p: nat, k: nat): (r: Option<nat>)
    requires k <= |WEEKDAYS|
    ensures r.Some? ==> k <= r.value < |WEEKDAYS| && WeekdayFits(s, p, r.value)
    ensures forall k' :: k <= k' < |WEEKDAYS| && (r.None? || k' < r.value) ==> !WeekdayFits(s, p, k')
    decreases |WEEKDAYS| - k
  {
    if k == |WEEKDAYS| then None
    else if WeekdayFits(s, p, k) then Some(k)
    else WeekdayFrom(s, p, k + 1)
  }

  /** `\[SIZE=4\](Monday|...|Sunday)\[\/SIZE\]` tried at `j`, ignoring
      case: which name it captures. */
  function WeekdayAt(s: string, j: nat): Option<nat> {
    if MatchCI(s, j, WEEKDAY_OPEN) then WeekdayFrom(s, j + |WEEKDAY_OPEN|, 0) else None
  }

  /** The leftmost weekday match at or after `i`: where it starts and which
      name it captures. */
  function FirstWeekday(s: string, i: nat): (r: Option<(nat, nat)>)
    ensures r.Some? ==> i <= r.value.0 && WeekdayAt(s, r.value.0) == Some(r.value.1)
    ensures forall j :: i <= j && (r.None? || j < r.value.0) ==> WeekdayAt(s, j).None?
    decreases |s| - i
  {
    if i >= |s| then
      NoWeekdayBeyond(s, i);
      None
    else
      match WeekdayAt(s, i)
      case Some(k) => Some((i, k))
      case None => FirstWeekday(s, i + 1)
  }

  lemma NoWeekdayBeyond(s: string, i: nat)
    requires i >= |s|
    ensures forall j :: i <= j ==> WeekdayAt(s, j).None?
  {
    forall j | i <= j ensures WeekdayAt(s, j).None? {
      assert !MatchCI(s, j, WEEKDAY_OPEN);
    }
  }

  /** The page title: the captured weekday and a space (when the weekday
      pattern matches anywhere), then the first date; the fallback title
      when no date matches. */
  function PageTitle(raw: string, fallback: string): (r: string)
    ensures FirstDate(raw, 0).None? ==> r == fallback
    ensures FirstDate(raw, 0).Some? ==>
              var j := FirstDate(raw, 0).value;
              var d := raw[j + 1..DateAt(raw, j).value];
              IsDate(d) && |d| <= |r| && r[|r| - |d|..] == d
              && (r == d <==> FirstWeekday(raw, 0).None?)
    ensures FirstDate(raw, 0).Some? && FirstWeekday(raw, 0).Some? ==>
              var j := FirstDate(raw, 0).value;
              var d := raw[j + 1..DateAt(raw, j).value];
              var w := FirstWeekday(raw, 0).value;
              r == WeekdayCapture(raw, w.0, w.1) + " " + d
  {
    if FirstDate(raw, 0).None? then fallback
    else
      var j := FirstDate(raw, 0).value;
      var d := raw[j + 1..DateAt(raw, j).value];
      if FirstWeekday(raw, 0).None? then d
      else
        var w := FirstWeekday(raw, 0).value;
        var name := WeekdayCapture(raw, w.0, w.1);
        TitleEndsWithDate(name, d);
        name + " " + d
  }

  /** The group `(Monday|...|Sunday)` of a weekday match at `a`: the text
      just after `[SIZE=4]`, as written, which is the `k`-th name ignoring
      case. */
  function WeekdayCapture(s: string, a: nat, k: nat): (r: string)
    requires WeekdayAt(s, a) == Some(k)
    ensures k < |WEEKDAYS| && |r| == |WEEKDAYS[k]|
    ensures MatchAt(s, a + |WEEKDAY_OPEN|, r) && MatchCI(r, 0, WEEKDAYS[k])
  {
    var p := a + |WEEKDAY_OPEN|;
    assert MatchCI(s, p, WEEKDAYS[k]);
    var r := s[p..p + |WEEKDAYS[k]|];
    forall i | 0 <= i < |WEEKDAYS[k]| ensures EqIgnoreCase(r[i], WEEKDAYS[k][i]) {
      assert r[i] == s[p + i];
    }
    r
  }

  /** A weekday and a space put in front of the date keep it as the suffix. */
  lemma TitleEndsWithDate(name: string, d: string)
    ensures var r := name + " " + d; |d| < |r| && r[|r| - |d|..] == d
  {
    var r := name + " " + d;
    assert r[|r| - |d|..] == d;
  }

  // ------------------------------------------------------------ BBCode blocks

  /** The closing tag `[/NAME]`. */
  function Close(name: string): string {
    "[/" + name + "]"
  }

  /** The opening tag tried at `i`, ignoring case: `\[NAME[^\]]*\]` when the
      tag may carry attributes, `\[NAME\]` when not. The end of the tag. */
  function OpenEnd(s: string, i: nat, name: string, attrs: bool): (o: Option<nat>)
    ensures o.Some? ==> i + |name| + 2 <= o.value <= |s| && MatchCI(s, i, "[" + name) && s[o.value - 1] == ']'
    ensures o.Some? ==> forall j :: i + |name| + 1 <= j < o.value - 1 ==> s[j] != ']'
    ensures o.Some? && !attrs ==> o.value == i + |name| + 2
  {
    if !MatchCI(s, i, "[" + name) then None
    else if attrs then
      var k := FindFrom(s, ']', i + 1 + |name|);
      if k < |s| then Some(k + 1) else None
    else if i + 1 + |name| < |s| && s[i + 1 + |name|] == ']' then Some(i + |name| + 2)
    else None
  }

  /** Where a block sits: the opening tag from `start`, the body from
      `bodyStart` to `bodyEnd`, the closing tag up to `end`. */
  datatype Block = Block(start: nat, bodyStart: nat, bodyEnd: nat, end: nat)

  /** A whole block tried at `i`: the opening tag, then the lazy `[\s\S]*?`
      body up to the first closing tag, ignoring case. */
  function BlockAt(s: string, i: nat, name: string, attrs: bool): (b: Option<Block>)
    ensures b.Some? ==> var v := b.value;
              && v.start == i && OpenEnd(s, i, name, attrs) == Some(v.bodyStart)
              && v.bodyStart <= v.bodyEnd && v.end == v.bodyEnd + |Close(name)| <= |s|
              && MatchCI(s, v.bodyEnd, Close(name))
              && forall j :: v.bodyStart <= j < v.bodyEnd ==> !MatchCI(s, j, Close(name))
    ensures b.None? ==> OpenEnd(s, i, name, attrs).None?
                        || forall j :: OpenEnd(s, i, name, attrs).value <= j ==> !MatchCI(s, j, Close(name))
  {
    match OpenEnd(s, i, name, attrs)
    case None => None
    case Some(o) =>
      var c := FindCI(s, Close(name), o);
      if c < |s| then Some(Block(i, o, c, c + |Close(name)|))
      else
        assert forall j :: |s| <= j ==> !MatchCI(s, j, Close(name));
        None
  }

  /** The leftmost block at or after `i`. */
  function FirstBlock(s: string, i: nat, name: string, attrs: bool): (r: Option<Block>)
    ensures r.Some? ==> i <= r.value.start && BlockAt(s, r.value.start, name, attrs) == r
    ensures forall j :: i <= j && (r.None? || j < r.value.start) ==> BlockAt(s, j, name, attrs).None?
    decreases |s| - i
  {
    if i >= |s| then
      NoBlockBeyond(s, i, name, attrs);
      None
    else
      var b := BlockAt(s, i, name, attrs);
      if b.Some? then b else FirstBlock(s, i + 1, name, attrs)
  }

  lemma NoBlockBeyond(s: string, i: nat, name: string, attrs: bool)
    requires i >= |s|
    ensures forall j :: i <= j ==> BlockAt(s, j, name, attrs).None?
  {
    forall j | i <= j ensures BlockAt(s, j, name, attrs).None? {
      assert !MatchCI(s, j, "[" + name);
    }
  }

  /** A block's text: an opening tag for `name` at the front, the closing tag
      at the back. */
  predicate IsBlockText(t: string, name: string) {
    |t| >= |name| + 2 + |Close(name)| && MatchCI(t, 0, "[" + name) && MatchCI(t, |t| - |Close(name)|, Close(name))
  }

  /** `s.match(/.../gi) || []` for the block pattern: every block, leftmost
      first, each search resuming after the previous block. */
  function Blocks(s: string, i: nat, name: string, attrs: bool): seq<string>
    decreases |s| - i
  {
    match FirstBlock(s, i, name, attrs)
    case None => []
    case Some(b) => [s[b.start..b.end]] + Blocks(s, b.end, name, attrs)
  }

  /** Every match is a whole block: the opening tag at its front and the
      closing tag at its back. */
  lemma {:induction false} BlocksAreBlockText(s: string, i: nat, name: string, attrs: bool)
    ensures forall k :: 0 <= k < |Blocks(s, i, name, attrs)| ==> IsBlockText(Blocks(s, i, name, attrs)[k], name)
    decreases |s| - i
  {
    match FirstBlock(s, i, name, attrs)
    case None =>
    case Some(b) =>
      BlockTextOf(s, name, b.start, b.bodyEnd, b.end);
      BlocksAreBlockText(s, b.end, name, attrs);
  }

  /** The text from an opening tag to the end of a closing tag. */
  lemma BlockTextOf(s: string, name: string, start: nat, bodyEnd: nat, end: nat)
    requires start + |name| + 2 <= bodyEnd && end == bodyEnd + |Close(name)| <= |s|
    requires MatchCI(s, start, "[" + name) && MatchCI(s, bodyEnd, Close(name))
    ensures IsBlockText(s[start..end], name)
  {
    var t := s[start..end];
    assert forall k :: 0 <= k < |t| ==> t[k] == s[start + k];
    assert |t| - |Close(name)| == bodyEnd - start;
  }

  /** The inner text of the first block, or the empty string:
      `contentMatch ? contentMatch[1] : ''`. */
  function Inner(s: string, name: string, attrs: bool): string {
    match FirstBlock(s, 0, name, attrs)
    case None => ""
    case Some(b) => s[b.bodyStart..b.bodyEnd]
  }

  /** A block written out: `[NAME]body[/NAME]`. */
  function Wrap(name: string, body: string): (r: string)
    ensures |r| == |name| + 2 + |body| + |Close(name)|
  {
    "[" + name + "]" + body + Close(name)
  }

  /** Blocks written one after another. */
  function WrapAll(name: string, bodies: seq<string>): string {
    if bodies == [] then [] else Wrap(name, bodies[0]) + WrapAll(name, bodies[1..])
  }

  /** The texts of blocks written one by one. */
  function Wrapped(name: string, bodies: seq<string>): (r: seq<string>)
    ensures |r| == |bodies|
  {
    if bodies == [] then [] else [Wrap(name, bodies[0])] + Wrapped(name, bodies[1..])
  }

  /** No closing tag for `name` starts inside `body`, ignoring case, not
      even one running on into a closing tag written after it. */
  predicate ClosesOnce(body: string, name: string) {
    forall j :: 0 <= j < |body| ==> !MatchCI(body + Close(name), j, Close(name))
  }

  /** The pieces of a written block standing at `n`. */
  lemma WrapSlices(s: string, n: nat, name: string, body: string, rest: string)
    requires n <= |s| && s[n..] == Wrap(name, body) + rest
    ensures var o := n + |name| + 2;
            var e := o + |body| + |Close(name)|;
            && e <= |s|
            && s[n..o] == "[" + name + "]"
            && s[o..e] == body + Close(name)
            && s[n..e] == Wrap(name, body)
            && s[e..] == rest
  {
    var tag := "[" + name + "]";
    var tail := body + Close(name);
    var o := n + |name| + 2;
    var e := o + |body| + |Close(name)|;
    assert Wrap(name, body) == tag + tail;
    assert s[n..] == tag + tail + rest;
    assert s[n..o] == s[n..][..|tag|];
    assert s[o..e] == s[n..][|tag|..|tag| + |tail|];
    assert s[n..e] == s[n..][..|tag| + |tail|];
    assert s[e..] == s[n..][|tag| + |tail|..];
  }

  /** A written block standing at `n` is read back whole. */
  lemma BlockAtTagged(s: string, n: nat, name: string, body: string, attrs: bool)
    requires ClosesOnce(body, name)
    requires var o := n + |name| + 2;
             && o + |body| + |Close(name)| <= |s|
             && s[n..o] == "[" + name + "]"
             && s[o..o + |body| + |Close(name)|] == body + Close(name)
    ensures var o := n + |name| + 2;
            BlockAt(s, n, name, attrs) == Some(Block(n, o, o + |body|, o + |body| + |Close(name)|))
  {
    var o := n + |name| + 2;
    OpenEndOfTag(s, n, name, attrs);
    ClosingAfter(s, o, name, body);
    BlockAtIs(s, n, name, attrs, o, o + |body|);
  }

  lemma OpenEndOfTag(s: string, n: nat, name: string, attrs: bool)
    requires n + |name| + 2 <= |s| && s[n..n + |name| + 2] == "[" + name + "]"
    ensures OpenEnd(s, n, name, attrs) == Some(n + |name| + 2)
  {
    var tag := "[" + name + "]";
    assert forall t :: 0 <= t < |tag| ==> s[n + t] == tag[t];
    assert MatchCI(s, n, "[" + name) by {
      assert forall t :: 0 <= t < |name| + 1 ==> s[n + t] == ("[" + name)[t];
    }
    assert s[n + |name| + 1] == ']';
    if attrs {
      assert FindFrom(s, ']', n + 1 + |name|) == n + |name| + 1;
    }
  }

  lemma ClosingAfter(s: string, o: nat, name: string, body: string)
    requires ClosesOnce(body, name)
    requires o + |body| + |Close(name)| <= |s| && s[o..o + |body| + |Close(name)|] == body + Close(name)
    ensures MatchCI(s, o + |body|, Close(name))
    ensures forall j :: o <= j < o + |body| ==> !MatchCI(s, j, Close(name))
  {
    var tail := body + Close(name);
    assert forall t :: 0 <= t < |tail| ==> s[o + t] == tail[t];
    forall j | o <= j < o + |body| ensures !MatchCI(s, j, Close(name)) {
      assert !MatchCI(tail, j - o, Close(name));
    }
    assert forall t :: 0 <= t < |Close(name)| ==> s[o + |body| + t] == Close(name)[t];
  }

  /** BlockAt finds the block whose opening tag ends at `o` and whose first
      closing tag starts at `c`. */
  lemma BlockAtIs(s: string, i: nat, name: string, attrs: bool, o: nat, c: nat)
    requires OpenEnd(s, i, name, attrs) == Some(o)
    requires o <= c < |s| && MatchCI(s, c, Close(name))
    requires forall j :: o <= j < c ==> !MatchCI(s, j, Close(name))
    ensures BlockAt(s, i, name, attrs) == Some(Block(i, o, c, c + |Close(name)|))
  {
    assert FindCI(s, Close(name), o) == c;
  }

  /** A block at `i` is the first one scanned from `i`. */
  lemma BlocksFromBlock(s: string, i: nat, name: string, attrs: bool)
    requires BlockAt(s, i, name, attrs).Some?
    ensures var b := BlockAt(s, i, name, attrs).value;
            Blocks(s, i, name, attrs) == [s[i..b.end]] + Blocks(s, b.end, name, attrs)
  {
    assert i < |s|;
    assert FirstBlock(s, i, name, attrs) == BlockAt(s, i, name, attrs);
  }

  /** No opening tag from `i` on: no blocks. */
  lemma BlocksNone(s: string, i: nat, name: string, attrs: bool)
    requires forall j :: i <= j < |s| ==> !MatchCI(s, j, "[" + name)
    ensures Blocks(s, i, name, attrs) == []
  {
    forall j | i <= j ensures OpenEnd(s, j, name, attrs).None? {
      assert !MatchCI(s, j, "[" + name);
    }
  }

  /** Positions where no block starts are passed over. */
  lemma BlocksSkip(s: string, i: nat, k: nat, name: string, attrs: bool)
    requires i <= k && forall j :: i <= j < k ==> !MatchCI(s, j, "[" + name)
    ensures Blocks(s, i, name, attrs) == Blocks(s, k, name, attrs)
  {
    var r := FirstBlock(s, i, name, attrs);
    var r' := FirstBlock(s, k, name, attrs);
    if r.Some? {
      assert MatchCI(s, r.value.start, "[" + name);
      assert k <= r.value.start;
    }
    if r'.Some? {
      assert r.Some? && r.value.start <= r'.value.start;
      assert r.value.start >= k;
    }
    assert r == r';
  }

  /** Scanning written blocks, followed by text where no block opens,
      gives the blocks back, one per block, in order. */
  lemma {:induction false} BlocksOfWrapAll(s: string, i: nat, name: string, bodies: seq<string>, rest: string, attrs: bool)
    requires i <= |s| && s[i..] == WrapAll(name, bodies) + rest
    requires forall k :: 0 <= k < |bodies| ==> ClosesOnce(bodies[k], name)
    requires forall j :: |s| - |rest| <= j < |s| ==> !MatchCI(s, j, "[" + name)
    ensures Blocks(s, i, name, attrs) == Wrapped(name, bodies)
    decreases |bodies|
  {
    if bodies == [] {
      assert s[i..] == rest;
      assert |s| - |rest| == i;
      BlocksNone(s, i, name, attrs);
    } else {
      var tail := WrapAll(name, bodies[1..]) + rest;
      assert s[i..] == Wrap(name, bodies[0]) + tail;
      var e := i + |Wrap(name, bodies[0])|;
      BlocksOfWrap(s, i, e, name, bodies[0], tail, attrs);
      BlocksOfWrapAll(s, e, name, bodies[1..], rest, attrs);
    }
  }

  /** Scanning a written block first gives that block; scanning goes on
      from `e`, where the block ends. */
  lemma BlocksOfWrap(s: string, i: nat, e: nat, name: string, body: string, tail: string, attrs: bool)
    requires i <= |s| && s[i..] == Wrap(name, body) + tail && e == i + |Wrap(name, body)|
    requires ClosesOnce(body, name)
    ensures e <= |s| && s[e..] == tail
    ensures Blocks(s, i, name, attrs) == [Wrap(name, body)] + Blocks(s, e, name, attrs)
  {
    BlockAtWrap(s, i, name, body, tail, attrs);
    BlocksOfBlock(s, i, e, Wrap(name, body), name, attrs);
  }

  /** A written block standing at `i` is found there, and ends where the
      text after it begins. */
  lemma BlockAtWrap(s: string, i: nat, name: string, body: string, tail: string, attrs: bool)
    requires i <= |s| && s[i..] == Wrap(name, body) + tail
    requires ClosesOnce(body, name)
    ensures var e := i + |Wrap(name, body)|;
            && e <= |s| && s[e..] == tail && s[i..e] == Wrap(name, body)
            && BlockAt(s, i, name, attrs).Some? && BlockAt(s, i, name, attrs).value.end == e
  {
    WrapSlices(s, i, name, body, tail);
    BlockAtTagged(s, i, name, body, attrs);
  }

  /** A block at `i` ending at `e` is the first match scanned from `i`. */
  lemma BlocksOfBlock(s: string, i: nat, e: nat, w: string, name: string, attrs: bool)
    requires BlockAt(s, i, name, attrs).Some? && BlockAt(s, i, name, attrs).value.end == e
    requires e <= |s| && s[i..e] == w
    ensures Blocks(s, i, name, attrs) == [w] + Blocks(s, e, name, attrs)
  {
    BlocksFromBlock(s, i, name, attrs);
  }

  /** The inner text of a written block is its body. */
  lemma InnerOfWrap(name: string, body: string, attrs: bool)
    requires ClosesOnce(body, name)
    ensures Inner(Wrap(name, body), name, attrs) == body
  {
    var s := Wrap(name, body);
    assert s[0..] == Wrap(name, body) + [];
    WrapSlices(s, 0, name, body, []);
    BlockAtTagged(s, 0, name, body, attrs);
  }

  /** Of two written tables, the second is the body table. */
  lemma BodyTableOfTwo(header: string, content: string)
    requires ClosesOnce(header, "TABLE") && ClosesOnce(content, "TABLE")
    ensures BodyTable(Wrap("TABLE", header) + Wrap("TABLE", content)) == Wrap("TABLE", content)
  {
    var raw := Wrap("TABLE", header) + Wrap("TABLE", content);
    var both: seq<string> := [header, content];
    assert WrapAll("TABLE", both) == raw by {
      assert both[1..] == [content];
      assert both[1..][1..] == [];
      assert WrapAll("TABLE", both[1..]) == Wrap("TABLE", content) + [];
    }
    assert raw[0..] == WrapAll("TABLE", both) + [];
    BlocksOfWrapAll(raw, 0, "TABLE", both, [], true);
  }

  /** A single written table is the body table. */
  lemma BodyTableOfOne(content: string)
    requires ClosesOnce(content, "TABLE")
    ensures BodyTable(Wrap("TABLE", content)) == Wrap("TABLE", content)
  {
    var raw := Wrap("TABLE", content);
    var one: seq<string> := [content];
    assert WrapAll("TABLE", one) == raw by {
      assert one[1..] == [];
    }
    assert raw[0..] == WrapAll("TABLE", one) + [];
    BlocksOfWrapAll(raw, 0, "TABLE", one, [], true);
  }

  /** The `[TR]` blocks of written rows are those rows. */
  lemma RowBlocksOfWrapAll(bodies: seq<string>)
    requires forall k :: 0 <= k < |bodies| ==> ClosesOnce(bodies[k], "TR")
    ensures Blocks(WrapAll("TR", bodies), 0, "TR", false)
            == Wrapped("TR", bodies)
  {
    var content := WrapAll("TR", bodies);
    assert content[0..] == content + [];
    BlocksOfWrapAll(content, 0, "TR", bodies, [], false);
  }

  /** The `[TR]` blocks of a roster written as a date header table followed
      by the body table read back as the body table's rows. */
  lemma TableRowsOfTwoTables(header: string, bodies: seq<string>)
    requires ClosesOnce(header, "TABLE") && ClosesOnce(WrapAll("TR", bodies), "TABLE")
    requires forall k :: 0 <= k < |bodies| ==> ClosesOnce(bodies[k], "TR")
    ensures TableRows(Wrap("TABLE", header) + Wrap("TABLE", WrapAll("TR", bodies)))
            == Wrapped("TR", bodies)
  {
    BodyTableOfTwo(header, WrapAll("TR", bodies));
    InnerOfWrap("TABLE", WrapAll("TR", bodies), true);
    RowBlocksOfWrapAll(bodies);
  }

  /** With a single table, that table is the body table. */
  lemma TableRowsOfOneTable(bodies: seq<string>)
    requires ClosesOnce(WrapAll("TR", bodies), "TABLE")
    requires forall k :: 0 <= k < |bodies| ==> ClosesOnce(bodies[k], "TR")
    ensures TableRows(Wrap("TABLE", WrapAll("TR", bodies)))
            == Wrapped("TR", bodies)
  {
    BodyTableOfOne(WrapAll("TR", bodies));
    InnerOfWrap("TABLE", WrapAll("TR", bodies), true);
    RowBlocksOfWrapAll(bodies);
  }

  // ------------------------------------------------------------ rows

  const EN_DASH: char := '\U{2013}'
  const HOURS_24: int := 24 * 60

  /** `\s*<dash>\s*` tried at `i`: the end of the match. */
  function DashEnd(s: string, i: nat, dash: char): (e: Option<nat>)
    requires i <= |s|
    ensures e.Some? ==> i < e.value <= |s|
  {
    var k := SkipSpaces(s, i);
    if k < |s| && s[k] == dash then Some(SkipSpaces(s, k + 1)) else None
  }

  /** `replace` of the global pattern `\s*–\s*` by `' - '`, from `i` on: every en dash,
      with the whitespace around it, becomes a spaced hyphen. */
  function ReplaceEnDashes(s: string, i: nat): (r: string)
    requires i <= |s|
    ensures EN_DASH !in r
    ensures forall c :: c in r ==> c == ' ' || c == '-' || c in s[i..]
    decreases |s| - i
  {
    if i == |s| then []
    else
      match DashEnd(s, i, EN_DASH)
      case Some(e) =>
        assert forall c :: c in s[e..] ==> c in s[i..];
        " - " + ReplaceEnDashes(s, e)
      case None =>
        assert forall c :: c in s[i + 1..] ==> c in s[i..];
        [s[i]] + ReplaceEnDashes(s, i + 1)
  }

  /** `split` on the pattern `\s*-\s*`: the pieces between the hyphens, each hyphen taking
      the whitespace around it along; `from` is where the current piece
      started and `i` where the next match is tried. */
  function SplitDash(s: string, from: nat, i: nat): (r: seq<string>)
    requires from <= i <= |s|
    requires forall j :: from <= j < i ==> s[j] != '-'
    ensures |r| >= 1
    decreases |s| - i
  {
    if i == |s| then [s[from..]]
    else
      match DashEnd(s, i, '-')
      case Some(e) =>
        [s[from..i]] + SplitDash(s, e, e)
      case None =>
        assert s[i] != '-';
        SplitDash(s, from, i + 1)
  }

  /** No piece of the split holds a hyphen. */
  lemma {:induction false} SplitDashPieces(s: string, from: nat, i: nat)
    requires from <= i <= |s|
    requires forall j :: from <= j < i ==> s[j] != '-'
    ensures forall k :: 0 <= k < |SplitDash(s, from, i)| ==> '-' !in SplitDash(s, from, i)[k]
    decreases |s| - i
  {
    if i == |s| {
      assert forall j :: 0 <= j < |s[from..]| ==> s[from..][j] == s[from + j];
    } else {
      match DashEnd(s, i, '-')
      case Some(e) =>
        SplitDashPieces(s, e, e);
        assert forall j :: 0 <= j < |s[from..i]| ==> s[from..i][j] == s[from + j];
      case None =>
        assert s[i] != '-';
        SplitDashPieces(s, from, i + 1);
    }
  }

  /** The time cell's label: markup stripped, en dashes turned into spaced
      hyphens, whitespace runs collapsed, trimmed. */
  function TimeLabel(cell: string): (r: string)
    ensures Trimmed(r) && SingleSpaced(r) && EN_DASH !in r
  {
    var d := ReplaceEnDashes(StripBB(cell), 0);
    var c := CollapseSpaces(d);
    CollapseAvoids(d, EN_DASH);
    TrimKeepsSpacing(c);
    TrimAvoids(c, EN_DASH);
    Trim(c)
  }

  /** Where no en dash lies between `j` and `n`, and `s[n - 1]` is not
      whitespace, no dash is found at `j`. */
  lemma DashEndBefore(s: string, j: nat, n: nat)
    requires j < n <= |s| && !IsSpace(s[n - 1])
    requires forall t :: j <= t < n ==> s[t] != EN_DASH
    ensures DashEnd(s, j, EN_DASH).None?
  {
    var k := SkipSpaces(s, j);
  }

  /** Away from an en dash, one character is copied. */
  lemma ReplaceEnDashesStep(s: string, i: nat)
    requires i < |s| && DashEnd(s, i, EN_DASH).None?
    ensures ReplaceEnDashes(s, i) == [s[i]] + ReplaceEnDashes(s, i + 1)
  {
  }

  /** Text with no en dash is copied as it is. */
  lemma {:induction false} ReplaceEnDashesNone(s: string, i: nat)
    requires i <= |s| && forall j :: i <= j < |s| ==> s[j] != EN_DASH
    ensures ReplaceEnDashes(s, i) == s[i..]
    decreases |s| - i
  {
    if i < |s| {
      var k := SkipSpaces(s, i);
      assert DashEnd(s, i, EN_DASH).None?;
      ReplaceEnDashesStep(s, i);
      ReplaceEnDashesNone(s, i + 1);
      assert s[i..] == [s[i]] + s[i + 1..];
    }
  }

  /** A stretch with no en dash that ends in a non-space is copied as it is. */
  lemma {:induction false} ReplaceEnDashesCopy(s: string, i: nat, n: nat)
    requires i <= n <= |s| && (i < n ==> !IsSpace(s[n - 1]))
    requires forall t :: i <= t < n ==> s[t] != EN_DASH
    ensures ReplaceEnDashes(s, i) == s[i..n] + ReplaceEnDashes(s, n)
    decreases n - i
  {
    if i < n {
      var rest := ReplaceEnDashes(s, n);
      DashEndBefore(s, i, n);
      ReplaceEnDashesCopy(s, i + 1, n);
      ReplaceEnDashesStep(s, i);
      SliceHead(s, i, n);
      AppendAssoc([s[i]], s[i + 1..n], rest);
    }
  }

  /** `a – b` becomes `a - b`. */
  lemma ReplaceEnDashesOfRange(a: string, b: string)
    requires a != [] && Trimmed(a) && EN_DASH !in a
    requires b != [] && Trimmed(b) && EN_DASH !in b
    ensures ReplaceEnDashes(a + [' ', EN_DASH, ' '] + b, 0) == a + " - " + b
  {
    var m := a + [' ', EN_DASH, ' '] + b;
    var n := |a|;
    RangeLayout(a, b, m);
    SliceWithout(m, 0, n, a, EN_DASH);
    ReplaceEnDashesCopy(m, 0, n);
    DashEndOfSpacedDash(m, n);
    SliceWithout(m, n + 3, |m|, b, EN_DASH);
    ReplaceEnDashesNone(m, n + 3);
    AppendAssoc(a, " - ", b);
  }

  lemma RangeLayout(a: string, b: string, m: string)
    requires a != [] && b != [] && m == a + [' ', EN_DASH, ' '] + b
    ensures var n := |a|;
            n + 4 <= |m| && m[0..n] == a && m[n - 1] == a[n - 1]
            && m[n..n + 4] == [' ', EN_DASH, ' ', m[n + 3]] && m[n + 3] == b[0] && m[n + 3..] == b
  {
    var n := |a|;
    assert m[0..n] == a;
    assert m[n..n + 4] == [' ', EN_DASH, ' ', m[n + 3]];
    assert m[n + 3..] == b;
  }

  /** At ` – x`, with `x` not whitespace, the dash and the spaces around it
      become ` - `. */
  lemma DashEndOfSpacedDash(s: string, n: nat)
    requires n + 4 <= |s| && s[n..n + 4] == [' ', EN_DASH, ' ', s[n + 3]] && !IsSpace(s[n + 3])
    ensures ReplaceEnDashes(s, n) == " - " + ReplaceEnDashes(s, n + 3)
  {
    assert s[n] == ' ' && s[n + 1] == EN_DASH && s[n + 2] == ' ';
    SkipSpacesIs(s, n, n + 1);
    SkipSpacesIs(s, n + 2, n + 3);
    assert DashEnd(s, n, EN_DASH) == Some(n + 3);
  }

  /** `[TD]a – b[/TD]` strips to `a – b` when both times are bracket-free,
      trimmed and single-spaced. */
  lemma StripBBOfRange(a: string, b: string)
    requires a != [] && Trimmed(a) && SingleSpaced(a) && '[' !in a
    requires b != [] && Trimmed(b) && SingleSpaced(b) && '[' !in b
    ensures StripBB("[TD]" + a + " \U{2013} " + b + "[/TD]") == a + [' ', EN_DASH, ' '] + b
  {
    var m := a + [' ', EN_DASH, ' '] + b;
    assert "[TD]" + a + " \U{2013} " + b + "[/TD]" == "[" + "TD" + "]" + m + "[/" + "TD" + "]";
    assert '[' !in m by {
      forall t | 0 <= t < |m| ensures m[t] != '[' {
        if t < |a| {
          assert m[t] == a[t];
        } else if t >= |a| + 3 {
          assert m[t] == b[t - |a| - 3];
        }
      }
    }
    assert STYLE_TAGS[5] == "TD";
    StripBBTag("TD", m);
    SpacedAround(a, EN_DASH, b);
    CollapseOfSingleSpaced(m);
    TrimOfTrimmed(m);
  }

  /** A stripped cell without an en dash is its own label. */
  lemma TimeLabelWithoutDash(cell: string)
    requires EN_DASH !in StripBB(cell)
    ensures TimeLabel(cell) == StripBB(cell)
  {
    var s := StripBB(cell);
    ReplaceEnDashesNone(s, 0);
    assert s[0..] == s;
    CollapseOfSingleSpaced(s);
    TrimOfTrimmed(s);
  }

  /** The time cell `[TD]a – b[/TD]` is labelled `a - b`, and that label
      splits back into `a` and `b` when neither holds a hyphen. */
  lemma TimeLabelOfRange(a: string, b: string)
    requires a != [] && Trimmed(a) && SingleSpaced(a) && '[' !in a && EN_DASH !in a
    requires b != [] && Trimmed(b) && SingleSpaced(b) && '[' !in b && EN_DASH !in b
    ensures TimeLabel("[TD]" + a + " \U{2013} " + b + "[/TD]") == a + " - " + b
    ensures '-' !in a && '-' !in b ==> LabelTimes(TimeLabel("[TD]" + a + " \U{2013} " + b + "[/TD]")) == (a, b)
  {
    StripBBOfRange(a, b);
    ReplaceEnDashesOfRange(a, b);
    var d := a + " - " + b;
    assert d == a + [' ', '-', ' '] + b;
    SpacedAround(a, '-', b);
    CollapseOfSingleSpaced(d);
    TrimOfTrimmed(d);
    if '-' !in a && '-' !in b {
      LabelTimesOfPair(a, b);
    }
  }

  /** A label `start - end` splits back into its two times. */
  lemma {:induction false} SplitDashPair(a: string, b: string)
    requires a != [] && !IsSpace(a[|a| - 1]) && '-' !in a
    requires (b == [] || !IsSpace(b[0])) && '-' !in b
    ensures SplitDash(a + " - " + b, 0, 0) == [a, b]
  {
    var s := a + " - " + b;
    var n := |a|;
    assert s[n] == ' ' && s[n + 1] == '-' && s[n + 2] == ' ';
    assert forall j :: 0 <= j < n ==> s[j] == a[j];
    assert forall j :: n + 3 <= j < |s| ==> s[j] == b[j - n - 3];
    assert s[..n] == a && s[n + 3..] == b;
    SplitDashAt(s, n);
  }

  /** A text whose only hyphen is the one of ` - ` at `n`, with no
      whitespace just outside that separator, splits into the two sides. */
  lemma {:induction false} SplitDashAt(s: string, n: nat)
    requires 1 <= n && n + 3 <= |s| && s[n] == ' ' && s[n + 1] == '-' && s[n + 2] == ' '
    requires !IsSpace(s[n - 1]) && (n + 3 == |s| || !IsSpace(s[n + 3]))
    requires forall j :: 0 <= j < n ==> s[j] != '-'
    requires forall j :: n + 3 <= j < |s| ==> s[j] != '-'
    ensures SplitDash(s, 0, 0) == [s[..n], s[n + 3..]]
  {
    SplitDashNone(s, n + 3);
    DashEndAtSeparator(s, n);
    SplitDashSkip(s, 0, 0, n);
    assert s[0..n] == s[..n];
  }

  lemma DashEndAtSeparator(s: string, n: nat)
    requires n + 3 <= |s| && s[n] == ' ' && s[n + 1] == '-' && s[n + 2] == ' '
    requires n + 3 == |s| || !IsSpace(s[n + 3])
    ensures DashEnd(s, n, '-') == Some(n + 3)
  {
    assert SkipSpaces(s, n + 1) == n + 1;
    assert SkipSpaces(s, n) == n + 1;
    assert SkipSpaces(s, n + 3) == n + 3;
    assert SkipSpaces(s, n + 2) == n + 3;
  }

  /** A label with no hyphen is one piece. */
  lemma SplitDashSingle(a: string)
    requires '-' !in a
    ensures SplitDash(a, 0, 0) == [a]
  {
    SplitDashNone(a, 0);
  }

  lemma {:induction false} SplitDashNone(s: string, from: nat)
    requires from <= |s| && forall j :: from <= j < |s| ==> s[j] != '-'
    ensures SplitDash(s, from, from) == [s[from..]]
  {
    SplitDashTail(s, from, from);
  }

  lemma {:induction false} SplitDashTail(s: string, from: nat, i: nat)
    requires from <= i <= |s| && forall j :: from <= j < |s| ==> s[j] != '-'
    ensures SplitDash(s, from, i) == [s[from..]]
    decreases |s| - i
  {
    if i < |s| {
      var k := SkipSpaces(s, i);
      assert k < |s| ==> s[k] != '-';
      SplitDashTail(s, from, i + 1);
    }
  }

  /** No match is tried successfully before `k` when no hyphen comes
      before it and the character just before it is not whitespace. */
  lemma {:induction false} SplitDashSkip(s: string, from: nat, i: nat, k: nat)
    requires from <= i <= k < |s| && 0 < k && !IsSpace(s[k - 1])
    requires forall j :: from <= j < k ==> s[j] != '-'
    ensures SplitDash(s, from, i) == SplitDash(s, from, k)
    decreases k - i
  {
    if i < k {
      SplitDashStep(s, from, i, k);
      SplitDashSkip(s, from, i + 1, k);
    }
  }

  lemma SplitDashStep(s: string, from: nat, i: nat, k: nat)
    requires from <= i < k < |s| && !IsSpace(s[k - 1])
    requires forall j :: from <= j < k ==> s[j] != '-'
    ensures SplitDash(s, from, i) == SplitDash(s, from, i + 1)
  {
    var m := SkipSpaces(s, i);
    assert m < k;
    assert DashEnd(s, i, '-').None?;
  }

  /** `if (start && end && end <= start)`: an end not after the start is on
      the next day. */
  function RollOver(start: Option<int>, end: Option<int>): (r: Option<int>)
    ensures r.Some? <==> end.Some?
    ensures r.Some? ==> r.value - end.value == (if start.Some? && end.value <= start.value then HOURS_24 else 0)
  {
    if start.Some? && end.Some? && end.value <= start.value then Some(end.value + HOURS_24) else end
  }

  /** For two clock readings within one day, the rolled-over end is after the
      start and at most a day later. */
  lemma RollOverSpan(start: int, end: int)
    requires 0 <= start < HOURS_24 && 0 <= end < HOURS_24
    ensures var r := RollOver(Some(start), Some(end)).value;
            start < r <= start + HOURS_24
  {
  }

  /** The start and end texts of a label: its first two hyphen pieces, the
      second empty when missing. */
  function LabelTimes(timeLabel: string): (r: (string, string))
    ensures '-' !in r.0 && '-' !in r.1
  {
    var pieces := SplitDash(timeLabel, 0, 0);
    SplitDashPieces(timeLabel, 0, 0);
    (pieces[0], if |pieces| > 1 then pieces[1] else "")
  }

  /** A label `start - end` splits back into its two times. */
  lemma LabelTimesOfPair(a: string, b: string)
    requires a != [] && !IsSpace(a[|a| - 1]) && '-' !in a
    requires (b == [] || !IsSpace(b[0])) && '-' !in b
    ensures LabelTimes(a + " - " + b) == (a, b)
  {
    SplitDashPair(a, b);
  }

  /** A label `H am|pm - H am|pm` gives both readings, the end moved by a
      whole day exactly when its clock value is not after the start's. */
  lemma {:induction false} MeridiemLabelSpan(d1: string, ap1: Meridiem, d2: string, ap2: Meridiem)
    requires 1 <= |d1| <= 2 && forall i :: 0 <= i < |d1| ==> IsDigit(d1[i])
    requires 1 <= |d2| <= 2 && forall i :: 0 <= i < |d2| ==> IsDigit(d2[i])
    ensures SpanOf(d1 + " " + MeridiemText(ap1), d2 + " " + MeridiemText(ap2),
                   To24(DecimalValue(d1), ap1), To24(DecimalValue(d2), ap2))
  {
    MeridiemWord(d1, ap1, d1 + " " + MeridiemText(ap1));
    MeridiemWord(d2, ap2, d2 + " " + MeridiemText(ap2));
    PairSpan(d1 + " " + MeridiemText(ap1), d2 + " " + MeridiemText(ap2),
             To24(DecimalValue(d1), ap1), To24(DecimalValue(d2), ap2));
  }

  /** The label `a - b` reads as starting at hour `h1` and ending at hour
      `h2`, a day later when `h2` is not after `h1`. */
  ghost predicate SpanOf(a: string, b: string, h1: int, h2: int) {
    && ClockSpec(LabelTimes(a + " - " + b).0) == Some(h1 * 60)
    && RollOver(ClockSpec(LabelTimes(a + " - " + b).0), ClockSpec(LabelTimes(a + " - " + b).1))
       == Some(h2 * 60 + (if h2 <= h1 then HOURS_24 else 0))
  }

  /** What a label needs of an hour-and-meridiem text `a`. */
  lemma {:induction false} MeridiemWord(d: string, ap: Meridiem, a: string)
    requires 1 <= |d| <= 2 && forall i :: 0 <= i < |d| ==> IsDigit(d[i])
    requires a == d + " " + MeridiemText(ap)
    ensures a != [] && !IsSpace(a[0]) && !IsSpace(a[|a| - 1]) && '-' !in a
    ensures ClockSpec(a) == Some(To24(DecimalValue(d), ap) * 60)
  {
    MeridiemTextPlain(d, ap);
    MeridiemReading(d, ap);
  }

  /** Two readings joined by a hyphen: the end rolls over exactly when its
      hour is not after the start's. */
  lemma {:induction false} PairSpan(a: string, b: string, h1: int, h2: int)
    requires a != [] && !IsSpace(a[|a| - 1]) && '-' !in a
    requires b != [] && !IsSpace(b[0]) && '-' !in b
    requires ClockSpec(a) == Some(h1 * 60) && ClockSpec(b) == Some(h2 * 60)
    ensures SpanOf(a, b, h1, h2)
  {
    LabelTimesOfPair(a, b);
  }

  /** An hour-and-meridiem text has no hyphen, starts with its first digit
      and ends with `m`. */
  lemma MeridiemTextPlain(d: string, ap: Meridiem)
    requires 1 <= |d| <= 2 && forall i :: 0 <= i < |d| ==> IsDigit(d[i])
    ensures var s := d + " " + MeridiemText(ap);
            '-' !in s && s[0] == d[0] && s[|s| - 1] == 'm' && !IsSpace(s[0])
  {
    var s := d + " " + MeridiemText(ap);
    assert forall i :: 0 <= i < |s| ==> s[i] == ' ' || IsDigit(s[i]) || IsLowerAscii(s[i]);
  }

  /** The overnight shift `11 pm - 6 am`: the start is 23:00 of the roster day and the end 06:00 of the
      next, seven hours later. */
  lemma OvernightShift()
    ensures var times := LabelTimes("11 pm - 6 am");
            && ClockSpec(times.0) == Some(23 * 60)
            && RollOver(ClockSpec(times.0), ClockSpec(times.1)) == Some(HOURS_24 + 6 * 60)
            && RollOver(ClockSpec(times.0), ClockSpec(times.1)) == Some(23 * 60 + 7 * 60)
  {
    var d1, d2 := "11", "6";
    assert (d1 + " " + MeridiemText(Pm)) + " - " + (d2 + " " + MeridiemText(Am)) == "11 pm - 6 am";
    ElevenAndSix();
    assert To24(DecimalValue(d1), Pm) == 23;
    assert To24(DecimalValue(d2), Am) == 6;
    MeridiemLabelSpan(d1, Pm, d2, Am);
  }

  lemma ElevenAndSix()
    ensures DecimalValue("11") == 11 && DecimalValue("6") == 6
  {
    assert "11"[..1] == "1" && "1"[..0] == [];
    assert "6"[..0] == [];
  }

  /** One data row from its first four cells. */
  function BuildRow(tds: seq<string>): (r: Row)
    requires |tds| >= 4
    ensures r.natKey == Lower(StripBB(tds[0])) && NoUpperAscii(r.natKey)
    ensures Trimmed(r.timeLabel) && SingleSpaced(r.timeLabel) && EN_DASH !in r.timeLabel
    ensures r.timeLabel == TimeLabel(tds[2])
    ensures r.start == ClockSpec(LabelTimes(r.timeLabel).0)
    ensures r.end == RollOver(r.start, ClockSpec(LabelTimes(r.timeLabel).1))
    ensures r.end.Some? <==> ClockSpec(LabelTimes(r.timeLabel).1).Some?
    ensures r.flag == GuessFlag(StripBB(tds[0]))
    ensures r.name == ExtractURLAndText(tds[1]).text
    ensures r.rate == AppCleanRate(tds[3])
  {
    var natText := StripBB(tds[0]);
    var timeLabel := TimeLabel(tds[2]);
    var times := LabelTimes(timeLabel);
    var start := ClockSpec(times.0);
    Row(GuessFlag(natText), ExtractURLAndText(tds[1]).text, start, RollOver(start, ClockSpec(times.1)),
        AppCleanRate(tds[3]), Lower(natText), timeLabel)
  }

  const HEADER_MARK: string := "[SIZE=3]"

  /** The row a `[TR]` block gives: none for a header row (one holding
      `[SIZE=3]`, ignoring case) or one with fewer than four cells. */
  function RowOf(tr: string): (r: Option<Row>)
    ensures r.Some? <==> FindCI(tr, HEADER_MARK, 0) == |tr| && |Blocks(tr, 0, "TD", true)| >= 4
    ensures r.Some? ==> r.value == BuildRow(Blocks(tr, 0, "TD", true))
  {
    if FindCI(tr, HEADER_MARK, 0) < |tr| then None
    else
      var tds := Blocks(tr, 0, "TD", true);
      if |tds| < 4 then None else Some(BuildRow(tds))
  }

  /** The values `f` gives for the elements of `s`, in order, skipping the
      elements it gives none for. */
  function Keep<T, U>(f: T -> Option<U>, s: seq<T>): (r: seq<U>)
    ensures |r| <= |s|
  {
    if s == [] then []
    else
      var init := Keep(f, s[..|s| - 1]);
      match f(s[|s| - 1])
      case None => init
      case Some(u) => init + [u]
  }

  /** Keeping is decided element by element. */
  lemma {:induction false} KeepAppend<T, U>(f: T -> Option<U>, a: seq<T>, b: seq<T>)
    ensures Keep(f, a + b) == Keep(f, a) + Keep(f, b)
    decreases |b|
  {
    if b == [] {
      assert a + b == a;
    } else {
      assert (a + b)[..|a + b| - 1] == a + b[..|b| - 1];
      KeepAppend(f, a, b[..|b| - 1]);
    }
  }

  /** The rows of the data rows among `trs`, in order. */
  function RowsOf(trs: seq<string>): (rows: seq<Row>)
    ensures |rows| <= |trs|
  {
    Keep(RowOf, trs)
  }

  /** Skipping a row never affects the others: the rows of two stretches of
      `[TR]` blocks are the rows of each, one after the other. */
  lemma RowsOfAppend(a: seq<string>, b: seq<string>)
    ensures RowsOf(a + b) == RowsOf(a) + RowsOf(b)
  {
    KeepAppend(RowOf, a, b);
  }

  /** The start and end of a time label: both halves parsed, the end
      moved to the next day when it is not after the start. */
  method LabelSpan(timeLabel: string) returns (start: Option<int>, end: Option<int>)
    ensures start == ClockSpec(LabelTimes(timeLabel).0)
    ensures end == RollOver(start, ClockSpec(LabelTimes(timeLabel).1))
  {
    var parsedEnd;
    start, parsedEnd := ParseHalves(timeLabel);
    end := RollOverEnd(start, parsedEnd);
  }

  /** The end moved a whole day on when it is not after the start. */
  method RollOverEnd(start: Option<int>, parsedEnd: Option<int>) returns (end: Option<int>)
    ensures end == RollOver(start, parsedEnd)
  {
    end := parsedEnd;
    if start.Some? && end.Some? && end.value <= start.value {
      end := Some(end.value + HOURS_24);
      RollOverLater(start.value, parsedEnd.value);
    } else {
      RollOverSame(start, parsedEnd);
    }
  }

  /** The label split at its first hyphen and both halves parsed. */
  method ParseHalves(timeLabel: string) returns (start: Option<int>, end: Option<int>)
    ensures start == ClockSpec(LabelTimes(timeLabel).0)
    ensures end == ClockSpec(LabelTimes(timeLabel).1)
  {
    var pieces := SplitDash(timeLabel, 0, 0);
    var startRaw := pieces[0];
    var endRaw := if |pieces| > 1 then pieces[1] else "";
    LabelTimesOfPieces(timeLabel, pieces);
    start := AppParseTimeToDate(startRaw);
    end := AppParseTimeToDate(endRaw);
  }

  lemma LabelTimesOfPieces(timeLabel: string, pieces: seq<string>)
    requires pieces == SplitDash(timeLabel, 0, 0)
    ensures LabelTimes(timeLabel) == (pieces[0], if |pieces| > 1 then pieces[1] else "")
  {
  }

  lemma RollOverLater(start: int, end: int)
    requires end <= start
    ensures RollOver(Some(start), Some(end)) == Some(end + HOURS_24)
  {
  }

  lemma RollOverSame(start: Option<int>, end: Option<int>)
    requires !(start.Some? && end.Some? && end.value <= start.value)
    ensures RollOver(start, end) == end
  {
  }

  /** The body of the `rows` loop for a row that is kept: the cells read
      into a `Row`. */
  method MakeRow(tds: seq<string>) returns (row: Row)
    requires |tds| >= 4
    ensures row == BuildRow(tds)
  {
    var natText := StripBB(tds[0]);
    var flag := GuessFlag(natText);
    var nameText := ExtractURLAndText(tds[1]).text;
    var timeLabel := TimeLabel(tds[2]);
    var rate := AppCleanRate(tds[3]);
    var start, end := LabelSpan(timeLabel);
    row := Row(flag, nameText, start, end, rate, Lower(natText), timeLabel);
  }

  /** The `rows` loop: header rows and short rows are skipped, every other
      `[TR]` block gives one row. */
  method BuildRows(trs: seq<string>) returns (rows: seq<Row>)
    ensures rows == RowsOf(trs)
  {
    rows := [];
    for i := 0 to |trs|
      invariant rows == RowsOf(trs[..i])
    {
      assert trs[..i + 1][..i] == trs[..i];
      var tr := trs[i];
      if FindCI(tr, HEADER_MARK, 0) < |tr| {
        continue;
      }
      var tds := Blocks(tr, 0, "TD", true);
      if |tds| < 4 {
        continue;
      }
      var row := MakeRow(tds);
      rows := rows + [row];
    }
    assert trs[..|trs|] == trs;
  }

  /** A written row of written cells, with no header mark in it, gives the
      row built from those cells. */
  lemma RowOfWritten(cells: seq<string>)
    requires |cells| >= 4
    requires forall k :: 0 <= k < |cells| ==> ClosesOnce(cells[k], "TD")
    requires FindCI(Wrap("TR", WrapAll("TD", cells)), HEADER_MARK, 0) == |Wrap("TR", WrapAll("TD", cells))|
    ensures RowOf(Wrap("TR", WrapAll("TD", cells)))
            == Some(BuildRow(Wrapped("TD", cells)))
  {
    var tr := Wrap("TR", WrapAll("TD", cells));
    CellBlocks(tr, cells);
  }

  lemma CellBlocks(tr: string, cells: seq<string>)
    requires tr == Wrap("TR", WrapAll("TD", cells))
    requires forall k :: 0 <= k < |cells| ==> ClosesOnce(cells[k], "TD")
    ensures Blocks(tr, 0, "TD", true) == Wrapped("TD", cells)
  {
    var body := WrapAll("TD", cells);
    assert tr == "[TR]" + body + "[/TR]";
    CellBlocksAfterOpen(tr, body);
    CellBlocksOfBody(tr, body, cells);
  }

  /** Scanning a written row for cells may start past its `[TR]`. */
  lemma CellBlocksAfterOpen(tr: string, body: string)
    requires tr == "[TR]" + body + "[/TR]"
    ensures Blocks(tr, 0, "TD", true) == Blocks(tr, 4, "TD", true)
  {
    assert tr[..4] == "[TR]";
    NoCellInRowOpen(tr);
    BlocksSkip(tr, 0, 4, "TD", true);
  }

  /** Past its `[TR]`, a written row holds its written cells. */
  lemma CellBlocksOfBody(tr: string, body: string, cells: seq<string>)
    requires body == WrapAll("TD", cells) && tr == "[TR]" + body + "[/TR]"
    requires forall k :: 0 <= k < |cells| ==> ClosesOnce(cells[k], "TD")
    ensures Blocks(tr, 4, "TD", true) == Wrapped("TD", cells)
  {
    assert tr[|tr| - 5..] == "[/TR]";
    assert tr[4..] == body + "[/TR]";
    NoCellInRowClose(tr);
    BlocksOfWrapAll(tr, 4, "TD", cells, "[/TR]", true);
  }

  lemma NoCellInRowOpen(tr: string)
    requires |tr| >= 4 && tr[..4] == "[TR]"
    ensures forall j :: 0 <= j < 4 ==> !MatchCI(tr, j, "[" + "TD")
  {
    var open := "[" + "TD";
    assert open[0] == '[' && open[2] == 'D';
    assert tr[0] == '[' && tr[1] == 'T' && tr[2] == 'R' && tr[3] == ']';
    forall j | 0 <= j < 4 ensures !MatchCI(tr, j, open) {
      if j == 0 {
        assert !EqIgnoreCase(tr[j + 2], open[2]);
      } else {
        assert !EqIgnoreCase(tr[j], open[0]);
      }
    }
  }

  lemma NoCellInRowClose(tr: string)
    requires |tr| >= 5 && tr[|tr| - 5..] == "[/TR]"
    ensures forall j :: |tr| - 5 <= j < |tr| ==> !MatchCI(tr, j, "[" + "TD")
  {
    var n := |tr|;
    var open := "[" + "TD";
    assert open[0] == '[' && open[1] == 'T' && |open| == 3;
    assert tr[n - 5] == '[' && tr[n - 4] == '/' && tr[n - 3] == 'T';
    forall j | n - 5 <= j < n ensures !MatchCI(tr, j, open) {
      if j == n - 5 {
        assert !EqIgnoreCase(tr[j + 1], open[1]);
      } else if j < n - 2 {
        assert !EqIgnoreCase(tr[j], open[0]);
      }
    }
  }

  // ------------------------------------------------------------ the parse

  /** What the parser hands to the page: the title, the groups, the rows in
      group order. */
  datatype Parsed = Parsed(title: string, groups: seq<Group>, flat: seq<Row>)

  /** `tables.length > 1 ? tables[1] : tables[0] || ''`: the second table
      when there are several (the first being the date header), else the
      only one. */
  function BodyTable(raw: string): (r: string)
    ensures r == [] || IsBlockText(r, "TABLE")
  {
    var tables := Blocks(raw, 0, "TABLE", true);
    BlocksAreBlockText(raw, 0, "TABLE", true);
    if |tables| > 1 then tables[1] else if |tables| == 1 then tables[0] else ""
  }

  /** The `[TR]` blocks of the body table's content. */
  function TableRows(raw: string): seq<string> {
    Blocks(Inner(BodyTable(raw), "TABLE", true), 0, "TR", false)
  }

  /** The parse of a pasted roster, as a value. */
  function ParsedOf(raw: string, fallbackTitle: string): Parsed {
    var rows := RowsOf(TableRows(raw));
    Parsed(PageTitle(raw, fallbackTitle), GroupsOf(rows), Flatten(GroupsOf(rows)))
  }

  /** `parsed` of src/App.tsx: the title, the body table's rows, then the
      grouping. The flat list is a rearrangement of the parsed rows. */
  method ParseRoster(raw: string, fallbackTitle: string) returns (p: Parsed)
    ensures p == ParsedOf(raw, fallbackTitle)
    ensures multiset(p.flat) == multiset(RowsOf(TableRows(raw)))
  {
    var pageTitle := PageTitle(raw, fallbackTitle);
    var tables := Blocks(raw, 0, "TABLE", true);
    var bodyTable := if |tables| > 1 then tables[1] else if |tables| == 1 then tables[0] else "";
    var content := Inner(bodyTable, "TABLE", true);
    var trs := Blocks(content, 0, "TR", false);
    var rows := BuildRows(trs);
    var groups, flat := GroupRows(rows);
    FlattenGroupsOfPermutes(rows);
    p := Parsed(pageTitle, groups, flat);
  }
}
