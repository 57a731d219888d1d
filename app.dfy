/**
 * The helpers of src/App.tsx: the flag table and `guessFlag`, the older
 * `cleanRate` (no `$`, lower case, a final `h` becomes `/h`), the local
 * copy of `parseTimeToDate` (no `24` branch), the `Row` record and
 * `toNotionMarkdown`. The file's `stripBB` and `extractURLAndText` are the
 * same as those of src/lib/utils.ts and are taken from module BBCode.
 */
module AppHelpers {
  import opened Text
  import opened BBCode
  import opened Clock

  // ------------------------------------------------------------ flags

  /** `FLAG_MAP` in declaration order: a nationality key and its flag, a pair
      of regional-indicator symbols. */
  const FLAG_MAP: seq<(string, string)> := [
    ("japanese", "\U{1F1EF}\U{1F1F5}"),
    ("chinese", "\U{1F1E8}\U{1F1F3}"),
    ("vietnamese", "\U{1F1FB}\U{1F1F3}"),
    ("thai", "\U{1F1F9}\U{1F1ED}"),
    ("turkish", "\U{1F1F9}\U{1F1F7}"),
    ("korean", "\U{1F1F0}\U{1F1F7}"),
    ("taiwanese", "\U{1F1F9}\U{1F1FC}")
  ]

  /** The first entry, from the `i`-th on, whose key occurs in `s`. */
  function FirstFlagFrom(s: string, i: nat): (r: Option<nat>)
    requires i <= |FLAG_MAP|
    ensures r.Some? ==> i <= r.value < |FLAG_MAP| && Contains(s, FLAG_MAP[r.value].0)
    ensures r.Some? ==> forall j :: i <= j < r.value ==> !Contains(s, FLAG_MAP[j].0)
    ensures r.None? ==> forall j :: i <= j < |FLAG_MAP| ==> !Contains(s, FLAG_MAP[j].0)
    decreases |FLAG_MAP| - i
  {
    if i == |FLAG_MAP| then None
    else if Contains(s, FLAG_MAP[i].0) then Some(i)
    else FirstFlagFrom(s, i + 1)
  }

  /** `guessFlag`: the flag of the first key, in table order, that occurs in
      the trimmed, lower-cased segment, or the empty string. */
  function GuessFlag(segment: string): (r: string)
    ensures var s := Lower(Trim(segment));
            r == [] <==> forall j :: 0 <= j < |FLAG_MAP| ==> !Contains(s, FLAG_MAP[j].0)
    ensures var s := Lower(Trim(segment));
            r != [] ==> exists j :: 0 <= j < |FLAG_MAP| && r == FLAG_MAP[j].1 && Contains(s, FLAG_MAP[j].0)
                                   && forall i :: 0 <= i < j ==> !Contains(s, FLAG_MAP[i].0)
  {
    var s := Lower(Trim(segment));
    match FirstFlagFrom(s, 0)
    case None => ""
    case Some(j) =>
      assert |FLAG_MAP[j].1| == 2;
      FLAG_MAP[j].1
  }

  /** `FLAG_MAP[k] || ''`: the flag stored under exactly the key `k`. */
  function FlagFor(k: string): (r: string)
    ensures r != [] <==> exists j :: 0 <= j < |FLAG_MAP| && FLAG_MAP[j].0 == k
    ensures forall j :: 0 <= j < |FLAG_MAP| && FLAG_MAP[j].0 == k ==> r == FLAG_MAP[j].1
  {
    FlagFrom(k, 0)
  }

  function FlagFrom(k: string, i: nat): (r: string)
    requires i <= |FLAG_MAP|
    ensures r != [] <==> exists j :: i <= j < |FLAG_MAP| && FLAG_MAP[j].0 == k
    ensures forall j :: i <= j < |FLAG_MAP| && FLAG_MAP[j].0 == k ==> r == FLAG_MAP[j].1
    decreases |FLAG_MAP| - i
  {
    if i == |FLAG_MAP| then ""
    else if FLAG_MAP[i].0 == k then
      assert forall j :: i < j < |FLAG_MAP| ==> FLAG_MAP[j].0 != FLAG_MAP[i].0;
      FLAG_MAP[i].1
    else FlagFrom(k, i + 1)
  }

  /** A text without some character of `t` does not contain `t`. */
  lemma MissingCharNotContained(s: string, t: string, c: char)
    requires c in t && c !in s
    ensures !Contains(s, t)
  {
    var k :| 0 <= k < |t| && t[k] == c;
    forall i | 0 <= i <= |s| - |t| ensures !MatchAt(s, i, t) {
      assert s[i + k] != c;
      assert i + |t| <= |s| ==> s[i..i + |t|][k] == s[i + k];
    }
  }

  /** No key of the table occurs in a later key, so a segment that is just a
      key gets that key's flag: `guessFlag` and the exact lookup agree on keys. */
  lemma GuessFlagOfKey(j: nat)
    requires j < |FLAG_MAP|
    ensures GuessFlag(FLAG_MAP[j].0) == FlagFor(FLAG_MAP[j].0) == FLAG_MAP[j].1
  {
    var k := FLAG_MAP[j].0;
    KeyIsPlain(j);
    ContainsSelf(k);
    EarlierKeysNotContained(j);
    FirstFlagFromIs(k, 0, j);
    GuessFlagIsFirst(k, k, j);
  }

  lemma ContainsSelf(k: string)
    ensures Contains(k, k)
  {
    assert MatchAt(k, 0, k);
  }

  lemma EarlierKeysNotContained(j: nat)
    requires j < |FLAG_MAP|
    ensures forall i :: 0 <= i < j ==> !Contains(FLAG_MAP[j].0, FLAG_MAP[i].0)
  {
    forall i | 0 <= i < j ensures !Contains(FLAG_MAP[j].0, FLAG_MAP[i].0) {
      EarlierKeyNotContained(i, j);
    }
  }

  lemma GuessFlagIsFirst(segment: string, s: string, j: nat)
    requires s == Lower(Trim(segment)) && FirstFlagFrom(s, 0) == Some(j)
    ensures j < |FLAG_MAP| && GuessFlag(segment) == FLAG_MAP[j].1
  {
  }

  lemma {:induction false} FirstFlagFromIs(s: string, i: nat, j: nat)
    requires i <= j < |FLAG_MAP| && Contains(s, FLAG_MAP[j].0)
    requires forall m :: i <= m < j ==> !Contains(s, FLAG_MAP[m].0)
    ensures FirstFlagFrom(s, i) == Some(j)
    decreases j - i
  {
    if i < j {
      FirstFlagFromIs(s, i + 1, j);
    }
  }

  /** Every key is already trimmed and lower-case. */
  lemma KeyIsPlain(j: nat)
    requires j < |FLAG_MAP|
    ensures Lower(Trim(FLAG_MAP[j].0)) == FLAG_MAP[j].0
  {
    var k := FLAG_MAP[j].0;
    assert k in ["japanese", "chinese", "vietnamese", "thai", "turkish", "korean", "taiwanese"];
    if k == "japanese" { PlainWord(k); }
    else if k == "chinese" { PlainWord(k); }
    else if k == "vietnamese" { PlainWord(k); }
    else if k == "thai" { PlainWord(k); }
    else if k == "turkish" { PlainWord(k); }
    else if k == "korean" { PlainWord(k); }
    else { PlainWord(k); }
  }

  /** A word of lower-case ASCII letters is its own trimmed lower-case form. */
  lemma PlainWord(k: string)
    requires k != [] && forall i :: 0 <= i < |k| ==> IsLowerAscii(k[i])
    ensures Lower(Trim(k)) == k
  {
    TrimOfTrimmed(k);
    LowerOfLower(k);
  }

  lemma EarlierKeyNotContained(i: nat, j: nat)
    requires i < j < |FLAG_MAP|
    ensures !Contains(FLAG_MAP[j].0, FLAG_MAP[i].0)
  {
    var s, t := FLAG_MAP[j].0, FLAG_MAP[i].0;
    var c := if i == 0 then 'j' else if i == 1 then 'c' else if i == 2 then 'v'
             else if i == 3 then (if j == 4 then 'a' else if j == 5 then 't' else 'h')
             else if i == 4 then (if j == 5 then 't' else 'u')
             else 'k';
    MissingCharNotContained(s, t, c);
  }

  // ------------------------------------------------------------ cleanRate

  /** The first digit at or after `i`, or `|t|`. */
  function FirstDigit(t: string, i: nat): (p: nat)
    requires i <= |t|
    ensures i <= p <= |t|
    ensures p < |t| ==> IsDigit(t[p])
    ensures forall j :: i <= j < p ==> !IsDigit(t[j])
    decreases |t| - i
  {
    if i == |t| || IsDigit(t[i]) then i else FirstDigit(t, i + 1)
  }

  /** Where the parts of `(\d+\s*\/?\s*h?r?)` (flag `i`) end when the
      match starts at the digit `p`: the digits, a whitespace run, an
      optional `/`, a whitespace run, an optional `h`, an optional `r`. Every
      part is greedy and everything after the digits is optional, so the
      first choice is the match. */
  datatype RateParts = RateParts(digitsEnd: nat, spaceEnd: nat, slashEnd: nat, space2End: nat, hourEnd: nat, end: nat)
  {
    predicate Slash() { slashEnd > spaceEnd }
    predicate Hour() { hourEnd > space2End }
    predicate PerHour() { end > hourEnd }
  }

  function AppRateParts(t: string, p: nat): (r: RateParts)
    requires p < |t| && IsDigit(t[p])
    ensures p < r.digitsEnd <= r.spaceEnd <= r.slashEnd <= r.space2End <= r.hourEnd <= r.end <= |t|
    ensures forall j :: p <= j < r.digitsEnd ==> IsDigit(t[j])
    ensures AllSpace(t[r.digitsEnd..r.spaceEnd]) && AllSpace(t[r.slashEnd..r.space2End])
    ensures t[r.spaceEnd..r.slashEnd] == [] || t[r.spaceEnd..r.slashEnd] == "/"
    ensures t[r.space2End..r.hourEnd] == [] || t[r.space2End..r.hourEnd] == "h" || t[r.space2End..r.hourEnd] == "H"
    ensures t[r.hourEnd..r.end] == [] || t[r.hourEnd..r.end] == "r" || t[r.hourEnd..r.end] == "R"
  {
    var d := DigitEnd(t, p);
    var a := SkipSpaces(t, d);
    var b := if a < |t| && t[a] == '/' then a + 1 else a;
    var c := SkipSpaces(t, b);
    var e := if c < |t| && (t[c] == 'h' || t[c] == 'H') then c + 1 else c;
    var f := if e < |t| && (t[e] == 'r' || t[e] == 'R') then e + 1 else e;
    SpaceRun(t, d);
    SpaceRun(t, b);
    OptionalChar(t, a, b, '/', '/');
    OptionalChar(t, c, e, 'h', 'H');
    OptionalChar(t, e, f, 'r', 'R');
    RateParts(d, a, b, c, e, f)
  }

  lemma SpaceRun(t: string, i: nat)
    requires i <= |t|
    ensures AllSpace(t[i..SkipSpaces(t, i)])
  {
    var k := SkipSpaces(t, i);
    assert forall j :: 0 <= j < k - i ==> t[i..k][j] == t[i + j];
  }

  /** An optional one-character part `[xy]?` at `i`, ending at `e`. */
  lemma OptionalChar(t: string, i: nat, e: nat, x: char, y: char)
    requires i <= |t| && e == if i < |t| && (t[i] == x || t[i] == y) then i + 1 else i
    ensures t[i..e] == [] || t[i..e] == [x] || t[i..e] == [y]
  {
    if e > i {
      assert t[i..e] == [t[i]];
    }
  }

  /** `.replace(/h$/, '/h')`: a final `h` becomes `/h`. */
  function SlashFinalH(g: string): (r: string)
    ensures g != [] && g[|g| - 1] == 'h' ==> |r| == |g| + 1 && r[..|g| - 1] == g[..|g| - 1] && r[|g| - 1..] == "/h"
    ensures !(g != [] && g[|g| - 1] == 'h') ==> r == g
  {
    if g != [] && g[|g| - 1] == 'h' then g[..|g| - 1] + "/h" else g
  }

  /** The App `cleanRate` once the token is stripped: with no digit the
      (already trimmed) text itself; otherwise the match with whitespace
      removed, lower-cased, and a final `h` turned into `/h`. */
  function AppRateOf(t: string): string {
    var p := FirstDigit(t, 0);
    if p == |t| then Trim(t)
    else SlashFinalH(Lower(RemoveSpaces(t[p..AppRateParts(t, p).end])))
  }

  /** `cleanRate` of src/App.tsx. */
  function AppCleanRate(token: string): string {
    AppRateOf(StripBB(token))
  }

  /** The App rate read off its parts: the digit run, `/` when the slash was
      there, then `/h` for a lone `h`, `hr` for `h` and `r`, `r` for a lone `r`. */
  function AppRateSpec(t: string): (r: string)
  {
    var p := FirstDigit(t, 0);
    if p == |t| then t
    else
      var m := AppRateParts(t, p);
      t[p..m.digitsEnd] + (if m.Slash() then "/" else "")
      + (if m.Hour() && !m.PerHour() then "/h" else if m.Hour() then "hr" else if m.PerHour() then "r" else "")
  }

  /** The replace chain computes the part-wise reading, for every stripped text. */
  lemma AppRateMeetsSpec(t: string)
    requires Trimmed(t)
    ensures AppRateOf(t) == AppRateSpec(t)
  {
    var p := FirstDigit(t, 0);
    if p == |t| {
      TrimOfTrimmed(t);
    } else {
      AppRateAt(t, p, AppRateParts(t, p));
    }
  }

  /** `cleanRate` of src/App.tsx is the part-wise reading of the stripped token. */
  lemma AppCleanRateMeetsSpec(token: string)
    ensures AppCleanRate(token) == AppRateSpec(StripBB(token))
  {
    AppRateMeetsSpec(StripBB(token));
  }

  lemma AppRateAt(t: string, p: nat, m: RateParts)
    requires p < |t| && IsDigit(t[p]) && m == AppRateParts(t, p)
    ensures SlashFinalH(Lower(RemoveSpaces(t[p..m.end])))
            == t[p..m.digitsEnd] + (if m.Slash() then "/" else "")
               + (if m.Hour() && !m.PerHour() then "/h" else if m.Hour() then "hr" else if m.PerHour() then "r" else "")
  {
    SixSlices(t, p, m.digitsEnd, m.spaceEnd, m.slashEnd, m.space2End, m.hourEnd, m.end);
    RateChain(t[p..m.digitsEnd], t[m.digitsEnd..m.spaceEnd], t[m.spaceEnd..m.slashEnd],
              t[m.slashEnd..m.space2End], t[m.space2End..m.hourEnd], t[m.hourEnd..m.end]);
  }

  lemma SixSlices(t: string, p: nat, d: nat, a: nat, b: nat, c: nat, e: nat, f: nat)
    requires p <= d <= a <= b <= c <= e <= f <= |t|
    ensures t[p..f] == t[p..d] + t[d..a] + t[a..b] + t[b..c] + t[c..e] + t[e..f]
  {
    assert t[p..f] == t[p..e] + t[e..f];
    assert t[p..e] == t[p..c] + t[c..e];
    assert t[p..c] == t[p..b] + t[b..c];
    assert t[p..b] == t[p..a] + t[a..b];
    assert t[p..a] == t[p..d] + t[d..a];
  }

  /** The replace chain on a match cut into its parts: digits, a whitespace
      run, an optional `/`, a whitespace run, an optional `h`, an optional `r`. */
  lemma RateChain(digits: string, s1: string, sl: string, s2: string, hh: string, rr: string)
    requires digits != [] && forall i :: 0 <= i < |digits| ==> IsDigit(digits[i])
    requires AllSpace(s1) && AllSpace(s2)
    requires sl == [] || sl == "/"
    requires hh == [] || hh == "h" || hh == "H"
    requires rr == [] || rr == "r" || rr == "R"
    ensures SlashFinalH(Lower(RemoveSpaces(digits + s1 + sl + s2 + hh + rr)))
            == digits + sl + (if hh != [] && rr == [] then "/h" else if hh != [] then "hr" else if rr != [] then "r" else "")
  {
    RemovePieces(digits, s1, sl, s2, hh, rr);
    var lh: string := if hh != [] then "h" else [];
    var lr: string := if rr != [] then "r" else [];
    LowerPieces(digits, sl, hh, rr, lh, lr);
    FinalH(digits, sl, lh, lr);
  }

  lemma LowerPieces(digits: string, sl: string, hh: string, rr: string, lh: string, lr: string)
    requires forall i :: 0 <= i < |digits| ==> IsDigit(digits[i])
    requires sl == [] || sl == "/"
    requires hh == [] || hh == "h" || hh == "H"
    requires rr == [] || rr == "r" || rr == "R"
    requires lh == (if hh != [] then "h" else []) && lr == (if rr != [] then "r" else [])
    ensures Lower(digits + sl + hh + rr) == digits + sl + lh + lr
  {
    var l := Lower(digits + sl + hh + rr);
    assert |l| == |digits + sl + lh + lr|;
    forall i | 0 <= i < |l| ensures l[i] == (digits + sl + lh + lr)[i] {
    }
  }

  lemma FinalH(digits: string, sl: string, lh: string, lr: string)
    requires digits != [] && forall i :: 0 <= i < |digits| ==> IsDigit(digits[i])
    requires sl == [] || sl == "/"
    requires lh == [] || lh == "h"
    requires lr == [] || lr == "r"
    ensures SlashFinalH(digits + sl + lh + lr)
            == digits + sl + (if lh != [] && lr == [] then "/h" else if lh != [] then "hr" else if lr != [] then "r" else "")
  {
    var g := digits + sl + lh + lr;
    if lh != [] && lr == [] {
      assert g[..|g| - 1] == digits + sl;
    } else if lr != [] {
      assert g[|g| - 1] == 'r';
    } else {
      assert g[|g| - 1] != 'h' by {
        if sl != [] { assert g[|g| - 1] == '/'; } else { assert g == digits; }
      }
    }
  }

  lemma RemovePieces(digits: string, s1: string, sl: string, s2: string, hh: string, rr: string)
    requires NoSpace(digits) && NoSpace(sl) && NoSpace(hh) && NoSpace(rr)
    requires AllSpace(s1) && AllSpace(s2)
    ensures RemoveSpaces(digits + s1 + sl + s2 + hh + rr) == digits + sl + hh + rr
  {
    RemoveSpacesOfNoSpace(digits);
    RemoveThen(digits, digits, s1, []);
    RemoveThen(digits + s1, digits, sl, sl);
    RemoveThen(digits + s1 + sl, digits + sl, s2, []);
    RemoveThen(digits + s1 + sl + s2, digits + sl, hh, hh);
    RemoveThen(digits + s1 + sl + s2 + hh, digits + sl + hh, rr, rr);
  }

  /** One more piece whose whitespace-free form is known. */
  lemma RemoveThen(prefix: string, done: string, piece: string, kept: string)
    requires RemoveSpaces(prefix) == done
    requires (AllSpace(piece) && kept == []) || (NoSpace(piece) && kept == piece)
    ensures RemoveSpaces(prefix + piece) == done + kept
  {
    RemoveSpacesAppend(prefix, piece);
    if AllSpace(piece) && kept == [] {
      RemoveSpacesOfAllSpace(piece);
    } else {
      RemoveSpacesOfNoSpace(piece);
    }
  }

  /** A rate already written with a slash keeps it and gains another:
      "300/h" becomes "300//h". */
  lemma AppCleanRateDoubleSlash(t: string, digits: string)
    requires t == digits + "/h" && digits != [] && forall i :: 0 <= i < |digits| ==> IsDigit(digits[i])
    ensures AppCleanRate(t) == digits + "//h"
  {
    PlainRate(t);
    AppRateOfDoubleSlash(t, digits);
  }

  lemma AppRateOfDoubleSlash(t: string, digits: string)
    requires t == digits + "/h" && digits != [] && forall i :: 0 <= i < |digits| ==> IsDigit(digits[i])
    ensures AppRateOf(t) == digits + "//h"
  {
    var n := |digits|;
    assert Trimmed(t) by { assert t[|t| - 1] == 'h'; }
    AppRateMeetsSpec(t);
    FirstDigitIs(t, 0);
    SlashHParts(t, digits);
    assert t[0..n] == digits;
  }

  /** The case the rewrite is for: "300h" becomes "300/h". */
  lemma AppCleanRateBareHour(t: string, digits: string)
    requires t == digits + "h" && digits != [] && forall i :: 0 <= i < |digits| ==> IsDigit(digits[i])
    ensures AppCleanRate(t) == digits + "/h"
  {
    PlainRate(t);
    AppRateOfBareHour(t, digits);
  }

  lemma AppRateOfBareHour(t: string, digits: string)
    requires t == digits + "h" && digits != [] && forall i :: 0 <= i < |digits| ==> IsDigit(digits[i])
    ensures AppRateOf(t) == digits + "/h"
  {
    var n := |digits|;
    assert Trimmed(t) by { assert t[|t| - 1] == 'h'; }
    AppRateMeetsSpec(t);
    FirstDigitIs(t, 0);
    HParts(t, digits);
    assert t[0..n] == digits;
  }

  /** A token with no bracket and no whitespace is left alone by `stripBB`. */
  lemma PlainRate(t: string)
    requires '[' !in t && NoSpace(t)
    ensures AppCleanRate(t) == AppRateOf(t)
  {
    assert Trimmed(t);
    assert SingleSpaced(t);
    StripBBPlainText(t);
  }

  lemma HParts(t: string, digits: string)
    requires t == digits + "h" && digits != [] && forall i :: 0 <= i < |digits| ==> IsDigit(digits[i])
    ensures var n := |digits|; AppRateParts(t, 0) == RateParts(n, n, n, n, n + 1, n + 1)
  {
    var n := |digits|;
    assert t[n] == 'h';
    DigitEndIs(t, 0, n);
    assert SkipSpaces(t, n) == n;
  }

  /** With a digit in the text, the App rate starts with that digit run and
      has no whitespace and no upper-case letter; without one it is the text. */
  lemma AppRateShape(t: string)
    ensures FirstDigit(t, 0) == |t| ==> AppRateSpec(t) == t
    ensures FirstDigit(t, 0) < |t| ==>
              var r := AppRateSpec(t);
              r != [] && IsDigit(r[0]) && NoSpace(r) && NoUpperAscii(r)
  {
    var p := FirstDigit(t, 0);
    if p < |t| {
      RateShapeAt(t, p, AppRateParts(t, p));
    }
  }

  lemma RateShapeAt(t: string, p: nat, m: RateParts)
    requires p < |t| && IsDigit(t[p]) && m == AppRateParts(t, p)
    ensures var r := t[p..m.digitsEnd] + (if m.Slash() then "/" else "")
               + (if m.Hour() && !m.PerHour() then "/h" else if m.Hour() then "hr" else if m.PerHour() then "r" else "");
            r != [] && IsDigit(r[0]) && NoSpace(r) && NoUpperAscii(r)
  {
    var digits := t[p..m.digitsEnd];
    assert forall i :: 0 <= i < |digits| ==> IsDigit(digits[i]);
    var sl: string := if m.Slash() then "/" else "";
    var suffix: string := if m.Hour() && !m.PerHour() then "/h" else if m.Hour() then "hr" else if m.PerHour() then "r" else "";
    RateShapeOfPieces(digits, sl, suffix);
  }

  lemma RateShapeOfPieces(digits: string, sl: string, suffix: string)
    requires digits != [] && forall i :: 0 <= i < |digits| ==> IsDigit(digits[i])
    requires sl == "" || sl == "/"
    requires suffix == "/h" || suffix == "hr" || suffix == "r" || suffix == ""
    ensures var r := digits + sl + suffix;
            r != [] && IsDigit(r[0]) && NoSpace(r) && NoUpperAscii(r)
  {
    var tail := sl + suffix;
    assert forall i :: 0 <= i < |tail| ==> tail[i] == '/' || tail[i] == 'h' || tail[i] == 'r';
    var r := digits + tail;
    assert digits + sl + suffix == r;
    assert forall i :: 0 <= i < |r| ==> IsDigit(r[i]) || r[i] == '/' || r[i] == 'h' || r[i] == 'r';
  }

  lemma SlashHParts(t: string, digits: string)
    requires t == digits + "/h" && digits != [] && forall i :: 0 <= i < |digits| ==> IsDigit(digits[i])
    ensures var n := |digits|; AppRateParts(t, 0) == RateParts(n, n, n + 1, n + 1, n + 2, n + 2)
  {
    var n := |digits|;
    assert t[n] == '/' && t[n + 1] == 'h';
    DigitEndIs(t, 0, n);
    assert SkipSpaces(t, n) == n;
    assert SkipSpaces(t, n + 1) == n + 1;
  }

  lemma FirstDigitIs(t: string, i: nat)
    requires i < |t| && IsDigit(t[i])
    ensures FirstDigit(t, i) == i
  {
  }

  // ------------------------------------------------------------ parseTimeToDate

  /** `parseTimeToDate` of src/App.tsx: the same normalisation and patterns as
      the copy in src/lib/utils.ts, without its `24` branch (which was
      shadowed there anyway), so both copies agree on every input. */
  method AppParseTimeToDate(timeStr: string) returns (r: Option<int>)
    ensures r == ClockSpec(timeStr)
  {
    if timeStr == [] {
      return None;
    }
    var s := NormalizeTime(timeStr);
    assert ClockSpec(timeStr) == ClockOf(s);
    r := AppReadClock(s);
  }

  /** The if-chain of the App copy on the normalised text. */
  method AppReadClock(s: string) returns (r: Option<int>)
    ensures r == ClockOf(s)
  {
    var hours: int, minutes: int := 0, 0;
    var ampmMatch := AmPmMatch(s);
    var twentyFour := HhmmMatch(s);
    var justHourAmpm := HourAmPmMatch(s);
    if justHourAmpm.Some? {
      HourAmPmShadowed(s);
    }
    if ampmMatch.Some? {
      AmPmAgrees(s);
      hours := ampmMatch.value.hour;
      minutes := if ampmMatch.value.minute.Some? then ampmMatch.value.minute.value else 0;
      var ap := ampmMatch.value.meridiem;
      if ap == Pm && hours != 12 { hours := hours + 12; }
      if ap == Am && hours == 12 { hours := 0; }
    } else if justHourAmpm.Some? {
      // shadowed by the pattern above
      match justHourAmpm {
        case Some((hh, ap)) =>
          hours := hh;
          if ap == Pm && hours != 12 { hours := hours + 12; }
          if ap == Am && hours == 12 { hours := 0; }
      }
    } else if twentyFour.Some? {
      HhmmAgrees(s);
      hours := twentyFour.value.0;
      minutes := twentyFour.value.1;
    } else if BareHourMatch(s).Some? {
      BareHourAgrees(s);
      hours := BareHourMatch(s).value;
    } else {
      NoMatchAgrees(s);
      return None;
    }
    r := Some(hours * 60 + minutes);
  }

  // ------------------------------------------------------------ rows and markdown

  /** `Row`: one roster line. `start` and `end` are minutes after the roster
      day's midnight, absent when the text did not parse. */
  datatype Row = Row(flag: string, name: string, start: Option<int>, end: Option<int>,
                     rate: string, natKey: string, timeLabel: string)

  const NOTION_HEADER_NAMES: string := "|  | Name | Time | Rate |"
  const NOTION_HEADER_RULE: string := "|---|---|---|---|"

  /** One table line of `toNotionMarkdown`. */
  function MarkdownLine(r: Row): string {
    "| " + r.flag + " | " + r.name + " | " + r.timeLabel + " | " + r.rate + " |"
  }

  function MarkdownLines(rows: seq<Row>): (r: seq<string>)
    ensures |r| == |rows|
    ensures forall i :: 0 <= i < |rows| ==> r[i] == MarkdownLine(rows[i])
  {
    seq(|rows|, i requires 0 <= i < |rows| => MarkdownLine(rows[i]))
  }

  /** `toNotionMarkdown`: the two header lines, the rows' lines joined by
      newlines, and a final newline. */
  function ToNotionMarkdown(rows: seq<Row>): string {
    NOTION_HEADER_NAMES + "\n" + NOTION_HEADER_RULE + "\n" + Join(MarkdownLines(rows), "\n") + "\n"
  }

  predicate OneLine(r: Row) {
    '\n' !in r.flag && '\n' !in r.name && '\n' !in r.timeLabel && '\n' !in r.rate
  }

  /** Read back line by line, the markdown is the two header lines, one line
      per row in order (a single empty line when there are no rows), and the
      empty piece after the final newline. */
  lemma NotionMarkdownLines(rows: seq<Row>)
    requires forall i :: 0 <= i < |rows| ==> OneLine(rows[i])
    ensures SplitOn(ToNotionMarkdown(rows), '\n')
            == [NOTION_HEADER_NAMES, NOTION_HEADER_RULE] + (if rows == [] then [""] else MarkdownLines(rows)) + [""]
  {
    var body := if rows == [] then [""] else MarkdownLines(rows);
    assert Join(body, "\n") == Join(MarkdownLines(rows), "\n");
    var parts := [NOTION_HEADER_NAMES, NOTION_HEADER_RULE] + body + [""];
    JoinAround(NOTION_HEADER_NAMES, NOTION_HEADER_RULE, body, "\n");
    forall i | 0 <= i < |body| ensures '\n' !in body[i] {
      if rows != [] {
        assert body[i] == MarkdownLine(rows[i]);
        assert OneLine(rows[i]);
      }
    }
    assert '\n' !in NOTION_HEADER_NAMES && '\n' !in NOTION_HEADER_RULE;
    SplitOnJoin(parts, '\n');
  }

  /** Joining two lines, a non-empty middle and an empty last line. */
  lemma JoinAround(a: string, b: string, body: seq<string>, sep: string)
    requires body != []
    ensures Join([a, b] + body + [""], sep) == a + sep + b + sep + Join(body, sep) + sep
  {
    assert ([a, b] + body + [""])[1..] == [b] + body + [""];
    assert ([b] + body + [""])[1..] == body + [""];
    JoinSnoc(body, sep);
  }

  lemma {:induction false} JoinSnoc(body: seq<string>, sep: string)
    requires body != []
    ensures Join(body + [""], sep) == Join(body, sep) + sep
    decreases |body|
  {
    if |body| == 1 {
      assert (body + [""])[1..] == [""];
    } else {
      assert (body + [""])[1..] == body[1..] + [""];
      JoinSnoc(body[1..], sep);
    }
  }
}