/**
 * The shared text helpers of src/lib/utils.ts other than the BBCode cleaners
 * (module BBCode), the clock grammar (module Clock) and the time helpers
 * (module Times): rate normalisation, header hints, tag detection, and
 * annotation-word and nationality cleaning.
 */
module Utils {
  import opened Text
  import opened BBCode
  import opened Clock

  // ---------------------------------------------------------------- cleanRate

  /** `\d{2,4}(?:[.,]\d{2})?` from `k`, given that `k` starts two digits: up to
      four digits, then a `.` or `,` and exactly two digits when they are there. */
  function RateDigitsEnd(t: string, k: nat): (e: nat)
    requires PairAt(t, k)
    ensures k + 2 <= e <= |t|
    ensures forall j :: k <= j < e ==> IsDigit(t[j]) || t[j] == '.' || t[j] == ','
    ensures IsDigit(t[e - 1])
  {
    var d := DigitEndMax(t, k, 4);
    assert DigitEndMax(t, k + 1, 3) >= k + 2;
    if d + 3 <= |t| && (t[d] == '.' || t[d] == ',') && IsDigit(t[d + 1]) && IsDigit(t[d + 2]) then d + 3 else d
  }

  /** `(\$?\s*\d{2,4}(?:[.,]\d{2})?)` tried at `i`: the end of the captured
      group. The sigil is taken when present (without it the class `\d`
      would face the `$`), the whitespace run is taken whole (a digit must
      follow it), and the tail of the pattern can always match nothing. */
  function RateAt(t: string, i: nat): (r: Option<nat>)
    ensures r.Some? ==> i < r.value <= |t| && HasDigitPair(t)
  {
    if i >= |t| then None
    else
      var j := if t[i] == '$' then i + 1 else i;
      var k := SkipSpaces(t, j);
      if PairAt(t, k) then Some(RateDigitsEnd(t, k)) else None
  }

  /** `r` is the leftmost match at or after `i`: its start and the end of its
      group, with no match starting in between; `None` when none starts. */
  ghost predicate LeftmostRate(t: string, i: nat, r: Option<(nat, nat)>) {
    && (r.Some? ==> i <= r.value.0 && RateAt(t, r.value.0) == Some(r.value.1)
                    && forall j :: i <= j < r.value.0 ==> RateAt(t, j).None?)
    && (r.None? ==> forall j :: i <= j ==> RateAt(t, j).None?)
  }

  /** The leftmost match at or after `i`: the start and end of its group. */
  function FirstRate(t: string, i: nat): (r: Option<(nat, nat)>)
    ensures LeftmostRate(t, i, r)
    ensures r.Some? ==> HasDigitPair(t)
    decreases |t| - i
  {
    if i >= |t| then
      NoRateBeyond(t, i);
      None
    else match RateAt(t, i)
      case Some(e) => Some((i, e))
      case None =>
        var r := FirstRate(t, i + 1);
        LeftmostRateStep(t, i, r);
        r
  }

  lemma NoRateBeyond(t: string, i: nat)
    requires i >= |t|
    ensures LeftmostRate(t, i, None)
  {
  }

  /** No match at `i` moves the leftmost match at `i + 1` back to `i`. */
  lemma LeftmostRateStep(t: string, i: nat, r: Option<(nat, nat)>)
    requires RateAt(t, i).None? && LeftmostRate(t, i + 1, r)
    ensures LeftmostRate(t, i, r)
  {
  }

  /** `/\/H$/i`. */
  predicate EndsWithPerHour(s: string) {
    |s| >= 2 && s[|s| - 2] == '/' && EqIgnoreCase(s[|s| - 1], 'H')
  }

  /** `cleanRate`: the first rate-looking run of the stripped token, spaces
      removed, `/H` appended unless already there, upper-cased; `""` when
      there is none. The second pattern of the source is a prefix of the
      first and can only match where the first already did. */
  function CleanRate(token: string): string {
    RateOfStripped(StripBB(token))
  }

  /** The part of `cleanRate` after `stripBB`. */
  function RateOfStripped(t: string): string {
    match FirstRate(t, 0)
    case None => ""
    case Some((a, b)) =>
      var out := RemoveSpaces(t[a..b]);
      Upper(if EndsWithPerHour(out) then out else out + "/H")
  }

  /** Two digits side by side at `p`. */
  predicate PairAt(t: string, p: nat) {
    p + 1 < |t| && IsDigit(t[p]) && IsDigit(t[p + 1])
  }

  /** Two adjacent digits somewhere in `t`. */
  predicate HasDigitPair(t: string) {
    exists p :: 0 <= p < |t| && PairAt(t, p)
  }

  /** The first position of two adjacent digits at or after `i`, or `|t|`. */
  function FirstDigitPair(t: string, i: nat): (p: nat)
    ensures p <= |t|
    ensures p < |t| ==> i <= p && PairAt(t, p)
    ensures forall j :: i <= j < p ==> !PairAt(t, j)
    ensures p == |t| ==> forall j :: i <= j ==> !PairAt(t, j)
    decreases |t| - i
  {
    if i + 1 >= |t| then |t|
    else if PairAt(t, i) then i
    else FirstDigitPair(t, i + 1)
  }

  /** The start of the whitespace run that ends at `p`. */
  function SpaceRunStart(t: string, p: nat): (q: nat)
    requires p <= |t|
    ensures q <= p && AllSpace(t[q..p])
    ensures q > 0 ==> !IsSpace(t[q - 1])
  {
    if p > 0 && IsSpace(t[p - 1]) then
      var q := SpaceRunStart(t, p - 1);
      assert t[q..p] == t[q..p - 1] + [t[p - 1]];
      q
    else p
  }

  /** A `$` right before the digits at `p`, possibly with whitespace between. */
  predicate HasSigil(t: string, p: nat)
    requires p <= |t|
  {
    var q := SpaceRunStart(t, p);
    q > 0 && t[q - 1] == '$'
  }

  /** The reference reading of a rate: the first two-digit position `p`
      decides everything, the sigil is kept when one precedes it, and the
      digits (with an optional two-digit decimal part) follow. */
  function RateSpec(t: string): (r: string)
    ensures r == [] <==> !HasDigitPair(t)
  {
    var p := FirstDigitPair(t, 0);
    if p == |t| then []
    else (if HasSigil(t, p) then "$" else "") + t[p..RateDigitsEnd(t, p)] + "/H"
  }

  /** A rate, when there is one, is free of whitespace and lower-case letters,
      ends in `/H`, and starts with `$` exactly when the source had a sigil. */
  lemma {:induction false} RateSpecShape(t: string)
    requires HasDigitPair(t)
    ensures var r := RateSpec(t);
            NoSpace(r) && (forall i :: 0 <= i < |r| ==> !IsLowerAscii(r[i]))
            && |r| >= 4 && r[|r| - 2..] == "/H"
            && (r[0] == '$' <==> HasSigil(t, FirstDigitPair(t, 0)))
  {
    var p := FirstDigitPair(t, 0);
    var digits := t[p..RateDigitsEnd(t, p)];
    forall i | 0 <= i < |digits| ensures IsDigit(digits[i]) || digits[i] == '.' || digits[i] == ',' {
      assert digits[i] == t[p + i];
    }
    RateShapeOf(if HasSigil(t, p) then "$" else "", digits);
  }

  lemma {:induction false} RateShapeOf(sigil: string, digits: string)
    requires sigil == "" || sigil == "$"
    requires |digits| >= 2 && IsDigit(digits[0])
    requires forall i :: 0 <= i < |digits| ==> IsDigit(digits[i]) || digits[i] == '.' || digits[i] == ','
    ensures var r := sigil + digits + "/H";
            NoSpace(r) && (forall i :: 0 <= i < |r| ==> !IsLowerAscii(r[i]))
            && |r| >= 4 && r[|r| - 2..] == "/H" && (r[0] == '$' <==> sigil == "$")
  {
    var r := sigil + digits + "/H";
    forall i | 0 <= i < |r| ensures !IsSpace(r[i]) && !IsLowerAscii(r[i]) {
      if i < |sigil| {
      } else if i < |sigil| + |digits| {
        assert r[i] == digits[i - |sigil|];
        RateCharPlain(r[i]);
      } else {
      }
    }
    if sigil == "" {
      assert r[0] == digits[0];
    }
    assert r[|r| - 2..] == "/H";
  }

  lemma FirstRateIs(t: string, i: nat, a: nat)
    requires i <= a && RateAt(t, a).Some?
    requires forall j :: i <= j < a ==> RateAt(t, j).None?
    ensures FirstRate(t, i) == Some((a, RateAt(t, a).value))
  {
    var r := FirstRate(t, i);
    if r.None? || r.value.0 != a {
      assert false;
    }
  }

  /** Where the leftmost match starts, in terms of the first digit pair. */
  lemma {:induction false} RateMatchStart(t: string, p: nat, q: nat, a: nat)
    requires HasDigitPair(t) && p == FirstDigitPair(t, 0)
    requires q == SpaceRunStart(t, p) && a == if HasSigil(t, p) then q - 1 else q
    ensures p < |t| && FirstRate(t, 0) == Some((a, RateDigitsEnd(t, p)))
  {
    RateAtRunStart(t, p);
    forall j | 0 <= j < a ensures RateAt(t, j).None? {
      NoRateBefore(t, p, j);
    }
    FirstRateIs(t, 0, a);
  }

  /** A match starts at the sigil, or at the whitespace run, before a digit pair. */
  lemma {:induction false} RateAtRunStart(t: string, p: nat)
    requires PairAt(t, p)
    ensures var q := SpaceRunStart(t, p);
            RateAt(t, if HasSigil(t, p) then q - 1 else q) == Some(RateDigitsEnd(t, p))
  {
    var q := SpaceRunStart(t, p);
    var a := if HasSigil(t, p) then q - 1 else q;
    forall j | q <= j < p ensures IsSpace(t[j]) {
      assert t[j] == t[q..p][j - q];
    }
    SkipSpacesIs(t, q, p);
    assert (if t[a] == '$' then a + 1 else a) == q by {
      if !HasSigil(t, p) && q < p {
        assert IsSpace(t[q]);
      }
    }
    RateAtIs(t, a, q, p);
  }

  lemma RateAtIs(t: string, a: nat, q: nat, p: nat)
    requires a < |t| && (if t[a] == '$' then a + 1 else a) == q
    requires q <= p <= |t| && SkipSpaces(t, q) == p && PairAt(t, p)
    ensures RateAt(t, a) == Some(RateDigitsEnd(t, p))
  {
  }

  /** No match starts before the sigil or whitespace run that leads to the first digit pair. */
  lemma {:induction false} NoRateBefore(t: string, p: nat, j: nat)
    requires p == FirstDigitPair(t, 0) < |t|
    requires j < (if HasSigil(t, p) then SpaceRunStart(t, p) - 1 else SpaceRunStart(t, p))
    ensures RateAt(t, j).None?
  {
    var q := SpaceRunStart(t, p);
    var jj := if t[j] == '$' then j + 1 else j;
    assert jj < q;
    var k := SkipSpaces(t, jj);
    assert k <= q - 1;
    assert k < p;
  }

  lemma {:induction false} RateCharPlain(c: char)
    requires IsDigit(c) || c == '.' || c == ','
    ensures !IsSpace(c) && !IsLowerAscii(c)
  {
  }

  /** `cleanRate` is the reference reading of the stripped token. */
  lemma {:induction false} CleanRateMeetsSpec(token: string)
    ensures CleanRate(token) == RateSpec(StripBB(token))
  {
    RateOfStrippedMeetsSpec(StripBB(token));
  }

  lemma {:induction false} RateOfStrippedMeetsSpec(t: string)
    ensures RateOfStripped(t) == RateSpec(t)
  {
    if HasDigitPair(t) {
      RateOfStrippedPair(t);
    } else {
      assert FirstRate(t, 0).None?;
    }
  }

  lemma {:induction false} RateOfStrippedPair(t: string)
    requires HasDigitPair(t)
    ensures RateOfStripped(t) == RateSpec(t)
  {
    var p := FirstDigitPair(t, 0);
    var sigil := if HasSigil(t, p) then "$" else "";
    RateOfStrippedReads(t, p, sigil);
    RateSpecAt(t, p, sigil);
  }

  lemma {:induction false} RateOfStrippedReads(t: string, p: nat, sigil: string)
    requires HasDigitPair(t) && p == FirstDigitPair(t, 0)
    requires sigil == if HasSigil(t, p) then "$" else ""
    ensures p < |t| && RateOfStripped(t) == sigil + t[p..RateDigitsEnd(t, p)] + "/H"
  {
    var q := SpaceRunStart(t, p);
    var a := if HasSigil(t, p) then q - 1 else q;
    RateMatchStart(t, p, q, a);
    var e := RateDigitsEnd(t, p);
    RateGroupAt(t, p, q, a, e, sigil);
    RateOfStrippedAt(t, a, e, sigil + t[p..e]);
  }

  lemma {:induction false} RateGroupAt(t: string, p: nat, q: nat, a: nat, e: nat, sigil: string)
    requires HasDigitPair(t) && p == FirstDigitPair(t, 0)
    requires sigil == if HasSigil(t, p) then "$" else ""
    requires q == SpaceRunStart(t, p) && a == (if HasSigil(t, p) then q - 1 else q) && e == RateDigitsEnd(t, p)
    ensures a <= e <= |t| && p <= e
    ensures RemoveSpaces(t[a..e]) == sigil + t[p..e] && !EndsWithPerHour(sigil + t[p..e])
    ensures Upper(sigil + t[p..e] + "/H") == sigil + t[p..e] + "/H"
  {
    SigilSlice(t, p, q, a);
    RateGroupOf(t, a, q, p, e, sigil);
  }

  lemma SigilSlice(t: string, p: nat, q: nat, a: nat)
    requires p <= |t| && q == SpaceRunStart(t, p) && a == if HasSigil(t, p) then q - 1 else q
    ensures a <= q && t[a..q] == if HasSigil(t, p) then "$" else ""
  {
    if HasSigil(t, p) {
      assert t[a..q] == [t[q - 1]];
    }
  }

  lemma RateOfStrippedAt(t: string, a: nat, e: nat, out: string)
    requires FirstRate(t, 0) == Some((a, e))
    requires RemoveSpaces(t[a..e]) == out && !EndsWithPerHour(out) && Upper(out + "/H") == out + "/H"
    ensures RateOfStripped(t) == out + "/H"
  {
  }

  lemma RateSpecAt(t: string, p: nat, sigil: string)
    requires p == FirstDigitPair(t, 0) < |t|
    requires sigil == if HasSigil(t, p) then "$" else ""
    ensures RateSpec(t) == sigil + t[p..RateDigitsEnd(t, p)] + "/H"
  {
  }

  lemma {:induction false} RateGroupOf(t: string, a: nat, q: nat, p: nat, e: nat, sigil: string)
    requires a <= q <= p < e <= |t|
    requires (sigil == "" || sigil == "$") && t[a..q] == sigil
    requires AllSpace(t[q..p])
    requires e >= p + 2 && IsDigit(t[p]) && IsDigit(t[e - 1])
    requires forall j :: p <= j < e ==> IsDigit(t[j]) || t[j] == '.' || t[j] == ','
    ensures var out := RemoveSpaces(t[a..e]);
            out == sigil + t[p..e] && !EndsWithPerHour(out) && Upper(out + "/H") == out + "/H"
  {
    var digits := t[p..e];
    forall i | 0 <= i < |digits| ensures IsDigit(digits[i]) || digits[i] == '.' || digits[i] == ',' {
      assert digits[i] == t[p + i];
    }
    SliceSplit(t, a, q, p, e);
    RateGroupSpaces(sigil, t[q..p], digits);
  }

  lemma {:induction false} SliceSplit(t: string, a: nat, q: nat, p: nat, e: nat)
    requires a <= q <= p <= e <= |t|
    ensures t[a..e] == t[a..q] + t[q..p] + t[p..e]
  {
  }

  /** Removing the whitespace from a captured group leaves the sigil and the
      digits, and `/H` is then always appended. */
  lemma {:induction false} RateGroupSpaces(sigil: string, spaces: string, digits: string)
    requires sigil == "" || sigil == "$"
    requires AllSpace(spaces)
    requires |digits| >= 2 && IsDigit(digits[0]) && IsDigit(digits[|digits| - 1])
    requires forall i :: 0 <= i < |digits| ==> IsDigit(digits[i]) || digits[i] == '.' || digits[i] == ','
    ensures var out := RemoveSpaces(sigil + spaces + digits);
            out == sigil + digits && !EndsWithPerHour(out) && Upper(out + "/H") == out + "/H"
  {
    RemoveSigilSpaces(sigil, spaces, digits);
    RateOutShape(sigil, digits);
  }

  lemma {:induction false} RemoveSigilSpaces(sigil: string, spaces: string, digits: string)
    requires sigil == "" || sigil == "$"
    requires AllSpace(spaces)
    requires forall i :: 0 <= i < |digits| ==> IsDigit(digits[i]) || digits[i] == '.' || digits[i] == ','
    ensures RemoveSpaces(sigil + spaces + digits) == sigil + digits
  {
    RemoveSpacesAppend(sigil + spaces, digits);
    RemoveSpacesAppend(sigil, spaces);
    RemoveSpacesOfAllSpace(spaces);
    RemoveSpacesOfNoSpace(sigil);
    forall i | 0 <= i < |digits| ensures !IsSpace(digits[i]) {
      RateCharPlain(digits[i]);
    }
    RemoveSpacesOfNoSpace(digits);
  }

  lemma {:induction false} RateOutShape(sigil: string, digits: string)
    requires sigil == "" || sigil == "$"
    requires |digits| >= 2 && IsDigit(digits[0]) && IsDigit(digits[|digits| - 1])
    requires forall i :: 0 <= i < |digits| ==> IsDigit(digits[i]) || digits[i] == '.' || digits[i] == ','
    ensures !EndsWithPerHour(sigil + digits) && Upper(sigil + digits + "/H") == sigil + digits + "/H"
  {
    var out := sigil + digits;
    assert out[|out| - 1] == digits[|digits| - 1];
    RateShapeOf(sigil, digits);
    UpperOfUpper(out + "/H");
  }

  /** The two shapes the source is written for: a price with a sigil and a
      per-hour price. */
  lemma {:induction false} CleanRateWithSigil()
    ensures CleanRate("$320") == "$320/H"
  {
    StripBBPlainText("$320");
    CleanRateMeetsSpec("$320");
    RateSpecWithSigil();
  }

  lemma {:induction false} CleanRatePerHour()
    ensures CleanRate("300/hr") == "300/H"
  {
    StripBBPlainText("300/hr");
    CleanRateMeetsSpec("300/hr");
    RateSpecPerHour();
  }

  lemma {:induction false} RateSpecWithSigil()
    ensures RateSpec("$320") == "$320/H"
  {
    var t := "$320";
    assert PairAt(t, 1) && !PairAt(t, 0);
    assert FirstDigitPair(t, 0) == 1;
    assert SpaceRunStart(t, 1) == 1;
    assert DigitEndMax(t, 4, 1) == 4;
    assert DigitEndMax(t, 1, 4) == 4;
    assert t[1..4] == "320";
  }

  lemma {:induction false} RateSpecPerHour()
    ensures RateSpec("300/hr") == "300/H"
  {
    var t := "300/hr";
    assert PairAt(t, 0);
    assert FirstDigitPair(t, 0) == 0;
    assert SpaceRunStart(t, 0) == 0;
    assert DigitEndMax(t, 3, 2) == 3;
    assert DigitEndMax(t, 0, 4) == 3;
    assert t[0..3] == "300";
  }


  // ------------------------------------------------------- extractHeaderTags

  /** `\(\(\(\s*([^)]+?)\s*\)\)\)` tried at `i`: the captured group and
      the end of the match. Nothing between the opening and the closing
      brackets can be a `)`, so the closing `)))` must start at the first `)`.
      The group is the text between, trimmed; when that text is all
      whitespace the leading `\s*` gives back its last character, which
      becomes the group. */
  function HeaderHintAt(s: string, i: nat): (r: Option<(string, nat)>)
    ensures r.Some? ==> i < r.value.1 <= |s| && r.value.0 != [] && ')' !in r.value.0
  {
    if MatchAt(s, i, "(((") then
      var p := FindFrom(s, ')', i + 3);
      if i + 3 < p && MatchAt(s, p, ")))") then
        var inner := s[i + 3..p];
        SliceAvoids(s, i + 3, p, ')');
        if AllSpace(inner) then
          assert s[p - 1..p] == [inner[|inner| - 1]];
          Some((s[p - 1..p], p + 3))
        else
          TrimAvoids(inner, ')');
          assert Trim(inner) != [] by {
            TrimOfNotAllSpace(inner);
          }
          Some((Trim(inner), p + 3))
      else None
    else None
  }

  /** The groups of all matches, scanning from `i` (`matchAll` resumes after
      each match). */
  function HeaderGroups(s: string, i: nat): (r: seq<string>)
    ensures forall k :: 0 <= k < |r| ==> ')' !in r[k]
    decreases |s| - i
  {
    if i >= |s| then []
    else match HeaderHintAt(s, i)
      case Some((g, e)) => [g] + HeaderGroups(s, e)
      case None => HeaderGroups(s, i + 1)
  }

  /** The class `[,\s|/]`. */
  predicate IsHintSep(c: char) { c == ',' || IsSpace(c) || c == '|' || c == '/' }

  /** The first separator at or after `i`, or `|g|`. */
  function FindSep(g: string, i: nat): (k: nat)
    requires i <= |g|
    ensures i <= k <= |g|
    ensures forall j :: i <= j < k ==> !IsHintSep(g[j])
    ensures k < |g| ==> IsHintSep(g[k])
    decreases |g| - i
  {
    if i == |g| || IsHintSep(g[i]) then i else FindSep(g, i + 1)
  }

  /** The end of the separator run starting at `i`. */
  function SkipSeps(g: string, i: nat): (k: nat)
    requires i <= |g|
    ensures i <= k <= |g|
    ensures k < |g| ==> !IsHintSep(g[k])
    decreases |g| - i
  {
    if i < |g| && IsHintSep(g[i]) then SkipSeps(g, i + 1) else i
  }

  /** `g.split(/[,\s|/]+/)`: the pieces between separator runs, with an
      empty piece before a leading run and after a trailing one. */
  function SplitHints(g: string): (r: seq<string>)
    ensures |r| >= 1
    ensures forall k :: 0 <= k < |r| ==> forall j :: 0 <= j < |r[k]| ==> !IsHintSep(r[k][j]) && r[k][j] in g
    decreases |g|
  {
    var k := FindSep(g, 0);
    if k == |g| then [g]
    else
      var m := SkipSeps(g, k + 1);
      var rest := SplitHints(g[m..]);
      assert forall k :: 0 <= k < |rest| ==> forall j :: 0 <= j < |rest[k]| ==> rest[k][j] in g by {
        forall k, j | 0 <= k < |rest| && 0 <= j < |rest[k]| ensures rest[k][j] in g {
          assert rest[k][j] in g[m..];
        }
      }
      [g[..k]] + rest
  }

  /** The pieces of every group, in order (`flatMap`). */
  function SplitAll(groups: seq<string>): (r: seq<string>)
    requires forall k :: 0 <= k < |groups| ==> ')' !in groups[k]
    ensures forall k :: 0 <= k < |r| ==> HintPiece(r[k])
  {
    if groups == [] then []
    else
      SplitHints(groups[0]) + SplitAll(groups[1..])
  }

  /** A header hint as it comes out: non-empty, without separators, closing
      brackets or lower-case ASCII letters. */
  predicate HintToken(t: string) {
    t != [] && HintPiece(t) && forall j :: 0 <= j < |t| ==> !IsLowerAscii(t[j])
  }

  /** No separator and no closing bracket. */
  predicate HintPiece(t: string) {
    forall j :: 0 <= j < |t| ==> !IsHintSep(t[j]) && t[j] != ')'
  }

  /** `.map((t) => t.trim().toUpperCase()).filter(Boolean)`. */
  lemma CleanPiece(tok: string)
    requires HintPiece(tok)
    ensures HintPiece(Upper(Trim(tok)))
  {
    var t := Upper(Trim(tok));
    var a := TrimOffset(tok);
    forall j | 0 <= j < |t| ensures !IsHintSep(t[j]) && t[j] != ')' {
      assert Trim(tok)[j] == tok[a + j];
    }
  }

  function CleanHints(toks: seq<string>): (r: seq<string>)
    requires forall k :: 0 <= k < |toks| ==> HintPiece(toks[k])
    ensures forall k :: 0 <= k < |r| ==> HintToken(r[k])
    ensures |r| <= |toks|
  {
    if toks == [] then []
    else
      var t := Upper(Trim(toks[0]));
      CleanPiece(toks[0]);
      TailPieces(toks);
      var rest := CleanHints(toks[1..]);
      HintTokensCons(t, rest);
      (if t == [] then [] else [t]) + rest
  }

  lemma TailPieces(toks: seq<string>)
    requires toks != [] && forall k :: 0 <= k < |toks| ==> HintPiece(toks[k])
    ensures forall k :: 0 <= k < |toks[1..]| ==> HintPiece(toks[1..][k])
  {
    forall k | 0 <= k < |toks[1..]| ensures HintPiece(toks[1..][k]) {
      assert toks[1..][k] == toks[k + 1];
    }
  }

  lemma HintTokensCons(t: string, rest: seq<string>)
    requires HintPiece(t) && forall j :: 0 <= j < |t| ==> !IsLowerAscii(t[j])
    requires forall k :: 0 <= k < |rest| ==> HintToken(rest[k])
    ensures var r := (if t == [] then [] else [t]) + rest;
            forall k :: 0 <= k < |r| ==> HintToken(r[k])
  {
    var r := (if t == [] then [] else [t]) + rest;
    forall k | 0 <= k < |r| ensures HintToken(r[k]) {
      if t != [] && k == 0 {
        assert r[k] == t;
      } else {
        assert r[k] == rest[k - |r| + |rest|];
      }
    }
  }

  /** `extractHeaderTags`: the hint tokens written inside `(((…)))` in a header cell. */
  function ExtractHeaderTags(headerCellRaw: string): (r: seq<string>)
    ensures forall k :: 0 <= k < |r| ==> HintToken(r[k])
  {
    CleanHints(SplitAll(HeaderGroups(headerCellRaw, 0)))
  }

  /** Comma-joined hint tokens: non-empty, starting and ending with a token
      character, and with no `)` and no whitespace. */
  lemma {:induction false} JoinedHints(tags: seq<string>)
    requires tags != [] && forall k {:trigger tags[k]} :: 0 <= k < |tags| ==> HintToken(tags[k])
    ensures var j := Join(tags, ",");
            j != [] && forall c :: 0 <= c < |j| ==> j[c] != ')' && !IsSpace(j[c])
  {
    assert HintToken(tags[0]);
    if |tags| > 1 {
      JoinedHints(tags[1..]);
      var j := Join(tags, ",");
      var rest := Join(tags[1..], ",");
      assert j == tags[0] + "," + rest;
      forall c | 0 <= c < |j| ensures j[c] != ')' && !IsSpace(j[c]) {
        if c < |tags[0]| {
          assert j[c] == tags[0][c];
        } else if c > |tags[0]| {
          assert j[c] == rest[c - |tags[0]| - 1];
        }
      }
    }
  }

  /** Splitting comma-joined tokens gives the tokens back. */
  lemma {:induction false} SplitHintsOfJoin(tags: seq<string>)
    requires tags != [] && forall k {:trigger tags[k]} :: 0 <= k < |tags| ==> HintToken(tags[k])
    ensures SplitHints(Join(tags, ",")) == tags
  {
    var t := tags[0];
    assert HintToken(t);
    if |tags| == 1 {
      FindSepNone(t, 0);
    } else {
      var rest := Join(tags[1..], ",");
      assert Join(tags, ",") == t + "," + rest;
      assert HintToken(tags[1]);
      JoinHead(tags[1..]);
      SplitHintsCons(t, rest);
      SplitHintsOfJoin(tags[1..]);
    }
  }

  /** A joined list starts with the first character of its first part. */
  lemma JoinHead(parts: seq<string>)
    requires parts != [] && parts[0] != []
    ensures Join(parts, ",") != [] && Join(parts, ",")[0] == parts[0][0]
  {
  }

  /** One token, a comma, then text that does not start with a separator:
      the split gives the token, then the split of the text. */
  lemma SplitHintsCons(t: string, rest: string)
    requires HintToken(t) && rest != [] && !IsHintSep(rest[0])
    ensures SplitHints(t + "," + rest) == [t] + SplitHints(rest)
  {
    var j := t + "," + rest;
    assert forall k :: 0 <= k < |t| ==> j[k] == t[k];
    FindSepIs(j, |t|);
    assert SkipSeps(j, |t| + 1) == |t| + 1 by {
      assert j[|t| + 1] == rest[0];
    }
    assert j[|t| + 1..] == rest;
    assert j[..|t|] == t;
  }

  lemma {:induction false} FindSepNone(g: string, i: nat)
    requires i <= |g|
    requires forall j :: i <= j < |g| ==> !IsHintSep(g[j])
    ensures FindSep(g, i) == |g|
    decreases |g| - i
  {
    if i < |g| {
      FindSepNone(g, i + 1);
    }
  }

  lemma {:induction false} FindSepIs(g: string, k: nat)
    requires k < |g| && IsHintSep(g[k])
    requires forall j :: 0 <= j < k ==> !IsHintSep(g[j])
    ensures FindSep(g, 0) == k
  {
    FindSepFrom(g, 0, k);
  }

  lemma {:induction false} FindSepFrom(g: string, i: nat, k: nat)
    requires i <= k < |g| && IsHintSep(g[k])
    requires forall j :: i <= j < k ==> !IsHintSep(g[j])
    ensures FindSep(g, i) == k
    decreases k - i
  {
    if i < k {
      FindSepFrom(g, i + 1, k);
    }
  }

  /** Hint tokens written out as `(((A,B,…)))` are read back as they were. */
  lemma {:induction false} HeaderTagsRoundTrip(tags: seq<string>)
    requires tags != [] && forall k {:trigger tags[k]} :: 0 <= k < |tags| ==> HintToken(tags[k])
    ensures ExtractHeaderTags("(((" + Join(tags, ",") + ")))") == tags
  {
    var j := Join(tags, ",");
    JoinedHints(tags);
    HeaderGroupsOfWrapped(j);
    SplitHintsOfJoin(tags);
    assert [j][1..] == [];
    assert SplitAll([j]) == tags by {
      assert SplitAll([j]) == SplitHints(j) + SplitAll([]);
    }
    CleanHintsOfTokens(tags);
    var s := "(((" + j + ")))";
    assert ExtractHeaderTags(s) == CleanHints(SplitAll([j]));
  }

  /** A single `(((…)))` around text with no `)` and no whitespace at its ends
      is one match whose group is that text. */
  lemma {:induction false} HeaderGroupsOfWrapped(j: string)
    requires j != [] && ')' !in j && !IsSpace(j[0]) && !IsSpace(j[|j| - 1])
    ensures HeaderGroups("(((" + j + ")))", 0) == [j]
  {
    var s := "(((" + j + ")))";
    var p := 3 + |j|;
    assert s[..3] == "(((" && s[3..p] == j && s[p..] == ")))";
    forall c | 3 <= c < p ensures s[c] != ')' {
      assert s[c] == j[c - 3];
    }
    FindFromIs(s, ')', 3, p);
    assert !AllSpace(j);
    TrimOfTrimmed(j);
    assert MatchAt(s, 0, "(((") && MatchAt(s, p, ")))");
    assert HeaderHintAt(s, 0) == Some((j, |s|));
  }

  lemma {:induction false} CleanHintsOfTokens(tags: seq<string>)
    requires forall k {:trigger tags[k]} :: 0 <= k < |tags| ==> HintToken(tags[k])
    ensures forall k :: 0 <= k < |tags| ==> HintPiece(tags[k])
    ensures CleanHints(tags) == tags
  {
    if tags != [] {
      CleanHintOf(tags[0]);
      CleanHintsOfTokens(tags[1..]);
    }
  }

  lemma {:induction false} CleanHintOf(t: string)
    requires HintToken(t)
    ensures Upper(Trim(t)) == t
  {
    assert Trimmed(t);
    TrimOfTrimmed(t);
    UpperOfUpper(t);
  }

  // ------------------------------------------------------------- extractTags

  /** `\b` + `w` + `\b` at `i`, for a literal `w`. */
  predicate WholeWordAt(s: string, i: nat, w: string) {
    Boundary(s, i) && MatchAt(s, i, w) && Boundary(s, i + |w|)
  }

  /** `/\bw\b/.test(s)` for a literal `w`: a header hint once its
      metacharacters are escaped, or one of the fixed words. */
  predicate HasWholeWord(s: string, w: string) {
    exists i :: 0 <= i <= |s| && WholeWordAt(s, i, w)
  }

  /** `first\s*second` at `i`: the greedy whitespace run must be followed by `second`. */
  predicate SpacedPairAt(s: string, i: nat, first: string, second: string) {
    MatchAt(s, i, first) && MatchAt(s, SkipSpaces(s, i + |first|), second)
  }

  predicate HasSpacedPair(s: string, first: string, second: string) {
    exists i :: 0 <= i <= |s| && SpacedPairAt(s, i, first, second)
  }

  /** The fixed labels, in the order `extractTags` tries them. */
  const BUILTIN_LABELS: seq<string> := ["NEW", "TOP", "JAV", "VIP", "CAME BACK!", "SPECIAL"]

  /** The pattern behind the `k`-th fixed label, tested on the upper-cased text. */
  predicate BuiltinTest(raw: string, k: nat)
    requires k < |BUILTIN_LABELS|
  {
    if k == 0 then HasWholeWord(raw, "NEW") || Contains(raw, "NEW!!") || Contains(raw, "NEW!")
    else if k == 1 then HasWholeWord(raw, "TOP") || Contains(raw, "PREMIUM") || Contains(raw, "ELITE")
    else if k == 2 then HasWholeWord(raw, "JAV")
    else if k == 3 then HasWholeWord(raw, "VIP")
    else if k == 4 then HasSpacedPair(raw, "CAME", "BACK") || Contains(raw, "RETURN") || HasSpacedPair(raw, "BACK", "TODAY")
    else HasWholeWord(raw, "SPECIAL")
  }

  /** Where a fixed label stands in `BUILTIN_LABELS`. */
  function LabelRank(l: string): nat {
    if l == "NEW" then 0 else if l == "TOP" then 1 else if l == "JAV" then 2
    else if l == "VIP" then 3 else if l == "CAME BACK!" then 4 else 5
  }

  /** The fixed labels whose pattern matches, from the `k`-th on, in table order. */
  function BuiltinsFrom(raw: string, k: nat): (r: seq<string>)
    requires k <= |BUILTIN_LABELS|
    ensures forall i, j :: 0 <= i < j < |r| ==> LabelRank(r[i]) < LabelRank(r[j])
    ensures forall i :: 0 <= i < |r| ==> k <= LabelRank(r[i])
    decreases |BUILTIN_LABELS| - k
  {
    if k == |BUILTIN_LABELS| then []
    else
      var rest := BuiltinsFrom(raw, k + 1);
      assert LabelRank(BUILTIN_LABELS[k]) == k;
      if BuiltinTest(raw, k) then [BUILTIN_LABELS[k]] + rest else rest
  }

  function Builtins(raw: string): seq<string> {
    BuiltinsFrom(raw, 0)
  }

  /** The text the tag patterns are tested on: both sources stripped, joined
      by a space and upper-cased (a missing second source counts as empty). */
  function TagSource(sourceA: string, sourceB: Option<string>): string {
    var b := match sourceB case None => "" case Some(x) => x;
    Upper(StripBB(sourceA) + " " + StripBB(b))
  }

  /** The hints appended, one by one, after `tags`: each one that occurs as a
      whole word and is not there yet. */
  function AddHints(raw: string, tags: seq<string>, hints: seq<string>): seq<string>
    decreases |hints|
  {
    if hints == [] then tags
    else
      var t := AddHints(raw, tags, hints[..|hints| - 1]);
      var h := hints[|hints| - 1];
      if HasWholeWord(raw, h) && h !in t then t + [h] else t
  }

  /** `extractTags`: the fixed labels whose patterns match, in table order,
      then each header hint that occurs as a whole word, each label once. */
  method ExtractTags(sourceA: string, sourceB: Option<string>, headerHints: seq<string>) returns (tags: seq<string>)
    ensures tags == AddHints(TagSource(sourceA, sourceB), Builtins(TagSource(sourceA, sourceB)), headerHints)
    ensures NoDup(tags)
    ensures |Builtins(TagSource(sourceA, sourceB))| <= |tags|
    ensures tags[..|Builtins(TagSource(sourceA, sourceB))|] == Builtins(TagSource(sourceA, sourceB))
    ensures forall k :: |Builtins(TagSource(sourceA, sourceB))| <= k < |tags| ==>
              tags[k] in headerHints && HasWholeWord(TagSource(sourceA, sourceB), tags[k])
    ensures forall h :: h in headerHints && HasWholeWord(TagSource(sourceA, sourceB), h) ==> h in tags
  {
    tags := TagsOf(TagSource(sourceA, sourceB), headerHints);
  }

  /** The body of `extractTags` once the text to test is built. */
  method TagsOf(raw: string, headerHints: seq<string>) returns (tags: seq<string>)
    ensures tags == AddHints(raw, Builtins(raw), headerHints)
    ensures NoDup(tags)
    ensures |Builtins(raw)| <= |tags| && tags[..|Builtins(raw)|] == Builtins(raw)
    ensures forall k :: |Builtins(raw)| <= k < |tags| ==> tags[k] in headerHints && HasWholeWord(raw, tags[k])
    ensures forall h :: h in headerHints && HasWholeWord(raw, h) ==> h in tags
  {
    tags := AddBuiltins(raw);
    ghost var b := tags;
    var i := 0;
    while i < |headerHints|
      invariant 0 <= i <= |headerHints|
      invariant HintsInv(raw, b, headerHints, i, tags)
    {
      HintStep(raw, b, headerHints, i, tags);
      var h := headerHints[i];
      if HasWholeWord(raw, h) && h !in tags {
        tags := tags + [h];
      }
      i := i + 1;
    }
    assert headerHints[..i] == headerHints;
  }

  /** What the hint loop of `extractTags` keeps after the first `i` hints. */
  predicate HintsInv(raw: string, b: seq<string>, hints: seq<string>, i: nat, tags: seq<string>)
    requires i <= |hints|
  {
    && tags == AddHints(raw, b, hints[..i])
    && |b| <= |tags| && tags[..|b|] == b
    && NoDup(tags)
    && (forall k :: |b| <= k < |tags| ==> tags[k] in hints[..i] && HasWholeWord(raw, tags[k]))
    && (forall h :: h in hints[..i] && HasWholeWord(raw, h) ==> h in tags)
  }

  /** One pass of the hint loop keeps `HintsInv`. */
  lemma {:induction false} HintStep(raw: string, b: seq<string>, hints: seq<string>, i: nat, tags: seq<string>)
    requires i < |hints| && HintsInv(raw, b, hints, i, tags)
    ensures var h := hints[i];
            HintsInv(raw, b, hints, i + 1, if HasWholeWord(raw, h) && h !in tags then tags + [h] else tags)
  {
    var h := hints[i];
    assert hints[..i + 1] == hints[..i] + [h];
    assert hints[..i + 1][..i] == hints[..i];
    var t := if HasWholeWord(raw, h) && h !in tags then tags + [h] else tags;
    assert t[..|tags|] == tags;
    assert t[..|b|] == b by { assert t[..|b|] == t[..|tags|][..|b|]; }
  }

  /** The six fixed-label `add` calls, in table order. */
  method AddBuiltins(raw: string) returns (tags: seq<string>)
    ensures tags == Builtins(raw)
    ensures NoDup(tags)
  {
    tags := [];
    for k := 0 to |BUILTIN_LABELS|
      invariant tags + BuiltinsFrom(raw, k) == Builtins(raw)
      invariant forall i :: 0 <= i < |tags| ==> LabelRank(tags[i]) < k
    {
      BuiltinStep(raw, tags, k, BuiltinTest(raw, k));
      if BuiltinTest(raw, k) && BUILTIN_LABELS[k] !in tags {
        tags := tags + [BUILTIN_LABELS[k]];
      }
    }
    assert tags + [] == tags;
  }

  /** One `add` call for the `k`-th fixed label: when the labels before it
      have been settled, the label is not there yet, and adding it exactly
      when its pattern matches settles one more. */
  lemma {:induction false} BuiltinStep(raw: string, tags: seq<string>, k: nat, hit: bool)
    requires k < |BUILTIN_LABELS| && hit == BuiltinTest(raw, k)
    requires tags + BuiltinsFrom(raw, k) == Builtins(raw)
    requires forall i :: 0 <= i < |tags| ==> LabelRank(tags[i]) < k
    ensures BUILTIN_LABELS[k] !in tags
    ensures var t := if hit then tags + [BUILTIN_LABELS[k]] else tags;
            t + BuiltinsFrom(raw, k + 1) == Builtins(raw) && forall i :: 0 <= i < |t| ==> LabelRank(t[i]) < k + 1
  {
    var l := BUILTIN_LABELS[k];
    RankOfLabel(k);
    BuiltinsFromStep(raw, k, hit);
    if hit {
      assert tags + ([l] + BuiltinsFrom(raw, k + 1)) == tags + [l] + BuiltinsFrom(raw, k + 1);
    }
  }

  lemma RankOfLabel(k: nat)
    requires k < |BUILTIN_LABELS|
    ensures LabelRank(BUILTIN_LABELS[k]) == k
  {
  }

  lemma BuiltinsFromStep(raw: string, k: nat, hit: bool)
    requires k < |BUILTIN_LABELS| && hit == BuiltinTest(raw, k)
    ensures BuiltinsFrom(raw, k) == if hit then [BUILTIN_LABELS[k]] + BuiltinsFrom(raw, k + 1) else BuiltinsFrom(raw, k + 1)
  {
  }

  // ------------------------------------------------------ stripInlineTagWords

  /** The annotation words `stripInlineTagWords` removes, in the order the
      alternation tries them. */
  const INLINE_TAG_WORDS: seq<string> := ["new", "vip", "jav", "top", "special", "premium", "came back"]

  /** `\bw\b` with the `i` flag at `i`. */
  predicate InlineWordAt(s: string, i: nat, w: string) {
    Boundary(s, i) && MatchCI(s, i, w) && Boundary(s, i + |w|)
  }

  /** The alternation at `i`: the first word, from the `k`-th on, that matches there. */
  function InlineWordFrom(s: string, i: nat, k: nat): (r: Option<nat>)
    requires k <= |INLINE_TAG_WORDS|
    ensures r.Some? ==> k <= r.value < |INLINE_TAG_WORDS| && InlineWordAt(s, i, INLINE_TAG_WORDS[r.value])
    ensures r.Some? ==> forall j :: k <= j < r.value ==> !InlineWordAt(s, i, INLINE_TAG_WORDS[j])
    ensures r.None? <==> forall j :: k <= j < |INLINE_TAG_WORDS| ==> !InlineWordAt(s, i, INLINE_TAG_WORDS[j])
    decreases |INLINE_TAG_WORDS| - k
  {
    if k == |INLINE_TAG_WORDS| then None
    else if InlineWordAt(s, i, INLINE_TAG_WORDS[k]) then Some(k)
    else InlineWordFrom(s, i, k + 1)
  }

  /** Some annotation word matches at `i`. */
  predicate InlineHit(s: string, i: nat) {
    exists j :: 0 <= j < |INLINE_TAG_WORDS| && InlineWordAt(s, i, INLINE_TAG_WORDS[j])
  }

  /** The global replacement of the annotation words by nothing, scanning
      from `i`: a match is dropped and the scan resumes after it (the word
      boundaries are those of the original text). */
  function RemoveInlineWords(s: string, i: nat): (r: string)
    requires i <= |s|
    ensures |r| <= |s| - i
    ensures forall j :: 0 <= j < |r| ==> r[j] in s[i..]
    decreases |s| - i
  {
    if i == |s| then []
    else match InlineWordFrom(s, i, 0)
      case Some(k) =>
        var w := INLINE_TAG_WORDS[k];
        assert |w| >= 3;
        var rest := RemoveInlineWords(s, i + |w|);
        assert forall c :: c in s[i + |w|..] ==> c in s[i..];
        rest
      case None =>
        var rest := RemoveInlineWords(s, i + 1);
        assert forall c :: c in s[i + 1..] ==> c in s[i..];
        [s[i]] + rest
  }

  /** `stripInlineTagWords`: the annotation words removed, runs of two or more
      whitespace characters made one space, then trimmed. */
  function StripInlineTagWords(name: string): (r: string)
    ensures Trimmed(r) && NoDoubleSpace(r)
  {
    var c := CollapseRuns(RemoveInlineWords(name, 0));
    TrimKeepsNoDouble(c);
    Trim(c)
  }

  /** With no annotation word anywhere from `i` on, the replacement keeps the text. */
  lemma {:induction false} RemoveInlineWordsNone(s: string, i: nat)
    requires i <= |s|
    requires forall j :: i <= j < |s| ==> !InlineHit(s, j)
    ensures RemoveInlineWords(s, i) == s[i..]
    decreases |s| - i
  {
    if i < |s| {
      assert !InlineHit(s, i);
      RemoveInlineWordsNone(s, i + 1);
      assert s[i..] == [s[i]] + s[i + 1..];
    }
  }

  lemma NoInlineWords(s: string)
    requires forall j :: 0 <= j < |s| ==> !InlineHit(s, j)
    ensures RemoveInlineWords(s, 0) == s
  {
    RemoveInlineWordsNone(s, 0);
    assert s[0..] == s;
  }

  /** A name holding none of the annotation words comes back only
      whitespace-normalised, and unchanged when it is already trimmed with
      no whitespace run. */
  lemma StripInlineTagWordsNone(name: string)
    requires forall j :: 0 <= j < |name| ==> !InlineHit(name, j)
    ensures StripInlineTagWords(name) == Trim(CollapseRuns(name))
    ensures Trimmed(name) && NoDoubleSpace(name) ==> StripInlineTagWords(name) == name
  {
    NoInlineWords(name);
    if Trimmed(name) && NoDoubleSpace(name) {
      CollapseRunsOfNoDouble(name);
      TrimOfTrimmed(name);
    }
  }

  /** Unlike `normalizeNat`, the annotation stripper has no exception for
      "New Zealand": the `new` goes. */
  lemma StripInlineTagWordsNewZealand()
    ensures StripInlineTagWords("New Zealand") == "Zealand"
  {
    NewZealandRemoval();
    TidyZealand();
  }

  lemma TidyZealand()
    ensures Trim(CollapseRuns(" Zealand")) == "Zealand"
  {
    var w := "Zealand";
    assert NoSpace(w);
    assert " Zealand" == [' '] + w;
    SpaceThenWordSpaced(w);
    CollapseRunsOfNoDouble([' '] + w);
    SpaceThenWordTrim(w);
  }

  lemma NewZealandRemoval()
    ensures RemoveInlineWords("New Zealand", 0) == " Zealand"
  {
    var s := "New Zealand";
    assert InlineWordAt(s, 0, "new");
    assert InlineWordFrom(s, 0, 0) == Some(0);
    forall j | 3 <= j < |s| ensures !InlineHit(s, j) {
      NoInlineHitInZealand(j);
    }
    RemoveInlineWordsNone(s, 3);
  }

  lemma NoInlineHitInZealand(j: nat)
    requires 3 <= j < 11
    ensures !InlineHit("New Zealand", j)
  {
    var s := "New Zealand";
    if j >= 5 {
      assert IsWordChar(s[j - 1]) && IsWordChar(s[j]);
    } else {
      forall k | 0 <= k < |INLINE_TAG_WORDS| ensures !MatchCI(s, j, INLINE_TAG_WORDS[k]) {
        var w := INLINE_TAG_WORDS[k];
        assert !EqIgnoreCase(s[j + 0], w[0]);
      }
    }
  }

  // ------------------------- stripInlineTagWords leaves no annotation word

  /** A word of lower-case letters: each of the annotation words but
      "came back". */
  predicate LetterWord(w: string) {
    w != [] && forall i :: 0 <= i < |w| ==> IsLowerAscii(w[i])
  }

  lemma SingleTagWords()
    ensures forall k :: 0 <= k < 6 ==> LetterWord(INLINE_TAG_WORDS[k])
  {
    assert LetterWord("new") && LetterWord("vip") && LetterWord("jav") && LetterWord("top");
    assert LetterWord("special") && LetterWord("premium");
  }

  /** Every annotation word starts and ends with a lower-case letter. */
  lemma TagWordEnds()
    ensures forall k :: 0 <= k < |INLINE_TAG_WORDS| ==>
              var w := INLINE_TAG_WORDS[k];
              |w| >= 3 && IsLowerAscii(w[0]) && IsLowerAscii(w[|w| - 1])
  {
  }

  /** A character equal to a lower-case letter ignoring case is a word character. */
  lemma MatchesLetter(c: char, d: char)
    requires IsLowerAscii(d) && EqIgnoreCase(c, d)
    ensures IsWordChar(c)
  {
  }

  /** `\bw\b` at `j`, for a letter word `w`, in a text that continues one
      whose last character is a word character exactly when `lw` holds. */
  predicate TagIn(lw: bool, t: string, j: nat, w: string) {
    j <= |t| && !WordBefore(lw, t, j) && MatchCI(t, j, w) && !WordAt(t, j + |w|)
  }

  /** No single-word annotation is read anywhere in `t`. */
  ghost predicate NoTagIn(lw: bool, t: string) {
    forall j: nat, k :: 0 <= k < 6 ==> !TagIn(lw, t, j, INLINE_TAG_WORDS[k])
  }

  lemma TagInAtStart(t: string, j: nat, w: string)
    requires LetterWord(w)
    ensures InlineWordAt(t, j, w) == TagIn(false, t, j, w)
  {
    if MatchCI(t, j, w) {
      MatchesLetter(t[j + 0], w[0]);
      MatchesLetter(t[j + (|w| - 1)], w[|w| - 1]);
    }
  }

  lemma MatchCIShift(p: string, u: string, j: nat, w: string)
    ensures MatchCI(p + u, |p| + j, w) == MatchCI(u, j, w)
  {
    if j + |w| <= |u| {
      forall k | 0 <= k < |w| ensures EqIgnoreCase((p + u)[|p| + j + k], w[k]) == EqIgnoreCase(u[j + k], w[k]) {
        assert (p + u)[|p| + j + k] == u[j + k];
      }
    }
  }

  /** Reading on past a non-empty prefix `p` only leaves its last character. */
  lemma TagInShift(lw: bool, p: string, u: string, j: nat, w: string)
    requires p != []
    ensures TagIn(lw, p + u, |p| + j, w) == TagIn(IsWordChar(p[|p| - 1]), u, j, w)
  {
    if j <= |u| {
      WordBeforeShift(lw, p, u, j);
      MatchCIShift(p, u, j, w);
      WordAtShift(p, u, j + |w|);
    }
  }

  /** A character `c` put in front of a text with no annotation read after `c`. */
  lemma NoTagInCons(lw: bool, c: char, u: string)
    requires forall k :: 0 <= k < 6 ==> !TagIn(lw, [c] + u, 0, INLINE_TAG_WORDS[k])
    requires NoTagIn(IsWordChar(c), u)
    ensures NoTagIn(lw, [c] + u)
  {
    forall j: nat, k | 0 <= k < 6 ensures !TagIn(lw, [c] + u, j, INLINE_TAG_WORDS[k]) {
      if j > 0 {
        TagInShift(lw, [c], u, j - 1, INLINE_TAG_WORDS[k]);
      }
    }
  }

  /** No annotation starts at a character that is not a word character. */
  lemma NoTagAtNonWord(lw: bool, t: string, w: string)
    requires LetterWord(w) && t != [] && !IsWordChar(t[0])
    ensures !TagIn(lw, t, 0, w)
  {
    if MatchCI(t, 0, w) {
      MatchesLetter(t[0 + 0], w[0]);
    }
  }

  /** An annotation at the front of `u + x`, where `u` is all word characters
      and `x` does not start with one, is the whole of `u`. */
  lemma TagAtFront(lw: bool, u: string, x: string, w: string)
    requires LetterWord(w) && forall i :: 0 <= i < |u| ==> IsWordChar(u[i])
    requires x == [] || !IsWordChar(x[0])
    ensures TagIn(lw, u + x, 0, w) ==> !lw && |w| == |u| && MatchCI(u, 0, w)
  {
    var t := u + x;
    if TagIn(lw, t, 0, w) {
      if |w| > |u| {
        assert t[0 + |u|] == x[0];
        MatchesLetter(t[0 + |u|], w[|u|]);
      }
      forall k | 0 <= k < |w| ensures EqIgnoreCase(u[0 + k], w[k]) {
        assert t[0 + k] == u[k];
      }
    }
  }

  /** The converse: a whole word run equal to `w` ignoring case is read as `w`. */
  lemma TagOfRun(u: string, x: string, w: string)
    requires MatchCI(u, 0, w) && |w| == |u|
    requires x == [] || !IsWordChar(x[0])
    ensures TagIn(false, u + x, 0, w)
  {
    var t := u + x;
    forall k | 0 <= k < |w| ensures EqIgnoreCase(t[0 + k], w[k]) {
      assert t[0 + k] == u[k];
    }
    if |u| < |t| {
      assert t[|u|] == x[0];
    }
  }

  /** The end of the run of word characters starting at `i`. */
  function RunEnd(s: string, i: nat): (m: nat)
    requires i <= |s|
    ensures i <= m <= |s|
    ensures forall k :: i <= k < m ==> IsWordChar(s[k])
    ensures m < |s| ==> !IsWordChar(s[m])
    decreases |s| - i
  {
    if i == |s| || !IsWordChar(s[i]) then i else RunEnd(s, i + 1)
  }

  /** The run of word characters at the front of `t`, and what follows it. */
  lemma RunSplit(t: string)
    ensures var m := RunEnd(t, 0);
            t == t[..m] + t[m..] && (forall i :: 0 <= i < m ==> IsWordChar(t[..m][i]))
            && (t[m..] == [] || !IsWordChar(t[m..][0]))
  {
    var m := RunEnd(t, 0);
    assert t == t[..m] + t[m..];
  }

  /** Where no annotation word matches, one character is copied. */
  lemma RemoveInlineStep(s: string, i: nat)
    requires i < |s| && InlineWordFrom(s, i, 0).None?
    ensures RemoveInlineWords(s, i) == [s[i]] + RemoveInlineWords(s, i + 1)
  {
  }

  /** With no annotation word matching on `[a, b)`, that stretch is copied. */
  lemma {:induction false} RemoveInlineKeep(s: string, a: nat, b: nat)
    requires a <= b <= |s|
    requires forall j :: a <= j < b ==> InlineWordFrom(s, j, 0).None?
    ensures RemoveInlineWords(s, a) == s[a..b] + RemoveInlineWords(s, b)
    decreases b - a
  {
    if a < b {
      var rest := RemoveInlineWords(s, b);
      RemoveInlineKeep(s, a + 1, b);
      RemoveInlineStep(s, a);
      SliceHead(s, a, b);
      AppendAssoc([s[a]], s[a + 1..b], rest);
    }
  }

  /** No annotation word matches between two word characters. */
  lemma InsideRunNoTag(s: string, j: nat)
    requires 0 < j < |s| && IsWordChar(s[j - 1]) && IsWordChar(s[j])
    ensures InlineWordFrom(s, j, 0).None?
  {
    assert !Boundary(s, j);
  }

  /** No annotation word matches at a character that is not a word character. */
  lemma NonWordNoTag(s: string, j: nat)
    requires j < |s| && !IsWordChar(s[j])
    ensures InlineWordFrom(s, j, 0).None?
  {
    TagWordEnds();
    forall k | 0 <= k < |INLINE_TAG_WORDS| ensures !InlineWordAt(s, j, INLINE_TAG_WORDS[k]) {
      if MatchCI(s, j, INLINE_TAG_WORDS[k]) {
        MatchesLetter(s[j + 0], INLINE_TAG_WORDS[k][0]);
      }
    }
  }

  /** A kept word character starts a run that is copied whole, and what the
      scan writes next is not a word character. */
  lemma KeptRun(s: string, i: nat)
    requires i < |s| && IsWordChar(s[i]) && InlineWordFrom(s, i, 0).None?
    ensures var m := RunEnd(s, i); var rest := RemoveInlineWords(s, m);
            RemoveInlineWords(s, i) == s[i..m] + rest && (rest == [] || !IsWordChar(rest[0]))
  {
    var m := RunEnd(s, i);
    forall j | i < j < m ensures InlineWordFrom(s, j, 0).None? {
      InsideRunNoTag(s, j);
    }
    RemoveInlineKeep(s, i, m);
    if m < |s| {
      NonWordNoTag(s, m);
      RemoveInlineStep(s, m);
    }
  }

  /** A run kept whole that reads as `w` was `\bw\b` in the source. */
  lemma KeptRunIsWord(s: string, i: nat, lw: bool, w: string)
    requires i < |s| && ScanContext(s, i, lw) && IsWordChar(s[i]) && !lw
    requires var m := RunEnd(s, i); |w| == m - i && MatchCI(s[i..m], 0, w)
    ensures InlineWordAt(s, i, w)
  {
    var m := RunEnd(s, i);
    assert Boundary(s, i);
    forall q | 0 <= q < |w| ensures EqIgnoreCase(s[i + q], w[q]) {
      assert s[i + q] == s[i..m][0 + q];
    }
    assert Boundary(s, i + |w|);
  }

  /** A character the scan keeps does not start an annotation of the output. */
  lemma KeptNotTag(s: string, i: nat, lw: bool, k: nat)
    requires i < |s| && ScanContext(s, i, lw) && InlineWordFrom(s, i, 0).None? && k < 6
    ensures !TagIn(lw, [s[i]] + RemoveInlineWords(s, i + 1), 0, INLINE_TAG_WORDS[k])
  {
    var w := INLINE_TAG_WORDS[k];
    SingleTagWords();
    if !IsWordChar(s[i]) {
      NoTagAtNonWord(lw, [s[i]] + RemoveInlineWords(s, i + 1), w);
    } else {
      KeptWordRunNotTag(s, i, lw, w);
    }
  }

  /** The word-character case of `KeptNotTag`: the run is kept whole, so
      reading it as `w` would have matched in the source. */
  lemma KeptWordRunNotTag(s: string, i: nat, lw: bool, w: string)
    requires i < |s| && ScanContext(s, i, lw) && IsWordChar(s[i]) && LetterWord(w)
    requires InlineWordFrom(s, i, 0).None? && w in INLINE_TAG_WORDS
    ensures !TagIn(lw, [s[i]] + RemoveInlineWords(s, i + 1), 0, w)
  {
    var t := [s[i]] + RemoveInlineWords(s, i + 1);
    var m := RunEnd(s, i);
    KeptRun(s, i);
    RemoveInlineStep(s, i);
    TagAtFront(lw, s[i..m], RemoveInlineWords(s, m), w);
    if TagIn(lw, t, 0, w) {
      KeptRunIsWord(s, i, lw, w);
    }
  }

  /** Dropping a matched word keeps the scan context: the word starts and
      ends with a letter and stands between word boundaries. */
  lemma ScanAfterRemoval(s: string, i: nat, lw: bool)
    requires i < |s| && ScanContext(s, i, lw) && InlineWordFrom(s, i, 0).Some?
    ensures var w := INLINE_TAG_WORDS[InlineWordFrom(s, i, 0).value];
            i + |w| <= |s| && ScanContext(s, i + |w|, lw)
            && RemoveInlineWords(s, i) == RemoveInlineWords(s, i + |w|)
  {
    var w := INLINE_TAG_WORDS[InlineWordFrom(s, i, 0).value];
    RemoveInlineSkip(s, i);
    TagWordEnds();
    WordContext(s, i, lw, w);
  }

  lemma RemoveInlineSkip(s: string, i: nat)
    requires i < |s| && InlineWordFrom(s, i, 0).Some?
    ensures var w := INLINE_TAG_WORDS[InlineWordFrom(s, i, 0).value];
            InlineWordAt(s, i, w) && i + |w| <= |s|
            && RemoveInlineWords(s, i) == RemoveInlineWords(s, i + |w|)
  {
  }

  /** The context after a word `w` that starts and ends with a letter and
      stands between word boundaries. */
  lemma WordContext(s: string, i: nat, lw: bool, w: string)
    requires ScanContext(s, i, lw) && InlineWordAt(s, i, w)
    requires |w| >= 1 && IsLowerAscii(w[0]) && IsLowerAscii(w[|w| - 1])
    ensures ScanContext(s, i + |w|, lw)
  {
    MatchesLetter(s[i + 0], w[0]);
    MatchesLetter(s[i + (|w| - 1)], w[|w| - 1]);
    assert !lw;
  }

  /** A kept character in front of an annotation-free rest gives an
      annotation-free text. */
  lemma KeptCharLeavesNone(s: string, i: nat, lw: bool)
    requires i < |s| && ScanContext(s, i, lw) && InlineWordFrom(s, i, 0).None?
    requires NoTagIn(IsWordChar(s[i]), RemoveInlineWords(s, i + 1))
    ensures NoTagIn(lw, RemoveInlineWords(s, i))
  {
    forall k | 0 <= k < 6 ensures !TagIn(lw, [s[i]] + RemoveInlineWords(s, i + 1), 0, INLINE_TAG_WORDS[k]) {
      KeptNotTag(s, i, lw, k);
    }
    RemoveInlineStep(s, i);
    NoTagInCons(lw, s[i], RemoveInlineWords(s, i + 1));
  }

  /** Where the replacement's scan goes on from `i`: past the matched word, or
      past the one character it keeps. */
  function ScanNext(s: string, i: nat): (r: nat)
    requires i < |s|
    ensures i < r <= |s|
    ensures InlineWordFrom(s, i, 0).None? <==> r == i + 1
  {
    match InlineWordFrom(s, i, 0)
    case Some(k) =>
      TagWordEnds();
      i + |INLINE_TAG_WORDS[k]|
    case None => i + 1
  }

  /** Whether the output so far ends in a word character, after that step. */
  function ScanNextLw(s: string, i: nat, lw: bool): bool
    requires i < |s|
  {
    if InlineWordFrom(s, i, 0).Some? then lw else IsWordChar(s[i])
  }

  lemma ScanStepContext(s: string, i: nat, lw: bool)
    requires i < |s| && ScanContext(s, i, lw)
    ensures ScanContext(s, ScanNext(s, i), ScanNextLw(s, i, lw))
  {
    if InlineWordFrom(s, i, 0).Some? {
      ScanAfterRemoval(s, i, lw);
    }
  }

  lemma ScanStepLeavesNone(s: string, i: nat, lw: bool)
    requires i < |s| && ScanContext(s, i, lw)
    requires NoTagIn(ScanNextLw(s, i, lw), RemoveInlineWords(s, ScanNext(s, i)))
    ensures NoTagIn(lw, RemoveInlineWords(s, i))
  {
    if InlineWordFrom(s, i, 0).Some? {
      ScanAfterRemoval(s, i, lw);
    } else {
      KeptCharLeavesNone(s, i, lw);
    }
  }

  /** The replacement leaves no single-word annotation behind: a dropped word
      has a non-word character or an end on each side, so no new whole word
      forms where it was. */
  lemma {:induction false} RemoveInlineLeavesNone(s: string, i: nat, lw: bool)
    requires i <= |s| && ScanContext(s, i, lw)
    ensures NoTagIn(lw, RemoveInlineWords(s, i))
    decreases |s| - i
  {
    if i < |s| {
      ScanStepContext(s, i, lw);
      RemoveInlineLeavesNone(s, ScanNext(s, i), ScanNextLw(s, i, lw));
      ScanStepLeavesNone(s, i, lw);
    } else {
      NoTagInEmpty(lw);
    }
  }

  /** The empty text holds no annotation. */
  lemma NoTagInEmpty(lw: bool)
    ensures NoTagIn(lw, [])
  {
    SingleTagWords();
  }

  /** No whole-word `new`, `vip`, `jav`, `top`, `special` or `premium`, in
      any case, is left by the global replacement. */
  lemma RemoveInlineWordsLeavesNone(s: string)
    ensures forall j: nat, k :: 0 <= k < 6 ==> !InlineWordAt(RemoveInlineWords(s, 0), j, INLINE_TAG_WORDS[k])
  {
    RemoveInlineLeavesNone(s, 0, false);
    SingleTagWords();
    forall j: nat, k | 0 <= k < 6 ensures !InlineWordAt(RemoveInlineWords(s, 0), j, INLINE_TAG_WORDS[k]) {
      TagInAtStart(RemoveInlineWords(s, 0), j, INLINE_TAG_WORDS[k]);
    }
  }

  /** Collapsing copies a leading run of word characters. */
  lemma {:induction false} CollapseRunsWordPrefix(u: string, x: string)
    requires forall i :: 0 <= i < |u| ==> IsWordChar(u[i])
    ensures CollapseRuns(u + x) == u + CollapseRuns(x)
    decreases |u|
  {
    if u != [] {
      var t := u + x;
      assert t[0] == u[0] && !IsSpace(t[0]);
      assert t[1..] == u[1..] + x;
      assert CollapseRuns(t) == [t[0]] + CollapseRuns(t[1..]);
      CollapseRunsWordPrefix(u[1..], x);
      AppendAssoc([u[0]], u[1..], CollapseRuns(x));
      assert u == [u[0]] + u[1..];
    } else {
      assert u + x == x;
      assert u + CollapseRuns(x) == CollapseRuns(x);
    }
  }

  /** Collapsing does not start a text with a word character it did not start with. */
  lemma CollapseRunsHead(x: string)
    requires x == [] || !IsWordChar(x[0])
    ensures CollapseRuns(x) == [] || !IsWordChar(CollapseRuns(x)[0])
  {
  }

  /** Collapsing does not make an annotation at the front of a text. */
  lemma CollapseNotTagAtFront(lw: bool, t: string, w: string)
    requires LetterWord(w)
    ensures TagIn(lw, CollapseRuns(t), 0, w) ==> TagIn(lw, t, 0, w)
  {
    var m := RunEnd(t, 0);
    var u, x := t[..m], t[m..];
    RunSplit(t);
    CollapseRunsWordPrefix(u, x);
    CollapseRunsHead(x);
    TagAtFront(lw, u, CollapseRuns(x), w);
    if TagIn(lw, CollapseRuns(t), 0, w) {
      TagOfRun(u, x, w);
    }
  }

  /** Dropping a non-empty prefix whose last character is whitespace. */
  lemma NoTagInAfterSpace(lw: bool, p: string, v: string)
    requires p != [] && IsSpace(p[|p| - 1]) && NoTagIn(lw, p + v)
    ensures NoTagIn(false, v)
  {
    forall j: nat, k | 0 <= k < 6 ensures !TagIn(false, v, j, INLINE_TAG_WORDS[k]) {
      TagInShift(lw, p, v, j, INLINE_TAG_WORDS[k]);
    }
  }

  /** Past a first character, the rest holds no annotation either. */
  lemma NoTagInTail(lw: bool, t: string)
    requires t != [] && NoTagIn(lw, t)
    ensures NoTagIn(IsWordChar(t[0]), t[1..])
  {
    assert t == [t[0]] + t[1..];
    forall j: nat, k | 0 <= k < 6 ensures !TagIn(IsWordChar(t[0]), t[1..], j, INLINE_TAG_WORDS[k]) {
      TagInShift(lw, [t[0]], t[1..], j, INLINE_TAG_WORDS[k]);
    }
  }

  /** Trimming the front makes no annotation. */
  lemma TrimStartLeavesNoTag(lw: bool, t: string)
    requires NoTagIn(lw, t) && t != [] && IsSpace(t[0])
    ensures NoTagIn(false, TrimStart(t))
  {
    var v := TrimStart(t);
    var m := |t| - |v|;
    TrimStartSplit(t);
    assert m > 0;
    NoTagInAfterSpace(lw, t[..m], v);
  }

  /** Collapsing whitespace runs makes no annotation. */
  lemma {:induction false} CollapseRunsLeavesNoTag(lw: bool, t: string)
    requires NoTagIn(lw, t)
    ensures NoTagIn(lw, CollapseRuns(t))
    decreases |t|
  {
    SingleTagWords();
    if t != [] {
      if IsSpace(t[0]) && |t| >= 2 && IsSpace(t[1]) {
        TrimStartLeavesNoTag(lw, t);
        CollapseRunsLeavesNoTag(false, TrimStart(t));
        var c := CollapseRuns(TrimStart(t));
        forall k | 0 <= k < 6 ensures !TagIn(lw, [' '] + c, 0, INLINE_TAG_WORDS[k]) {
          NoTagAtNonWord(lw, [' '] + c, INLINE_TAG_WORDS[k]);
        }
        NoTagInCons(lw, ' ', c);
      } else {
        NoTagInTail(lw, t);
        CollapseRunsLeavesNoTag(IsWordChar(t[0]), t[1..]);
        forall k | 0 <= k < 6 ensures !TagIn(lw, CollapseRuns(t), 0, INLINE_TAG_WORDS[k]) {
          CollapseNotTagAtFront(lw, t, INLINE_TAG_WORDS[k]);
        }
        NoTagInCons(lw, t[0], CollapseRuns(t[1..]));
      }
    }
  }

  /** Trailing whitespace keeps an annotation. */
  lemma TagInDropTrailing(lw: bool, r: string, v: string, j: nat, w: string)
    requires AllSpace(v)
    ensures TagIn(lw, r, j, w) ==> TagIn(lw, r + v, j, w)
  {
    var t := r + v;
    if TagIn(lw, r, j, w) {
      forall q | 0 <= q < |w| ensures EqIgnoreCase(t[j + q], w[q]) {
        assert t[j + q] == r[j + q];
      }
      if j > 0 {
        assert t[j - 1] == r[j - 1];
      }
      if j + |w| < |t| {
        assert t[j + |w|] == if j + |w| < |r| then r[j + |w|] else v[0];
      }
    }
  }

  /** Trimming the end makes no annotation. */
  lemma TrimEndLeavesNoTag(lw: bool, v: string)
    requires NoTagIn(lw, v)
    ensures NoTagIn(lw, TrimEnd(v))
  {
    var r := TrimEnd(v);
    var ws := v[|r|..];
    assert v == r + ws;
    forall j: nat, k | 0 <= k < 6 ensures !TagIn(lw, r, j, INLINE_TAG_WORDS[k]) {
      TagInDropTrailing(lw, r, ws, j, INLINE_TAG_WORDS[k]);
    }
  }

  /** `stripInlineTagWords` leaves no whole-word `new`, `vip`, `jav`, `top`,
      `special` or `premium`, in any case. */
  lemma StripInlineTagWordsLeavesNone(name: string)
    ensures forall j: nat, k :: 0 <= k < 6 ==> !InlineWordAt(StripInlineTagWords(name), j, INLINE_TAG_WORDS[k])
  {
    var n := RemoveInlineWords(name, 0);
    var c := CollapseRuns(n);
    RemoveInlineLeavesNone(name, 0, false);
    CollapseRunsLeavesNoTag(false, n);
    if c != [] && IsSpace(c[0]) {
      TrimStartLeavesNoTag(false, c);
    }
    TrimEndLeavesNoTag(false, TrimStart(c));
    var r := StripInlineTagWords(name);
    assert r == TrimEnd(TrimStart(c));
    SingleTagWords();
    forall j: nat, k | 0 <= k < 6 ensures !InlineWordAt(r, j, INLINE_TAG_WORDS[k]) {
      TagInAtStart(r, j, INLINE_TAG_WORDS[k]);
    }
  }

  // ------------------------------------------------------------- normalizeNat

  /** `\bnew\b(?!\s*zealand)\b` at `i`: a whole-word `new` not followed by
      optional whitespace and `zealand` (the whitespace run inside the
      look-ahead can only succeed when taken whole, as `z` is not whitespace). */
  predicate NewWordAt(s: string, i: nat) {
    Boundary(s, i) && MatchAt(s, i, "new") && Boundary(s, i + 3)
    && !MatchAt(s, SkipSpaces(s, i + 3), "zealand")
  }

  /** The global replacement of those words by nothing, scanning from `i`. */
  function RemoveNew(s: string, i: nat): (r: string)
    requires i <= |s|
    ensures |r| <= |s| - i
    ensures (forall j :: i <= j < |s| ==> !IsUpperAscii(s[j])) ==> NoUpperAscii(r)
    decreases |s| - i
  {
    if i == |s| then []
    else if NewWordAt(s, i) then RemoveNew(s, i + 3)
    else [s[i]] + RemoveNew(s, i + 1)
  }

  /** `normalizeNat`: lower-cased, every unprotected whole-word `new`
      removed, whitespace runs made single spaces, trimmed. */
  function NormalizeNat(rawNat: string): (r: string)
    ensures Trimmed(r) && SingleSpaced(r) && NoUpperAscii(r)
  {
    var n := RemoveNew(Lower(rawNat), 0);
    var c := CollapseSpaces(n);
    TrimKeepsSpacing(c);
    CollapseKeepsNoUpper(n);
    TrimKeepsNoUpper(c);
    Trim(c)
  }

  lemma CollapseKeepsNoUpper(s: string)
    requires NoUpperAscii(s)
    ensures NoUpperAscii(CollapseSpaces(s))
  {
    var r := CollapseSpaces(s);
    CollapseChars(s);
    forall i | 0 <= i < |r| ensures !IsUpperAscii(r[i]) {
      if r[i] != ' ' {
        assert r[i] in s;
      }
    }
  }

  /** With no unprotected `new` from `i` on, the replacement keeps the text. */
  lemma {:induction false} RemoveNewNone(s: string, i: nat)
    requires i <= |s|
    requires forall j :: i <= j < |s| ==> !NewWordAt(s, j)
    ensures RemoveNew(s, i) == s[i..]
    decreases |s| - i
  {
    if i < |s| {
      RemoveNewNone(s, i + 1);
      assert s[i..] == [s[i]] + s[i + 1..];
    }
  }

  /** Text already in normal form is a fixed point: lower-case, trimmed,
      single-spaced and with no unprotected whole-word `new`. */
  lemma NormalizeNatOfNormal(s: string)
    requires NoUpperAscii(s) && Trimmed(s) && SingleSpaced(s)
    requires forall j :: 0 <= j < |s| ==> !NewWordAt(s, j)
    ensures NormalizeNat(s) == s
  {
    assert Lower(s) == s;
    RemoveNewNone(s, 0);
    assert s[0..] == s;
    CollapseOfSingleSpaced(s);
    TrimOfTrimmed(s);
  }

  /** `normalizeNat` ignores ASCII case: texts that lower-case alike
      normalise alike. */
  lemma NormalizeNatCaseBlind(x: string, y: string)
    requires Lower(x) == Lower(y)
    ensures NormalizeNat(x) == NormalizeNat(y)
  {
  }

  /** The protected case: any spelling of "New Zealand" keeps its `new`. */
  lemma NormalizeNatKeepsNewZealand(x: string)
    requires Lower(x) == "new zealand"
    ensures NormalizeNat(x) == "new zealand"
  {
    var n := "new zealand";
    NewZealandIsNormal();
    NewZealandIsPlain();
    NormalizeNatOfNormal(n);
    NormalizeNatCaseBlind(x, n);
  }

  lemma NewZealandIsPlain()
    ensures NoUpperAscii("new zealand") && Trimmed("new zealand") && Lower("new zealand") == "new zealand"
  {
  }

  lemma NewZealandIsNormal()
    ensures SingleSpaced("new zealand")
    ensures forall j :: 0 <= j < 11 ==> !NewWordAt("new zealand", j)
  {
    var t := "new zealand";
    forall j | 0 <= j < |t| ensures !NewWordAt(t, j) {
      NoNewWordInNewZealand(j);
    }
    forall i, j | 0 <= i < j < |t| && j == i + 1 && IsSpace(t[i]) ensures !IsSpace(t[j]) {
      assert i == 3;
    }
  }

  lemma NoNewWordInNewZealand(j: nat)
    requires j < 11
    ensures !NewWordAt("new zealand", j)
  {
    var t := "new zealand";
    if j == 0 {
      assert SkipSpaces(t, 3) == 4;
      assert t[4..11] == "zealand";
    } else if j + 3 <= |t| {
      assert t[j..j + 3][0] == t[j] != 'n';
    }
  }

  /** The unprotected case: any spelling of "new japanese" loses its `new`. */
  lemma NormalizeNatDropsNew(x: string)
    requires Lower(x) == "new japanese"
    ensures NormalizeNat(x) == "japanese"
  {
    DropNewJapanese();
    TidyJapanese();
  }

  lemma DropNewJapanese()
    ensures RemoveNew("new japanese", 0) == " japanese"
  {
    var t := "new japanese";
    NewBeforeJapanese();
    NoNewInJapanese();
    RemoveNewNone(t, 3);
  }

  lemma NewBeforeJapanese()
    ensures NewWordAt("new japanese", 0)
  {
    var t := "new japanese";
    assert SkipSpaces(t, 3) == 4;
    assert t[4..11] != "zealand" by { assert t[4..11][0] == 'j'; }
  }

  lemma NoNewInJapanese()
    ensures forall j :: 3 <= j < |"new japanese"| ==> !NewWordAt("new japanese", j)
  {
    var t := "new japanese";
    forall j | 3 <= j < |t| ensures !NewWordAt(t, j) {
      if j + 3 <= |t| {
        assert t[j..j + 3] != "new" by {
          if j == 8 {
            assert t[j..j + 3][2] == 's';
          } else {
            assert t[j..j + 3][0] == t[j] != 'n';
          }
        }
      }
    }
  }

  lemma TidyJapanese()
    ensures Trim(CollapseSpaces(" japanese")) == "japanese"
  {
    var w := "japanese";
    assert NoSpace(w);
    assert " japanese" == [' '] + w;
    SpaceThenWordSpaced(w);
    CollapseOfSingleSpaced([' '] + w);
    SpaceThenWordTrim(w);
  }

  // ----------------------------------- normalizeNat leaves no `new` to remove

  /** The character before index `j` is a word character; before index 0 that
      is `lw`, which says how the text this one continues ended. */
  predicate WordBefore(lw: bool, t: string, j: nat)
    requires j <= |t|
  {
    if j == 0 then lw else IsWordChar(t[j - 1])
  }

  predicate WordAt(t: string, k: nat) {
    k < |t| && IsWordChar(t[k])
  }

  /** The look-ahead `\s*zealand` succeeds at `k`. */
  predicate ZealandFrom(t: string, k: nat)
    requires k <= |t|
  {
    MatchAt(t, SkipSpaces(t, k), "zealand")
  }

  /** `NewWordAt` for a text that continues one whose last character is a
      word character exactly when `lw` holds. */
  predicate NewIn(lw: bool, t: string, j: nat) {
    j + 3 <= |t| && t[j..j + 3] == "new"
    && !WordBefore(lw, t, j) && !WordAt(t, j + 3) && !ZealandFrom(t, j + 3)
  }

  ghost predicate NoNewIn(lw: bool, t: string) {
    forall j: nat :: !NewIn(lw, t, j)
  }

  lemma NewInAtStart(t: string, j: nat)
    ensures NewWordAt(t, j) == NewIn(false, t, j)
  {
    if j + 3 <= |t| && t[j..j + 3] == "new" {
      assert t[j] == 'n' && t[j + 2] == 'w';
    }
  }

  lemma WordBeforeShift(lw: bool, p: string, u: string, j: nat)
    requires p != [] && j <= |u|
    ensures WordBefore(lw, p + u, |p| + j) == WordBefore(IsWordChar(p[|p| - 1]), u, j)
  {
    assert (p + u)[|p| + j - 1] == if j == 0 then p[|p| - 1] else u[j - 1];
  }

  lemma WordAtShift(p: string, u: string, k: nat)
    ensures WordAt(p + u, |p| + k) == WordAt(u, k)
  {
    if k < |u| {
      assert (p + u)[|p| + k] == u[k];
    }
  }

  lemma ZealandFromShift(p: string, u: string, k: nat)
    requires k <= |u|
    ensures ZealandFrom(p + u, |p| + k) == ZealandFrom(u, k)
  {
    SkipSpacesShift(p, u, k);
    MatchAtShift(p, u, SkipSpaces(u, k), "zealand");
  }

  /** Reading on past a non-empty prefix `p` only leaves its last character. */
  lemma NewInShift(lw: bool, p: string, u: string, j: nat)
    requires p != []
    ensures NewIn(lw, p + u, |p| + j) == NewIn(IsWordChar(p[|p| - 1]), u, j)
  {
    if j + 3 <= |u| {
      assert (p + u)[|p| + j..|p| + j + 3] == u[j..j + 3];
      WordBeforeShift(lw, p, u, j);
      WordAtShift(p, u, j + 3);
      ZealandFromShift(p, u, j + 3);
    }
  }

  /** A character `c` put in front of a text with no `new` read after `c`. */
  lemma NoNewInCons(lw: bool, c: char, u: string)
    requires !NewIn(lw, [c] + u, 0) && NoNewIn(IsWordChar(c), u)
    ensures NoNewIn(lw, [c] + u)
  {
    forall j: nat ensures !NewIn(lw, [c] + u, j) {
      if j > 0 {
        NewInShift(lw, [c], u, j - 1);
      }
    }
  }

  /** Where the scan of `RemoveNew` stands at `i`: `lw` tells whether the
      last character written is a word character. That character is
      `s[i - 1]` unless a `new` was just dropped, and then `s[i]` is not a
      word character. */
  predicate ScanContext(s: string, i: nat, lw: bool) {
    (lw ==> 0 < i <= |s| && IsWordChar(s[i - 1]))
    && (0 < i < |s| && IsWordChar(s[i - 1]) && !lw ==> !IsWordChar(s[i]))
  }

  /** No `new` is dropped just after a word character. */
  lemma RemoveNewAfterWord(s: string, i: nat)
    requires i + 1 < |s| && IsWordChar(s[i])
    ensures RemoveNew(s, i + 1) == [s[i + 1]] + RemoveNew(s, i + 2)
  {
    assert !Boundary(s, i + 1) || !IsWordChar(s[i + 1]);
    if MatchAt(s, i + 1, "new") {
      assert s[i + 1] == s[i + 1..i + 4][0];
    }
  }

  lemma RemoveNewStep(s: string, i: nat)
    requires i < |s| && !NewWordAt(s, i)
    ensures RemoveNew(s, i) == [s[i]] + RemoveNew(s, i + 1)
  {
  }

  /** With no unprotected `new` on `[a, b)`, that stretch is copied. */
  lemma {:induction false} RemoveNewKeep(s: string, a: nat, b: nat)
    requires a <= b <= |s|
    requires forall j :: a <= j < b ==> !NewWordAt(s, j)
    ensures RemoveNew(s, a) == s[a..b] + RemoveNew(s, b)
    decreases b - a
  {
    if a < b {
      RemoveNewStep(s, a);
      RemoveNewKeep(s, a + 1, b);
      AppendAssoc([s[a]], s[a + 1..b], RemoveNew(s, b));
      assert s[a..b] == [s[a]] + s[a + 1..b];
    }
  }

  /** No `new` starts inside a `zealand`. */
  lemma NoNewInZealand(s: string, k: nat, j: nat)
    requires k + 7 <= |s| && s[k..k + 7] == "zealand" && k <= j < k + 7
    ensures !NewWordAt(s, j)
  {
    assert s[j] == "zealand"[j - k];
    if j == k + 5 {
      assert IsWordChar(s[j - 1]);
    }
  }

  /** A `zealand` is copied by the replacement. */
  lemma ZealandCopied(s: string, a: nat)
    requires MatchAt(s, a, "zealand")
    ensures ZealandFrom(RemoveNew(s, a), 0)
  {
    forall j | a <= j < a + 7 ensures !NewWordAt(s, j) {
      NoNewInZealand(s, a, j);
    }
    RemoveNewKeep(s, a, a + 7);
    var u := RemoveNew(s, a);
    assert u[0..7] == "zealand";
    assert !IsSpace(u[0]);
  }

  /** A whitespace character is copied by the replacement. */
  lemma ZealandKeptStep(s: string, a: nat)
    requires a < |s| && IsSpace(s[a]) && ZealandFrom(RemoveNew(s, a + 1), 0)
    ensures ZealandFrom(RemoveNew(s, a), 0)
  {
    assert !NewWordAt(s, a) by { assert s[a] != 'n'; }
    var v := RemoveNew(s, a + 1);
    assert RemoveNew(s, a) == [s[a]] + v;
    ZealandFromShift([s[a]], v, 0);
  }

  /** A `zealand` after a whitespace run survives the replacement. */
  lemma {:induction false} ZealandKept(s: string, a: nat)
    requires a <= |s| && ZealandFrom(s, a)
    ensures ZealandFrom(RemoveNew(s, a), 0)
    decreases |s| - a
  {
    if SkipSpaces(s, a) == a {
      ZealandCopied(s, a);
    } else {
      ZealandKept(s, a + 1);
      ZealandKeptStep(s, a);
    }
  }

  lemma NewLetters(t: string, k: nat)
    requires MatchAt(t, k, "new")
    ensures t[k] == 'n' && t[k + 1] == 'e' && t[k + 2] == 'w'
  {
    assert t[k] == t[k..k + 3][0] && t[k + 1] == t[k..k + 3][1] && t[k + 2] == t[k..k + 3][2];
  }

  lemma LettersNew(s: string, i: nat)
    requires i + 2 < |s| && s[i] == 'n' && s[i + 1] == 'e' && s[i + 2] == 'w'
    ensures MatchAt(s, i, "new")
  {
    assert s[i..i + 3] == [s[i], s[i + 1], s[i + 2]];
  }

  /** After a word character the output goes on with the next character. */
  lemma KeptNext(s: string, i: nat)
    requires i < |s| && IsWordChar(s[i]) && RemoveNew(s, i + 1) != []
    ensures i + 1 < |s| && RemoveNew(s, i + 1) == [s[i + 1]] + RemoveNew(s, i + 2)
  {
    RemoveNewAfterWord(s, i);
  }

  lemma ConsThree(a: char, b: char, c: char, w: string)
    ensures [a] + ([b] + ([c] + w)) == [a, b, c] + w
  {
  }

  /** A `new` made of a character and a text. */
  lemma ConsLetters(c: char, u: string)
    requires MatchAt([c] + u, 0, "new")
    ensures c == 'n' && |u| >= 2 && u[0] == 'e' && u[1] == 'w'
  {
    NewLetters([c] + u, 0);
    assert ([c] + u)[1] == u[0] && ([c] + u)[2] == u[1];
  }

  /** A `new` that starts the output at a kept character was read whole. */
  lemma KeptPrefix(s: string, i: nat)
    requires i < |s|
    requires MatchAt([s[i]] + RemoveNew(s, i + 1), 0, "new")
    ensures MatchAt(s, i, "new")
    ensures [s[i]] + RemoveNew(s, i + 1) == s[i..i + 3] + RemoveNew(s, i + 3)
  {
    var u := RemoveNew(s, i + 1);
    ConsLetters(s[i], u);
    KeptNext(s, i);
    var v := RemoveNew(s, i + 2);
    assert v[0] == 'w';
    KeptNext(s, i + 1);
    LettersNew(s, i);
    ConsThree(s[i], s[i + 1], s[i + 2], RemoveNew(s, i + 3));
    assert s[i..i + 3] == [s[i], s[i + 1], s[i + 2]];
  }

  /** The character after a `new` of the source follows it in the output. */
  lemma KeptWordAfter(s: string, i: nat)
    requires MatchAt(s, i, "new")
    ensures WordAt(s, i + 3) == WordAt(s[i..i + 3] + RemoveNew(s, i + 3), 3)
  {
    var w := RemoveNew(s, i + 3);
    assert |s[i..i + 3]| == 3;
    WordAtShift(s[i..i + 3], w, 0);
    if i + 3 < |s| && IsWordChar(s[i + 3]) {
      NewLetters(s, i);
      RemoveNewAfterWord(s, i + 2);
    } else if i + 3 < |s| {
      assert !NewWordAt(s, i + 3) by {
        if MatchAt(s, i + 3, "new") {
          NewLetters(s, i + 3);
        }
      }
      assert w == [s[i + 3]] + RemoveNew(s, i + 4);
    }
  }

  /** A protecting `zealand` after a `new` of the source follows it in the output. */
  lemma KeptZealandAfter(s: string, i: nat)
    requires MatchAt(s, i, "new") && ZealandFrom(s, i + 3)
    ensures ZealandFrom(s[i..i + 3] + RemoveNew(s, i + 3), 3)
  {
    var w := RemoveNew(s, i + 3);
    ZealandFromShift(s[i..i + 3], w, 0);
    ZealandKept(s, i + 3);
  }

  /** A character kept by the scan does not start a `new` of the output. */
  lemma KeptNotNew(s: string, i: nat, lw: bool)
    requires i < |s| && ScanContext(s, i, lw)
    ensures NewIn(lw, [s[i]] + RemoveNew(s, i + 1), 0) ==> NewWordAt(s, i)
  {
    var t := [s[i]] + RemoveNew(s, i + 1);
    if NewIn(lw, t, 0) {
      KeptPrefix(s, i);
      KeptWordAfter(s, i);
      if ZealandFrom(s, i + 3) {
        KeptZealandAfter(s, i);
      }
      NewLetters(s, i);
      assert Boundary(s, i);
      assert Boundary(s, i + 3);
      NewInAtStart(s, i);
    }
  }

  /** The replacement leaves no unprotected `new` behind. */
  lemma {:induction false} RemoveNewLeavesNone(s: string, i: nat, lw: bool)
    requires i <= |s| && ScanContext(s, i, lw)
    ensures NoNewIn(lw, RemoveNew(s, i))
    decreases |s| - i
  {
    if i < |s| {
      if NewWordAt(s, i) {
        RemoveNewLeavesNone(s, i + 3, lw);
      } else {
        RemoveNewLeavesNone(s, i + 1, IsWordChar(s[i]));
        KeptNotNew(s, i, lw);
        NoNewInCons(lw, s[i], RemoveNew(s, i + 1));
      }
    }
  }

  /** Collapsing copies a leading character other than whitespace. */
  lemma CollapseHead(t: string)
    requires t != [] && !IsSpace(t[0])
    ensures CollapseSpaces(t) == [t[0]] + CollapseSpaces(t[1..])
  {
    assert t == [t[0]] + t[1..];
    CollapseCons(t[0], t[1..]);
  }

  /** A `new` at the front of a collapsed text stood at the front before. */
  lemma CollapseNewPrefix(t: string)
    requires MatchAt(CollapseSpaces(t), 0, "new")
    ensures MatchAt(t, 0, "new")
    ensures CollapseSpaces(t) == t[..3] + CollapseSpaces(t[3..])
  {
    NewLetters(CollapseSpaces(t), 0);
    CollapseHead(t);
    var t1 := t[1..];
    assert CollapseSpaces(t1)[0] == 'e' && CollapseSpaces(t1)[1] == 'w';
    CollapseHead(t1);
    var t2 := t1[1..];
    assert CollapseSpaces(t2)[0] == 'w';
    CollapseHead(t2);
    assert t2[1..] == t[3..];
    ConsThree(t[0], t[1], t[2], CollapseSpaces(t[3..]));
    LettersNew(t, 0);
    assert t[..3] == [t[0], t[1], t[2]];
  }

  /** A `zealand` at the front survives collapsing. */
  lemma ZealandCollapseAtStart(v: string)
    requires MatchAt(v, 0, "zealand")
    ensures MatchAt(CollapseSpaces(v), 0, "zealand")
  {
    var z := v[..7];
    assert z == "zealand";
    assert NoSpace(z);
    assert v == z + v[7..];
    CollapseNoSpacePrefix(z, v[7..]);
    assert CollapseSpaces(v)[..7] == z;
  }

  /** The look-ahead `\s*zealand` survives collapsing. */
  lemma ZealandCollapse(w: string)
    requires ZealandFrom(w, 0)
    ensures ZealandFrom(CollapseSpaces(w), 0)
  {
    var k := SkipSpaces(w, 0);
    if k == 0 {
      ZealandCollapseAtStart(w);
      assert !IsSpace(CollapseSpaces(w)[0]);
    } else {
      assert w[..k][0] == w[0];
      TrimStartIs(w, k);
      var v := TrimStart(w);
      ZealandCollapseAtStart(v);
      CollapseSpaceRun(w);
      assert !IsSpace(CollapseSpaces(v)[0]);
      ZealandFromShift([' '], CollapseSpaces(v), 0);
    }
  }

  /** A word character after a leading `new` is still there after collapsing. */
  lemma CollapseWordAfterNew(t: string)
    requires 3 <= |t| && CollapseSpaces(t) == t[..3] + CollapseSpaces(t[3..])
    ensures WordAt(t, 3) ==> WordAt(CollapseSpaces(t), 3)
  {
    var p := t[..3];
    var w := t[3..];
    assert t == p + w;
    WordAtShift(p, w, 0);
    WordAtShift(p, CollapseSpaces(w), 0);
    CollapseKeepsWordHead(w);
  }

  /** Collapsing copies a leading word character. */
  lemma CollapseKeepsWordHead(w: string)
    ensures WordAt(w, 0) ==> WordAt(CollapseSpaces(w), 0)
  {
    if WordAt(w, 0) {
      CollapseHead(w);
    }
  }

  /** A protecting `zealand` after a leading `new` is still there after collapsing. */
  lemma CollapseZealandAfterNew(t: string)
    requires 3 <= |t| && CollapseSpaces(t) == t[..3] + CollapseSpaces(t[3..])
    ensures ZealandFrom(t, 3) ==> ZealandFrom(CollapseSpaces(t), 3)
  {
    var p := t[..3];
    var w := t[3..];
    assert t == p + w;
    ZealandFromShift(p, w, 0);
    ZealandFromShift(p, CollapseSpaces(w), 0);
    if ZealandFrom(w, 0) {
      ZealandCollapse(w);
    }
  }

  /** Collapsing does not make a `new` at the front of a text. */
  lemma CollapseNotNewAtFront(lw: bool, t: string)
    ensures NewIn(lw, CollapseSpaces(t), 0) ==> NewIn(lw, t, 0)
  {
    if NewIn(lw, CollapseSpaces(t), 0) {
      CollapseNewPrefix(t);
      CollapseWordAfterNew(t);
      CollapseZealandAfterNew(t);
    }
  }

  /** No `new` starts at a character other than `n`. */
  lemma NotNewAtOther(lw: bool, t: string, j: nat)
    requires j < |t| && t[j] != 'n'
    ensures !NewIn(lw, t, j)
  {
    if j + 3 <= |t| {
      assert t[j..j + 3][0] == t[j];
    }
  }

  /** Dropping a non-empty prefix whose last character is whitespace. */
  lemma NoNewInAfterSpace(lw: bool, p: string, v: string)
    requires p != [] && IsSpace(p[|p| - 1]) && NoNewIn(lw, p + v)
    ensures NoNewIn(false, v)
  {
    forall j: nat ensures !NewIn(false, v, j) {
      NewInShift(lw, p, v, j);
    }
  }

  /** Past a first character, the rest holds no `new` either. */
  lemma NoNewInTail(lw: bool, t: string)
    requires t != [] && NoNewIn(lw, t)
    ensures NoNewIn(IsWordChar(t[0]), t[1..])
  {
    assert t == [t[0]] + t[1..];
    forall j: nat ensures !NewIn(IsWordChar(t[0]), t[1..], j) {
      NewInShift(lw, [t[0]], t[1..], j);
    }
  }

  /** Past a leading whitespace run, the rest holds no `new` either. */
  lemma NoNewInAfterRun(lw: bool, t: string)
    requires t != [] && IsSpace(t[0]) && NoNewIn(lw, t)
    ensures |TrimStart(t)| < |t| && NoNewIn(false, TrimStart(t))
  {
    var v := TrimStart(t);
    var m := |t| - |v|;
    assert m > 0;
    assert t == t[..m] + v;
    assert IsSpace(t[..m][m - 1]);
    NoNewInAfterSpace(lw, t[..m], v);
  }

  lemma CollapseAssembleCons(lw: bool, t: string)
    requires t != [] && !IsSpace(t[0]) && !NewIn(lw, t, 0)
    requires NoNewIn(IsWordChar(t[0]), CollapseSpaces(t[1..]))
    ensures NoNewIn(lw, CollapseSpaces(t))
  {
    CollapseHead(t);
    CollapseNotNewAtFront(lw, t);
    NoNewInCons(lw, t[0], CollapseSpaces(t[1..]));
  }

  lemma CollapseAssembleRun(lw: bool, t: string)
    requires t != [] && IsSpace(t[0])
    requires NoNewIn(false, CollapseSpaces(TrimStart(t)))
    ensures NoNewIn(lw, CollapseSpaces(t))
  {
    CollapseSpaceRun(t);
    NoNewInSpaceCons(lw, CollapseSpaces(TrimStart(t)));
  }

  /** A space put in front makes no `new`. */
  lemma NoNewInSpaceCons(lw: bool, c: string)
    requires NoNewIn(false, c)
    ensures NoNewIn(lw, [' '] + c)
  {
    NotNewAtOther(lw, [' '] + c, 0);
    NoNewInCons(lw, ' ', c);
  }

  /** Collapsing whitespace makes no unprotected `new`. */
  lemma {:induction false} CollapseLeavesNone(lw: bool, t: string)
    requires NoNewIn(lw, t)
    ensures NoNewIn(lw, CollapseSpaces(t))
    decreases |t|
  {
    if t != [] {
      if !IsSpace(t[0]) {
        NoNewInTail(lw, t);
        CollapseLeavesNone(IsWordChar(t[0]), t[1..]);
        CollapseAssembleCons(lw, t);
      } else {
        NoNewInAfterRun(lw, t);
        CollapseLeavesNone(false, TrimStart(t));
        CollapseAssembleRun(lw, t);
      }
    }
  }

  /** Trimming the front makes no `new`. */
  lemma TrimStartLeavesNone(t: string)
    requires NoNewIn(false, t)
    ensures NoNewIn(false, TrimStart(t))
  {
    var v := TrimStart(t);
    var m := |t| - |v|;
    TrimStartSplit(t);
    if m > 0 {
      NoNewInAfterSpace(false, t[..m], v);
    } else {
      assert v == t;
    }
  }

  /** `TrimStart(t)` follows the whitespace it drops. */
  lemma TrimStartSplit(t: string)
    ensures var m := |t| - |TrimStart(t)|;
            t == t[..m] + TrimStart(t) && (m > 0 ==> IsSpace(t[..m][m - 1]))
  {
    var m := |t| - |TrimStart(t)|;
    assert t == t[..m] + t[m..];
  }

  /** A character other than whitespace of `r + w` lies in `r` when `w` is all whitespace. */
  lemma NonSpaceBeforeTrailing(r: string, w: string, p: nat)
    requires AllSpace(w) && p < |r| + |w| && !IsSpace((r + w)[p])
    ensures p < |r|
  {
  }

  lemma ZealandLetters(t: string, q: nat)
    requires MatchAt(t, q, "zealand")
    ensures !IsSpace(t[q]) && !IsSpace(t[q + 6])
  {
    assert t[q] == t[q..q + 7][0] && t[q + 6] == t[q..q + 7][6];
  }

  /** Trailing whitespace adds no protecting `zealand`. */
  lemma ZealandDropTrailing(r: string, w: string, k: nat)
    requires AllSpace(w) && k <= |r|
    ensures ZealandFrom(r + w, k) ==> ZealandFrom(r, k)
  {
    var t := r + w;
    var q := SkipSpaces(t, k);
    if MatchAt(t, q, "zealand") {
      ZealandLetters(t, q);
      NonSpaceBeforeTrailing(r, w, q + 6);
      assert t[q..q + 7] == r[q..q + 7];
      forall j | k <= j < q ensures IsSpace(r[j]) {
        assert r[j] == t[j];
      }
      assert r[q] == t[q];
      SkipSpacesIs(r, k, q);
    }
  }

  /** Trailing whitespace keeps a `new`. */
  lemma NewInDropTrailing(lw: bool, r: string, w: string, j: nat)
    requires AllSpace(w)
    ensures NewIn(lw, r, j) ==> NewIn(lw, r + w, j)
  {
    var t := r + w;
    if NewIn(lw, r, j) {
      assert t[j..j + 3] == r[j..j + 3];
      if j > 0 {
        assert t[j - 1] == r[j - 1];
      }
      if j + 3 < |t| {
        assert t[j + 3] == if j + 3 < |r| then r[j + 3] else w[0];
      }
      ZealandDropTrailing(r, w, j + 3);
    }
  }

  /** Trimming the end makes no `new`. */
  lemma TrimEndLeavesNone(lw: bool, v: string)
    requires NoNewIn(lw, v)
    ensures NoNewIn(lw, TrimEnd(v))
  {
    var r := TrimEnd(v);
    var w := v[|r|..];
    assert v == r + w;
    forall j: nat ensures !NewIn(lw, r, j) {
      NewInDropTrailing(lw, r, w, j);
    }
  }

  /** `normalizeNat` leaves no unprotected whole-word `new`. */
  lemma NormalizeNatNoNewIn(x: string)
    ensures NoNewIn(false, NormalizeNat(x))
  {
    var n := RemoveNew(Lower(x), 0);
    RemoveNewLeavesNone(Lower(x), 0, false);
    CollapseLeavesNone(false, n);
    TrimStartLeavesNone(CollapseSpaces(n));
    TrimEndLeavesNone(false, TrimStart(CollapseSpaces(n)));
  }

  /** Nothing in the result of `normalizeNat` is a `new` its regular
      expression would remove. */
  lemma NormalizeNatLeavesNoNew(x: string)
    ensures forall j: nat :: !NewWordAt(NormalizeNat(x), j)
  {
    NormalizeNatNoNewIn(x);
    forall j: nat ensures !NewWordAt(NormalizeNat(x), j) {
      NewInAtStart(NormalizeNat(x), j);
    }
  }

  /** `normalizeNat` is idempotent. */
  lemma NormalizeNatIdempotent(x: string)
    ensures NormalizeNat(NormalizeNat(x)) == NormalizeNat(x)
  {
    NormalizeNatLeavesNoNew(x);
    NormalizeNatOfNormal(NormalizeNat(x));
  }

  // --------------------------------- normalizeNat keeps every "new zealand"

  lemma NewZealandParts(s: string, i: nat)
    requires MatchAt(s, i, "new zealand")
    ensures MatchAt(s, i, "new") && s[i + 1] == 'e' && s[i + 2] == 'w' && s[i + 3] == ' '
    ensures MatchAt(s, i + 4, "zealand")
  {
    var t := s[i..i + 11];
    assert s[i..i + 3] == t[..3] && s[i + 4..i + 11] == t[4..];
    assert s[i + 1] == t[1] && s[i + 2] == t[2] && s[i + 3] == t[3];
  }

  /** No unprotected `new` inside a "new zealand". */
  lemma NoNewInNewZealand(s: string, i: nat, j: nat)
    requires MatchAt(s, i, "new zealand") && i <= j < i + 11
    ensures !NewWordAt(s, j)
  {
    NewZealandParts(s, i);
    if j == i {
      SkipSpacesIs(s, i + 3, i + 4);
      assert ZealandFrom(s, i + 3);
    } else if j < i + 4 {
      NotNewAtOther(false, s, j);
      NewInAtStart(s, j);
    } else {
      NoNewInZealand(s, i + 4, j);
    }
  }

  /** A `new` read before a "new zealand" ends before it. */
  lemma NewBeforeNewZealand(s: string, k: nat, i: nat)
    requires k < i && MatchAt(s, i, "new zealand")
    ensures NewWordAt(s, k) ==> k + 3 <= i
  {
    NewZealandParts(s, i);
    if MatchAt(s, k, "new") {
      NewLetters(s, k);
    }
  }

  /** The replacement keeps a "new zealand" at or after where it starts. */
  lemma {:induction false} RemoveNewReaches(s: string, k: nat, i: nat)
    requires k <= i && MatchAt(s, i, "new zealand")
    ensures Contains(RemoveNew(s, k), "new zealand")
    decreases i - k
  {
    if k == i {
      forall j | i <= j < i + 11 ensures !NewWordAt(s, j) {
        NoNewInNewZealand(s, i, j);
      }
      RemoveNewKeep(s, i, i + 11);
      ContainsIn([], "new zealand", RemoveNew(s, i + 11));
      assert [] + s[i..i + 11] == s[i..i + 11];
    } else {
      NewBeforeNewZealand(s, k, i);
      if NewWordAt(s, k) {
        RemoveNewReaches(s, k + 3, i);
      } else {
        RemoveNewReaches(s, k + 1, i);
        ContainsCons(s[k], RemoveNew(s, k + 1), "new zealand");
      }
    }
  }

  /** A single space before a character other than whitespace is kept. */
  lemma CollapseSpaceThenWord(y: string)
    requires y != [] && !IsSpace(y[0])
    ensures CollapseSpaces([' '] + y) == [' '] + CollapseSpaces(y)
  {
    TrimStartIs([' '] + y, 1);
    assert ([' '] + y)[1..] == y;
    CollapseSpaceRun([' '] + y);
  }

  /** Two words joined by one space are left as they are by collapsing. */
  lemma CollapseTwoWords(u: string, z: string, b: string)
    requires NoSpace(u) && NoSpace(z) && z != []
    ensures CollapseSpaces(u + ([' '] + (z + b))) == u + ([' '] + (z + CollapseSpaces(b)))
  {
    CollapseNoSpacePrefix(u, [' '] + (z + b));
    CollapseSpaceThenWord(z + b);
    CollapseNoSpacePrefix(z, b);
  }

  lemma NewZealandSplit(b: string)
    ensures "new zealand" + b == "new" + ([' '] + ("zealand" + b))
    ensures NoSpace("new") && NoSpace("zealand")
  {
  }

  /** Collapsing leaves "new zealand" and what follows it as it was. */
  lemma CollapseNewZealand(b: string)
    ensures CollapseSpaces("new zealand" + b) == "new zealand" + CollapseSpaces(b)
  {
    NewZealandSplit(b);
    CollapseTwoWords("new", "zealand", b);
    NewZealandSplit(CollapseSpaces(b));
  }

  /** Collapsing keeps a "new zealand". */
  lemma CollapseKeepsNewZealand(n: string, i: nat)
    requires MatchAt(n, i, "new zealand")
    ensures Contains(CollapseSpaces(n), "new zealand")
  {
    NewZealandParts(n, i);
    var a := n[..i];
    var b := n[i + 11..];
    assert n[i..] == "new zealand" + b;
    assert n == a + n[i..];
    CollapseAppend(a, n[i..]);
    CollapseNewZealand(b);
    AppendAssoc(CollapseSpaces(a), "new zealand", CollapseSpaces(b));
    ContainsIn(CollapseSpaces(a), "new zealand", CollapseSpaces(b));
  }

  lemma MatchEnds(c: string, t: string, i: nat)
    requires t != [] && MatchAt(c, i, t)
    ensures c[i] == t[0] && c[i + |t| - 1] == t[|t| - 1]
  {
    assert c[i..i + |t|][0] == c[i] && c[i..i + |t|][|t| - 1] == c[i + |t| - 1];
  }

  /** Trimming the front keeps an occurrence that starts with a character
      other than whitespace, shifted by what was trimmed. */
  lemma TrimStartKeepsMatch(c: string, t: string, i: nat)
    requires t != [] && !IsSpace(t[0]) && MatchAt(c, i, t)
    ensures |c| - |TrimStart(c)| <= i && MatchAt(TrimStart(c), i - (|c| - |TrimStart(c)|), t)
  {
    MatchEnds(c, t, i);
    var v := TrimStart(c);
    var m := |c| - |v|;
    NonSpaceAfterLeading(c, m, i);
    SuffixSlice(c, m, i - m, i - m + |t|);
  }

  /** A slice of a suffix is a slice of the whole. */
  lemma SuffixSlice(c: string, m: nat, x: nat, y: nat)
    requires m <= |c| && x <= y <= |c| - m
    ensures c[m..][x..y] == c[m + x..m + y]
  {
  }

  /** Trimming the end keeps an occurrence that ends with a character other
      than whitespace. */
  lemma TrimEndKeepsMatch(v: string, t: string, k: nat)
    requires t != [] && !IsSpace(t[|t| - 1]) && MatchAt(v, k, t)
    ensures MatchAt(TrimEnd(v), k, t)
  {
    MatchEnds(v, t, k);
    var r := TrimEnd(v);
    assert v == r + v[|r|..];
    NonSpaceBeforeTrailing(r, v[|r|..], k + |t| - 1);
    assert r[k..k + |t|] == v[k..k + |t|];
  }

  /** Trimming keeps an occurrence of a text that starts and ends with
      characters other than whitespace. */
  lemma TrimKeepsMatch(c: string, t: string, i: nat)
    requires t != [] && !IsSpace(t[0]) && !IsSpace(t[|t| - 1]) && MatchAt(c, i, t)
    ensures Contains(Trim(c), t)
  {
    TrimStartKeepsMatch(c, t, i);
    var v := TrimStart(c);
    var k := i - (|c| - |v|);
    TrimEndKeepsMatch(v, t, k);
    TrimOfParts(c);
    MatchContains(TrimEnd(v), t, k);
  }

  lemma TrimOfParts(c: string)
    ensures Trim(c) == TrimEnd(TrimStart(c))
  {
  }

  lemma MatchContains(s: string, t: string, k: nat)
    requires MatchAt(s, k, t)
    ensures Contains(s, t)
  {
  }

  /** A character other than whitespace lies past a leading whitespace run. */
  lemma NonSpaceAfterLeading(c: string, m: nat, i: nat)
    requires m <= |c| && AllSpace(c[..m]) && i < |c| && !IsSpace(c[i])
    ensures m <= i
  {
  }

  /** `normalizeNat` keeps every "new zealand" of the lower-cased input. */
  lemma NormalizeNatKeepsNewZealandWithin(x: string)
    requires Contains(Lower(x), "new zealand")
    ensures Contains(NormalizeNat(x), "new zealand")
  {
    var s := Lower(x);
    var i :| 0 <= i <= |s| - 11 && MatchAt(s, i, "new zealand");
    RemoveNewReaches(s, 0, i);
    var n := RemoveNew(s, 0);
    var k :| 0 <= k <= |n| - 11 && MatchAt(n, k, "new zealand");
    CollapseKeepsNewZealand(n, k);
    var c := CollapseSpaces(n);
    var h :| 0 <= h <= |c| - 11 && MatchAt(c, h, "new zealand");
    TrimKeepsMatch(c, "new zealand", h);
  }
}
