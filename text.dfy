/**
 * The JavaScript string built-ins the roster parser leans on, stated over
 * `seq<char>`: the `\s` character class, ASCII case mapping, `trim`, the
 * whitespace-collapsing replacements, `\b` word boundaries, index search and
 * decimal digits.
 */
module Text {

  datatype Option<+T> = None | Some(value: T)

  /** JavaScript's `\s`: the WhiteSpace and LineTerminator code points (also
      exactly the set `String.prototype.trim` removes). */
  predicate IsSpace(c: char) {
    c == ' ' || c == '\t' || c == '\n' || c == '\U{000B}' || c == '\U{000C}' || c == '\r'
    || c == '\U{00A0}' || c == '\U{1680}' || ('\U{2000}' <= c <= '\U{200A}')
    || c == '\U{2028}' || c == '\U{2029}' || c == '\U{202F}' || c == '\U{205F}'
    || c == '\U{3000}' || c == '\U{FEFF}'
  }

  predicate IsDigit(c: char) { '0' <= c <= '9' }

  predicate IsUpperAscii(c: char) { 'A' <= c <= 'Z' }

  predicate IsLowerAscii(c: char) { 'a' <= c <= 'z' }

  predicate NoUpperAscii(s: string) {
    forall i :: 0 <= i < |s| ==> !IsUpperAscii(s[i])
  }

  /** `\w` without the `u` flag: ASCII letters, digits and underscore. */
  predicate IsWordChar(c: char) { IsUpperAscii(c) || IsLowerAscii(c) || IsDigit(c) || c == '_' }

  function UpperChar(c: char): char {
    if IsLowerAscii(c) then (c as int - 32) as char else c
  }

  function LowerChar(c: char): char {
    if IsUpperAscii(c) then (c as int + 32) as char else c
  }

  function Upper(s: string): (r: string)
    ensures |r| == |s|
    ensures forall i :: 0 <= i < |r| ==> !IsLowerAscii(r[i])
  {
    seq(|s|, i requires 0 <= i < |s| => UpperChar(s[i]))
  }

  function Lower(s: string): (r: string)
    ensures |r| == |s|
    ensures forall i :: 0 <= i < |r| ==> !IsUpperAscii(r[i])
  {
    seq(|s|, i requires 0 <= i < |s| => LowerChar(s[i]))
  }

  lemma UpperOfUpper(s: string)
    requires forall i :: 0 <= i < |s| ==> !IsLowerAscii(s[i])
    ensures Upper(s) == s
  {
  }

  lemma LowerOfLower(s: string)
    requires forall i :: 0 <= i < |s| ==> !IsUpperAscii(s[i])
    ensures Lower(s) == s
  {
  }

  /** Case-insensitive comparison of the `i` regex flag (no `u` flag): only
      ASCII letters fold. */
  predicate EqIgnoreCase(c: char, d: char) { UpperChar(c) == UpperChar(d) }

  /** `pat` occurs at position `i` of `s`, ignoring ASCII case. */
  predicate MatchCI(s: string, i: nat, pat: string) {
    i + |pat| <= |s| && forall k :: 0 <= k < |pat| ==> EqIgnoreCase(s[i + k], pat[k])
  }

  /** `pat` occurs at position `i` of `s`, exactly. */
  predicate MatchAt(s: string, i: nat, pat: string) {
    i + |pat| <= |s| && s[i..i + |pat|] == pat
  }

  /** JavaScript `includes`. */
  predicate Contains(s: string, t: string) {
    exists i :: 0 <= i <= |s| - |t| && MatchAt(s, i, t)
  }

  /** `t` occurs in a text made of something, `t`, and something more. */
  lemma ContainsIn(a: string, t: string, b: string)
    ensures Contains(a + t + b, t)
  {
    var s := a + t + b;
    assert s[|a|..|a| + |t|] == t;
    assert MatchAt(s, |a|, t);
  }

  /** An occurrence stays one when a character is put in front. */
  lemma ContainsCons(c: char, u: string, t: string)
    requires Contains(u, t)
    ensures Contains([c] + u, t)
  {
    var i :| 0 <= i <= |u| - |t| && MatchAt(u, i, t);
    assert ([c] + u)[i + 1..i + 1 + |t|] == u[i..i + |t|];
    assert MatchAt([c] + u, i + 1, t);
  }

  predicate NoSpace(s: string) { forall i :: 0 <= i < |s| ==> !IsSpace(s[i]) }

  predicate AllSpace(s: string) { forall i :: 0 <= i < |s| ==> IsSpace(s[i]) }

  /** No leading and no trailing whitespace. */
  predicate Trimmed(s: string) { s == [] || (!IsSpace(s[0]) && !IsSpace(s[|s| - 1])) }

  /** No two whitespace characters side by side. */
  ghost predicate NoDoubleSpace(s: string) {
    forall i, j :: 0 <= i < j < |s| && j == i + 1 && IsSpace(s[i]) ==> !IsSpace(s[j])
  }

  /** Every whitespace character is a plain space, and none is followed by another. */
  ghost predicate SingleSpaced(s: string) {
    NoDoubleSpace(s) && forall i :: 0 <= i < |s| && IsSpace(s[i]) ==> s[i] == ' '
  }

  /** `\b` at position `p`: exactly one of the characters around it is a word character. */
  predicate Boundary(s: string, p: nat) {
    (0 < p <= |s| && IsWordChar(s[p - 1])) != (p < |s| && IsWordChar(s[p]))
  }

  /** The first index at or after `i` holding `c`, or `|s|` when there is none. */
  function FindFrom(s: string, c: char, i: nat): (k: nat)
    ensures i <= k || k == |s|
    ensures k <= |s|
    ensures k < |s| ==> s[k] == c
    ensures forall j :: i <= j < k ==> s[j] != c
    decreases |s| - i
  {
    if i >= |s| then |s| else if s[i] == c then i else FindFrom(s, c, i + 1)
  }

  lemma {:induction false} FindFromIs(s: string, c: char, i: nat, k: nat)
    requires i <= k <= |s|
    requires k < |s| ==> s[k] == c
    requires forall j :: i <= j < k ==> s[j] != c
    ensures FindFrom(s, c, i) == k
    decreases k - i
  {
    if i < k {
      FindFromIs(s, c, i + 1, k);
    }
  }

  /** An exact occurrence is one ignoring case. */
  lemma MatchCIOf(s: string, i: nat, pat: string)
    requires i + |pat| <= |s| && s[i..i + |pat|] == pat
    ensures MatchCI(s, i, pat)
  {
    forall k | 0 <= k < |pat| ensures EqIgnoreCase(s[i + k], pat[k]) {
      assert s[i + k] == s[i..i + |pat|][k];
    }
  }

  /** A slice equal to a text without `c` holds no `c`. */
  lemma SliceWithout(s: string, a: nat, b: nat, t: string, c: char)
    requires a <= b <= |s| && s[a..b] == t && c !in t
    ensures forall j :: a <= j < b ==> s[j] != c
  {
    forall j | a <= j < b ensures s[j] != c {
      assert s[j] == t[j - a];
    }
  }

  /** The first index at or after `i` where `pat` occurs ignoring case, or `|s|`. */
  function FindCI(s: string, pat: string, i: nat): (k: nat)
    ensures k <= |s|
    ensures k < |s| ==> i <= k && MatchCI(s, k, pat)
    ensures forall j :: i <= j < k ==> !MatchCI(s, j, pat)
    decreases |s| - i
  {
    if i >= |s| then |s| else if MatchCI(s, i, pat) then i else FindCI(s, pat, i + 1)
  }

  /** The end of the whitespace run starting at `i`. */
  function SkipSpaces(s: string, i: nat): (k: nat)
    requires i <= |s|
    ensures i <= k <= |s|
    ensures forall j :: i <= j < k ==> IsSpace(s[j])
    ensures k < |s| ==> !IsSpace(s[k])
    decreases |s| - i
  {
    if i < |s| && IsSpace(s[i]) then SkipSpaces(s, i + 1) else i
  }

  lemma {:induction false} SkipSpacesIs(t: string, i: nat, k: nat)
    requires i <= k <= |t|
    requires forall j :: i <= j < k ==> IsSpace(t[j])
    requires k < |t| ==> !IsSpace(t[k])
    ensures SkipSpaces(t, i) == k
    decreases k - i
  {
    if i < k {
      SkipSpacesIs(t, i + 1, k);
    }
  }

  /** A whitespace run read after a prefix ends where it ends without it. */
  lemma SkipSpacesShift(p: string, u: string, k: nat)
    requires k <= |u|
    ensures SkipSpaces(p + u, |p| + k) == |p| + SkipSpaces(u, k)
  {
    var m := SkipSpaces(u, k);
    var t := p + u;
    forall j | |p| + k <= j < |p| + m ensures IsSpace(t[j]) {
      assert t[j] == u[j - |p|];
    }
    if m < |u| {
      assert t[|p| + m] == u[m];
    }
    SkipSpacesIs(t, |p| + k, |p| + m);
  }

  /** A pattern occurs after a prefix exactly where it occurs without it. */
  lemma MatchAtShift(p: string, u: string, k: nat, pat: string)
    requires k <= |u|
    ensures MatchAt(p + u, |p| + k, pat) == MatchAt(u, k, pat)
  {
    if k + |pat| <= |u| {
      assert (p + u)[|p| + k..|p| + k + |pat|] == u[k..k + |pat|];
    }
  }

  /** The end of the digit run starting at `i`. */
  function DigitEnd(s: string, i: nat): (k: nat)
    requires i <= |s|
    ensures i <= k <= |s|
    ensures forall j :: i <= j < k ==> IsDigit(s[j])
    ensures k < |s| ==> !IsDigit(s[k])
    decreases |s| - i
  {
    if i < |s| && IsDigit(s[i]) then DigitEnd(s, i + 1) else i
  }

  lemma {:induction false} DigitEndIs(t: string, i: nat, k: nat)
    requires i <= k <= |t|
    requires forall j :: i <= j < k ==> IsDigit(t[j])
    requires k < |t| ==> !IsDigit(t[k])
    ensures DigitEnd(t, i) == k
    decreases k - i
  {
    if i < k {
      DigitEndIs(t, i + 1, k);
    }
  }

  /** The end of at most `max` digits starting at `i` (a greedy `\d{0,max}`). */
  function DigitEndMax(s: string, i: nat, max: nat): (k: nat)
    requires i <= |s|
    ensures i <= k <= |s| && k - i <= max
    ensures forall j :: i <= j < k ==> IsDigit(s[j])
    ensures k - i < max && k < |s| ==> !IsDigit(s[k])
    decreases max
  {
    if max > 0 && i < |s| && IsDigit(s[i]) then DigitEndMax(s, i + 1, max - 1) else i
  }

  lemma {:induction false} DigitEndMaxIs(s: string, i: nat, max: nat, k: nat)
    requires i <= k <= |s| && k - i <= max
    requires forall j :: i <= j < k ==> IsDigit(s[j])
    requires k - i < max ==> k < |s| && !IsDigit(s[k])
    ensures DigitEndMax(s, i, max) == k
    decreases max
  {
    if i < k {
      DigitEndMaxIs(s, i + 1, max - 1, k);
    }
  }

  /** `String.prototype.trimStart`. */
  function TrimStart(s: string): (r: string)
    ensures |r| <= |s| && r == s[|s| - |r|..]
    ensures AllSpace(s[..|s| - |r|])
    ensures r == [] || !IsSpace(r[0])
  {
    if s != [] && IsSpace(s[0]) then
      var r := TrimStart(s[1..]);
      SpacePrefixCons(s, r);
      r
    else s
  }

  lemma SpacePrefixCons(s: string, r: string)
    requires s != [] && IsSpace(s[0])
    requires |r| <= |s| - 1 && r == s[1..][|s| - 1 - |r|..] && AllSpace(s[1..][..|s| - 1 - |r|])
    ensures r == s[|s| - |r|..] && AllSpace(s[..|s| - |r|])
  {
    var t := s[1..];
    assert s[..|s| - |r|] == [s[0]] + t[..|t| - |r|];
  }

  /** `trimStart` drops exactly a leading whitespace run. */
  lemma {:induction false} TrimStartIs(s: string, m: nat)
    requires m <= |s| && AllSpace(s[..m]) && (m < |s| ==> !IsSpace(s[m]))
    ensures TrimStart(s) == s[m..]
    decreases m
  {
    if m > 0 {
      assert IsSpace(s[..m][0]);
      var t := s[1..];
      assert t[..m - 1] == s[..m][1..];
      if m < |s| {
        assert t[m - 1] == s[m];
      }
      TrimStartIs(t, m - 1);
      assert t[m - 1..] == s[m..];
    }
  }

  /** `String.prototype.trimEnd`. */
  function TrimEnd(s: string): (r: string)
    ensures |r| <= |s| && r == s[..|r|]
    ensures AllSpace(s[|r|..])
    ensures r == [] || !IsSpace(r[|r| - 1])
  {
    if s != [] && IsSpace(s[|s| - 1]) then
      var t := s[..|s| - 1];
      var r := TrimEnd(t);
      assert s[|r|..] == t[|r|..] + [s[|s| - 1]];
      assert t[..|r|] == s[..|r|];
      r
    else s
  }

  /** `String.prototype.trim`: a contiguous piece of `s` with no whitespace at either end. */
  function Trim(s: string): (r: string)
    ensures Trimmed(r)
    ensures |r| <= |s| - TrimOffset(s) && r == s[TrimOffset(s)..TrimOffset(s) + |r|]
  {
    var t := TrimStart(s);
    var r := TrimEnd(t);
    TrimPieces(s, t, r, TrimOffset(s));
    r
  }

  lemma TrimPieces(s: string, t: string, r: string, a: nat)
    requires |t| <= |s| && a == |s| - |t| && t == s[a..] && (t == [] || !IsSpace(t[0]))
    requires |r| <= |t| && r == t[..|r|] && (r == [] || !IsSpace(r[|r| - 1]))
    ensures Trimmed(r) && |r| <= |s| - a && r == s[a..a + |r|]
  {
    if r != [] {
      assert r[0] == t[0];
    }
    assert s[a..a + |r|] == t[..|r|];
  }

  /** How many characters `trim` drops from the front. */
  function TrimOffset(s: string): nat {
    |s| - |TrimStart(s)|
  }

  lemma SliceKeepsNoDouble(s: string, a: nat, b: nat)
    requires a <= b <= |s| && NoDoubleSpace(s)
    ensures NoDoubleSpace(s[a..b])
  {
    var t := s[a..b];
    forall i, j | 0 <= i < j < |t| && j == i + 1 && IsSpace(t[i]) ensures !IsSpace(t[j]) {
      assert t[i] == s[a + i] && t[j] == s[a + j];
    }
  }

  lemma SliceKeepsSpacing(s: string, a: nat, b: nat)
    requires a <= b <= |s| && SingleSpaced(s)
    ensures SingleSpaced(s[a..b])
  {
    SliceKeepsNoDouble(s, a, b);
    var t := s[a..b];
    forall i | 0 <= i < |t| && IsSpace(t[i]) ensures t[i] == ' ' {
      assert t[i] == s[a + i];
    }
  }

  lemma TrimKeepsSpacing(s: string)
    requires SingleSpaced(s)
    ensures SingleSpaced(Trim(s))
  {
    var r := Trim(s);
    var a := TrimOffset(s);
    SliceKeepsSpacing(s, a, a + |r|);
  }

  lemma SliceKeepsNoUpper(s: string, a: nat, b: nat)
    requires a <= b <= |s| && NoUpperAscii(s)
    ensures NoUpperAscii(s[a..b])
  {
    var t := s[a..b];
    forall i | 0 <= i < |t| ensures !IsUpperAscii(t[i]) {
      assert t[i] == s[a + i];
    }
  }

  lemma TrimKeepsNoUpper(s: string)
    requires NoUpperAscii(s)
    ensures NoUpperAscii(Trim(s))
  {
    var r := Trim(s);
    var a := TrimOffset(s);
    SliceKeepsNoUpper(s, a, a + |r|);
  }

  lemma TrimKeepsNoDouble(s: string)
    requires NoDoubleSpace(s)
    ensures NoDoubleSpace(Trim(s))
  {
    var r := Trim(s);
    var a := TrimOffset(s);
    SliceKeepsNoDouble(s, a, a + |r|);
  }

  /** A slice none of whose positions holds `c` does not contain `c`. */
  lemma SliceAvoids(s: string, a: nat, b: nat, c: char)
    requires a <= b <= |s|
    requires forall k :: a <= k < b ==> s[k] != c
    ensures c !in s[a..b]
  {
    forall k | 0 <= k < b - a ensures s[a..b][k] != c {
      assert s[a..b][k] == s[a + k];
    }
  }

  lemma TrimAvoids(s: string, c: char)
    requires c !in s
    ensures c !in Trim(s)
  {
  }

  lemma TrimOfNotAllSpace(s: string)
    requires !AllSpace(s)
    ensures Trim(s) != []
  {
    var k :| 0 <= k < |s| && !IsSpace(s[k]);
    var t := TrimStart(s);
    assert k >= |s| - |t|;
    assert t[k - (|s| - |t|)] == s[k];
  }

  lemma TrimOfTrimmed(s: string)
    requires Trimmed(s)
    ensures Trim(s) == s
  {
  }

  /** A single space before a word with no whitespace is single-spaced. */
  lemma SpaceThenWordSpaced(w: string)
    requires NoSpace(w)
    ensures SingleSpaced([' '] + w)
  {
    var z := [' '] + w;
    assert forall i :: 0 < i < |z| ==> z[i] == w[i - 1];
    assert forall i :: 0 < i < |z| ==> !IsSpace(z[i]);
  }

  /** `trim` drops a single leading space before a word with no whitespace. */
  lemma SpaceThenWordTrim(w: string)
    requires w != [] && NoSpace(w)
    ensures Trim([' '] + w) == w
  {
    var z := [' '] + w;
    assert z[1..] == w;
    assert TrimStart(w) == w;
    assert TrimStart(z) == w;
    assert TrimEnd(w) == w;
  }

  /** `s.replace(/\s+/g, " ")`: every maximal whitespace run becomes one space. */
  function CollapseSpaces(s: string): (r: string)
    ensures SingleSpaced(r)
    ensures s != [] && !IsSpace(s[0]) ==> r != [] && r[0] == s[0]
    ensures s != [] && IsSpace(s[0]) ==> r != [] && r[0] == ' '
    decreases |s|
  {
    if s == [] then []
    else if IsSpace(s[0]) then
      var t := TrimStart(s);
      var rest := CollapseSpaces(t);
      SingleSpacedCons(' ', rest);
      [' '] + rest
    else
      var rest := CollapseSpaces(s[1..]);
      SingleSpacedCons(s[0], rest);
      [s[0]] + rest
  }

  /** Collapsing brings in no character but the plain space. */
  lemma {:induction false} CollapseChars(s: string)
    ensures forall i :: 0 <= i < |CollapseSpaces(s)| ==> CollapseSpaces(s)[i] == ' ' || CollapseSpaces(s)[i] in s
    decreases |s|
  {
    if s != [] {
      var t := if IsSpace(s[0]) then TrimStart(s) else s[1..];
      CollapseChars(t);
      var r := CollapseSpaces(s);
      forall i | 0 <= i < |r| ensures r[i] == ' ' || r[i] in s {
        if i > 0 && !IsSpace(s[0]) {
          assert r[i] == CollapseSpaces(t)[i - 1];
          if r[i] != ' ' {
            var j :| 0 <= j < |t| && t[j] == r[i];
            assert s[j + 1] == t[j];
          }
        } else if i > 0 {
          assert r[i] == CollapseSpaces(t)[i - 1];
          if r[i] != ' ' {
            var j :| 0 <= j < |t| && t[j] == r[i];
            assert s[|s| - |t| + j] == t[j];
          }
        }
      }
    }
  }

  /** A character other than the space that is not in the input is not in the output. */
  lemma CollapseAvoids(s: string, c: char)
    requires c != ' ' && c !in s
    ensures c !in CollapseSpaces(s)
  {
    CollapseChars(s);
  }

  /** One step of the collapse: a character other than whitespace is copied. */
  lemma CollapseCons(c: char, y: string)
    requires !IsSpace(c)
    ensures CollapseSpaces([c] + y) == [c] + CollapseSpaces(y)
  {
    assert ([c] + y)[1..] == y;
  }

  /** One step of the collapse: a whitespace run becomes one space. */
  lemma CollapseSpaceRun(s: string)
    requires s != [] && IsSpace(s[0])
    ensures CollapseSpaces(s) == [' '] + CollapseSpaces(TrimStart(s))
  {
  }

  lemma AppendAssoc(a: string, b: string, c: string)
    ensures a + (b + c) == (a + b) + c
  {
  }

  /** Characters other than whitespace in front are copied as they are. */
  lemma {:induction false} CollapseNoSpacePrefix(p: string, y: string)
    requires NoSpace(p)
    ensures CollapseSpaces(p + y) == p + CollapseSpaces(y)
    decreases |p|
  {
    if p == [] {
      assert p + y == y;
      assert p + CollapseSpaces(y) == CollapseSpaces(y);
    } else {
      var q := p[1..];
      assert p == [p[0]] + q;
      CollapseNoSpacePrefix(q, y);
      CollapseConsOf(p[0], q, y, q + CollapseSpaces(y));
      AppendAssoc([p[0]], q, CollapseSpaces(y));
    }
  }

  /** A step of the collapse in front of a concatenation, with its result named. */
  lemma CollapseConsOf(c: char, q: string, y: string, z: string)
    requires !IsSpace(c) && CollapseSpaces(q + y) == z
    ensures CollapseSpaces([c] + q + y) == [c] + z
  {
    AppendAssoc([c], q, y);
    CollapseCons(c, q + y);
  }

  /** A leading whitespace run of `a` is one run of `a + x`, with the result named. */
  lemma CollapseRunOf(a: string, x: string, z: string)
    requires a != [] && IsSpace(a[0]) && (x == [] || !IsSpace(x[0]))
    requires CollapseSpaces(TrimStart(a) + x) == z
    ensures CollapseSpaces(a + x) == [' '] + z
  {
    TrimStartOfAppend(a, x);
    CollapseSpaceRun(a + x);
  }

  /** Collapsing splits at a point where no whitespace run is cut in two. */
  lemma {:induction false} CollapseAppend(a: string, x: string)
    requires x == [] || !IsSpace(x[0])
    ensures CollapseSpaces(a + x) == CollapseSpaces(a) + CollapseSpaces(x)
    decreases |a|
  {
    if a == [] {
      assert a + x == x;
      assert CollapseSpaces(a) + CollapseSpaces(x) == CollapseSpaces(x);
    } else if !IsSpace(a[0]) {
      CollapseAppend(a[1..], x);
      CollapseAppendCons(a, x);
    } else {
      assert |TrimStart(a)| < |a| by { TrimStartOfAppend(a, x); }
      CollapseAppend(TrimStart(a), x);
      CollapseAppendRun(a, x);
    }
  }

  /** The step of the lemma above past a character other than whitespace. */
  lemma CollapseAppendCons(a: string, x: string)
    requires a != [] && !IsSpace(a[0])
    requires CollapseSpaces(a[1..] + x) == CollapseSpaces(a[1..]) + CollapseSpaces(x)
    ensures CollapseSpaces(a + x) == CollapseSpaces(a) + CollapseSpaces(x)
  {
    var q := a[1..];
    assert a == [a[0]] + q;
    CollapseConsOf(a[0], q, x, CollapseSpaces(q) + CollapseSpaces(x));
    CollapseCons(a[0], q);
    AppendAssoc([a[0]], CollapseSpaces(q), CollapseSpaces(x));
  }

  /** The step of the lemma above past a whitespace run. */
  lemma CollapseAppendRun(a: string, x: string)
    requires a != [] && IsSpace(a[0]) && (x == [] || !IsSpace(x[0]))
    requires CollapseSpaces(TrimStart(a) + x) == CollapseSpaces(TrimStart(a)) + CollapseSpaces(x)
    ensures CollapseSpaces(a + x) == CollapseSpaces(a) + CollapseSpaces(x)
  {
    var t := TrimStart(a);
    CollapseRunOf(a, x, CollapseSpaces(t) + CollapseSpaces(x));
    CollapseSpaceRun(a);
    AppendAssoc([' '], CollapseSpaces(t), CollapseSpaces(x));
  }

  /** Where the text after a whitespace-led `a` does not start with
      whitespace, trimming the front of `a + x` trims the front of `a`. */
  lemma TrimStartOfAppend(a: string, x: string)
    requires a != [] && IsSpace(a[0]) && (x == [] || !IsSpace(x[0]))
    ensures |TrimStart(a)| < |a| && TrimStart(a + x) == TrimStart(a) + x
  {
    var t := TrimStart(a);
    var m := |a| - |t|;
    var s := a + x;
    SlicesOfAppend(a, x, m);
    if m < |a| {
      assert s[m] == t[0];
    } else if x != [] {
      assert s[m] == x[0];
    }
    TrimStartIs(s, m);
  }

  lemma SlicesOfAppend(a: string, x: string, m: nat)
    requires m <= |a|
    ensures (a + x)[..m] == a[..m] && (a + x)[m..] == a[m..] + x
  {
  }

  lemma SingleSpacedCons(c: char, rest: string)
    requires SingleSpaced(rest)
    requires IsSpace(c) ==> c == ' ' && (rest == [] || !IsSpace(rest[0]))
    ensures SingleSpaced([c] + rest)
  {
    var s := [c] + rest;
    forall i | 0 <= i < |s| - 1 && IsSpace(s[i]) ensures !IsSpace(s[i + 1]) {
      if i > 0 {
        assert s[i] == rest[i - 1] && s[i + 1] == rest[i];
      }
    }
  }

  /** A single-spaced text that does not end in whitespace, followed by
      another single-spaced text, is single-spaced. */
  lemma {:induction false} SingleSpacedAppend(a: string, r: string)
    requires SingleSpaced(a) && SingleSpaced(r)
    requires a == [] || !IsSpace(a[|a| - 1])
    ensures SingleSpaced(a + r)
    decreases |a|
  {
    if a != [] {
      SliceKeepsSpacing(a, 1, |a|);
      SingleSpacedAppend(a[1..], r);
      assert a + r == [a[0]] + (a[1..] + r);
      if IsSpace(a[0]) {
        assert |a| > 1 && !IsSpace(a[1]);
        assert (a[1..] + r)[0] == a[1];
      }
      SingleSpacedCons(a[0], a[1..] + r);
    }
  }

  /** Two trimmed, single-spaced, non-empty texts joined by ` x `, for a
      character `x` that is not whitespace, give a trimmed, single-spaced text. */
  lemma SpacedAround(a: string, x: char, b: string)
    requires a != [] && Trimmed(a) && SingleSpaced(a)
    requires b != [] && Trimmed(b) && SingleSpaced(b)
    requires !IsSpace(x)
    ensures Trimmed(a + [' ', x, ' '] + b) && SingleSpaced(a + [' ', x, ' '] + b)
  {
    SingleSpacedCons(' ', b);
    SingleSpacedCons(x, [' '] + b);
    SingleSpacedCons(' ', [x] + ([' '] + b));
    var t := [' ', x, ' '] + b;
    assert [' '] + ([x] + ([' '] + b)) == t;
    SingleSpacedAppend(a, t);
    assert a + [' ', x, ' '] + b == a + t;
  }

  lemma {:induction false} CollapseOfSingleSpaced(s: string)
    requires SingleSpaced(s)
    ensures CollapseSpaces(s) == s
    decreases |s|
  {
    if s == [] {
    } else if IsSpace(s[0]) {
      assert |s| > 1 ==> !IsSpace(s[1]);
      assert TrimStart(s) == s[1..];
      CollapseOfSingleSpaced(s[1..]);
    } else {
      CollapseOfSingleSpaced(s[1..]);
    }
  }

  /** `s.replace(/\s{2,}/g, " ")`: only runs of two or more whitespace characters
      become one space; a lone whitespace character stays as it is. */
  function CollapseRuns(s: string): (r: string)
    ensures NoDoubleSpace(r)
    ensures s != [] && !IsSpace(s[0]) ==> r != [] && r[0] == s[0]
    ensures s != [] && IsSpace(s[0]) ==> r != [] && IsSpace(r[0])
    decreases |s|
  {
    if s == [] then []
    else if IsSpace(s[0]) && |s| >= 2 && IsSpace(s[1]) then [' '] + CollapseRuns(TrimStart(s))
    else [s[0]] + CollapseRuns(s[1..])
  }

  lemma {:induction false} CollapseRunsOfNoDouble(s: string)
    requires NoDoubleSpace(s)
    ensures CollapseRuns(s) == s
    decreases |s|
  {
    if s != [] {
      CollapseRunsOfNoDouble(s[1..]);
    }
  }

  /** `s.replace(/\s+/g, "")`. */
  function RemoveSpaces(s: string): (r: string)
    ensures NoSpace(r)
    ensures |r| <= |s|
  {
    if s == [] then [] else if IsSpace(s[0]) then RemoveSpaces(s[1..]) else [s[0]] + RemoveSpaces(s[1..])
  }

  lemma {:induction false} RemoveSpacesAppend(a: string, b: string)
    ensures RemoveSpaces(a + b) == RemoveSpaces(a) + RemoveSpaces(b)
  {
    if a == [] {
      assert a + b == b;
    } else {
      assert (a + b)[0] == a[0];
      assert (a + b)[1..] == a[1..] + b;
      RemoveSpacesAppend(a[1..], b);
    }
  }

  lemma {:induction false} RemoveSpacesOfNoSpace(s: string)
    requires NoSpace(s)
    ensures RemoveSpaces(s) == s
  {
    if s != [] {
      RemoveSpacesOfNoSpace(s[1..]);
    }
  }

  lemma {:induction false} RemoveSpacesOfAllSpace(s: string)
    requires AllSpace(s)
    ensures RemoveSpaces(s) == []
  {
    if s != [] {
      RemoveSpacesOfAllSpace(s[1..]);
    }
  }

  /** The value of a run of decimal digits. */
  function DecimalValue(s: string): (n: nat)
    requires forall i :: 0 <= i < |s| ==> IsDigit(s[i])
  {
    if s == [] then 0
    else
      assert IsDigit(s[|s| - 1]);
      DecimalValue(s[..|s| - 1]) * 10 + (s[|s| - 1] as int - '0' as int)
  }

  function DigitChar(d: nat): (c: char)
    requires d < 10
    ensures IsDigit(c)
  {
    ('0' as int + d) as char
  }

  /** `String(n).padStart(2, "0")` for a number below 100. */
  function Pad2(n: nat): (r: string)
    requires n < 100
    ensures |r| == 2 && IsDigit(r[0]) && IsDigit(r[1])
    ensures DecimalValue(r) == n
  {
    var r := [DigitChar(n / 10), DigitChar(n % 10)];
    assert r[..1][..0] == [];
    assert DecimalValue(r[..1]) == n / 10;
    assert r[..|r| - 1] == r[..1];
    r
  }

  /** No string occurs twice. */
  predicate NoDup(s: seq<string>) {
    forall i, j :: 0 <= i < j < |s| ==> s[i] != s[j]
  }

  /** Joins `parts` with `sep` between consecutive parts (JavaScript `join`). */
  function Join(parts: seq<string>, sep: string): string {
    if parts == [] then [] else if |parts| == 1 then parts[0] else parts[0] + sep + Join(parts[1..], sep)
  }

  /** `s.split(c)` for a single character: the pieces between the
      occurrences of `c`, empty ones included. */
  function SplitOn(s: string, c: char): (r: seq<string>)
    ensures |r| >= 1
    ensures forall i :: 0 <= i < |r| ==> c !in r[i]
    decreases |s|
  {
    var k := FindFrom(s, c, 0);
    if k == |s| then [s] else [s[..k]] + SplitOn(s[k + 1..], c)
  }

  /** Splitting undoes joining, when no part holds the separator. */
  lemma {:induction false} SplitOnJoin(parts: seq<string>, c: char)
    requires parts != []
    requires forall i :: 0 <= i < |parts| ==> c !in parts[i]
    ensures SplitOn(Join(parts, [c]), c) == parts
    decreases |parts|
  {
    if |parts| > 1 {
      var rest := Join(parts[1..], [c]);
      assert Join(parts, [c]) == parts[0] + [c] + rest;
      SplitOnCons(parts[0], c, rest);
      SplitOnJoin(parts[1..], c);
      assert parts == [parts[0]] + parts[1..];
    } else {
      FindFromIs(parts[0], c, 0, |parts[0]|);
    }
  }

  /** The first piece of a split ends at the first separator. */
  lemma SplitOnCons(a: string, c: char, rest: string)
    requires c !in a
    ensures SplitOn(a + [c] + rest, c) == [a] + SplitOn(rest, c)
  {
    var s := a + [c] + rest;
    FindFromIs(s, c, 0, |a|);
    assert s[..|a|] == a;
    assert s[|a| + 1..] == rest;
  }
}
