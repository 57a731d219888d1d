/**
 * BBCode cell cleaning: `stripBB` and `extractURLAndText`
 * (src/lib/utils.ts:7-19; src/App.tsx:66-78 holds a copy of both with the
 * same patterns and replacements, so they are defined once here).
 */
module BBCode {
  import opened Text

  /** Where a `[URL=…]label[/URL]` link found at some position sits in the string. */
  datatype LinkSpan = LinkSpan(labelStart: nat, labelEnd: nat, end: nat)

  /** `/\[URL=[^\]]+\]([^\[]+)\[\/URL\]/i` tried at position `i`: the
      attribute runs up to the first `]`, the label up to the first `[`, and
      that `[` must open `[/URL]`. Neither class can give characters back, so
      the match is unique. */
  function LinkAt(s: string, i: nat): (r: Option<LinkSpan>)
    ensures r.Some? ==> i < r.value.labelStart < r.value.labelEnd < r.value.end <= |s|
    ensures r.Some? ==> forall k :: r.value.labelStart <= k < r.value.labelEnd ==> s[k] != '['
  {
    if MatchCI(s, i, "[URL=") then
      var a := FindFrom(s, ']', i + 5);
      if i + 5 < a < |s| then
        var b := FindFrom(s, '[', a + 1);
        if a + 1 < b && MatchCI(s, b, "[/URL]") then Some(LinkSpan(a + 1, b, b + 6)) else None
      else None
    else None
  }

  /** The global replacement of each link by its label, scanning from `i`. */
  function ReplaceLinks(s: string, i: nat): string
    decreases |s| - i
  {
    if i >= |s| then []
    else match LinkAt(s, i)
      case Some(l) => s[l.labelStart..l.labelEnd] + ReplaceLinks(s, l.end)
      case None => [s[i]] + ReplaceLinks(s, i + 1)
  }

  /** The tag names the second `stripBB` pass removes, in the regex's alternation order. */
  const STYLE_TAGS: seq<string> := ["SIZE", "B", "COLOR", "TABLE", "TR", "TD", "URL"]

  /** The length of the first listed tag name found at `j` and followed by a
      word boundary, or 0 when none is. */
  function TagNameLen(s: string, j: nat, k: nat): (n: nat)
    requires k <= |STYLE_TAGS|
    ensures n > 0 ==> j + n <= |s|
    decreases |STYLE_TAGS| - k
  {
    if k == |STYLE_TAGS| then 0
    else if MatchCI(s, j, STYLE_TAGS[k]) && Boundary(s, j + |STYLE_TAGS[k]|) then |STYLE_TAGS[k]|
    else TagNameLen(s, j, k + 1)
  }

  /** `/\[(?:\/)?(?:SIZE|B|COLOR|TABLE|TR|TD|URL)\b[^\]]*\]/i` tried at `i`:
      the end of the match. */
  function StyleTagAt(s: string, i: nat): (r: Option<nat>)
    ensures r.Some? ==> i < r.value <= |s| && s[i] == '['
  {
    if i < |s| && s[i] == '[' then
      var j := if i + 1 < |s| && s[i + 1] == '/' then i + 2 else i + 1;
      var n := TagNameLen(s, j, 0);
      if n > 0 then
        var k := FindFrom(s, ']', j + n);
        if k < |s| then Some(k + 1) else None
      else None
    else None
  }

  /** The global removal of style and table tags, scanning from `i`. */
  function RemoveStyleTags(s: string, i: nat): string
    decreases |s| - i
  {
    if i >= |s| then []
    else match StyleTagAt(s, i)
      case Some(e) => RemoveStyleTags(s, e)
      case None => [s[i]] + RemoveStyleTags(s, i + 1)
  }

  /** `stripBB`: links collapse to their labels, style and table tags vanish,
      whitespace runs become one space and the ends are trimmed. */
  function StripBB(s: string): (r: string)
    ensures Trimmed(r) && SingleSpaced(r)
  {
    var c := CollapseSpaces(RemoveStyleTags(ReplaceLinks(s, 0), 0));
    TrimKeepsSpacing(c);
    Trim(c)
  }

  lemma {:induction false} ReplaceLinksNone(s: string, i: nat)
    requires i <= |s|
    requires forall j :: i <= j < |s| ==> LinkAt(s, j).None?
    ensures ReplaceLinks(s, i) == s[i..]
    decreases |s| - i
  {
    if i < |s| {
      ReplaceLinksNone(s, i + 1);
    }
  }

  lemma {:induction false} RemoveStyleTagsNone(s: string, i: nat)
    requires i <= |s|
    requires forall j :: i <= j < |s| ==> StyleTagAt(s, j).None?
    ensures RemoveStyleTags(s, i) == s[i..]
    decreases |s| - i
  {
    if i < |s| {
      RemoveStyleTagsNone(s, i + 1);
    }
  }

  /** Text in which neither pattern matches anywhere (unrecognised tags
      included) passes through, only whitespace-collapsed and trimmed. */
  lemma StripBBPassThrough(s: string)
    requires forall j :: 0 <= j < |s| ==> LinkAt(s, j).None?
    requires forall j :: 0 <= j < |s| ==> StyleTagAt(s, j).None?
    ensures StripBB(s) == Trim(CollapseSpaces(s))
  {
    NoLinks(s);
    NoStyleTags(s);
  }

  lemma NoLinks(s: string)
    requires forall j :: 0 <= j < |s| ==> LinkAt(s, j).None?
    ensures ReplaceLinks(s, 0) == s
  {
    ReplaceLinksNone(s, 0);
    assert s[0..] == s;
  }

  lemma NoStyleTags(s: string)
    requires forall j :: 0 <= j < |s| ==> StyleTagAt(s, j).None?
    ensures RemoveStyleTags(s, 0) == s
  {
    RemoveStyleTagsNone(s, 0);
    assert s[0..] == s;
  }

  /** Without a `[` nothing is removed: the result is the input, whitespace-collapsed and trimmed. */
  lemma StripBBNoBracket(s: string)
    requires '[' !in s
    ensures StripBB(s) == Trim(CollapseSpaces(s))
  {
    forall j | 0 <= j < |s| ensures LinkAt(s, j).None? && StyleTagAt(s, j).None? {
      assert s[j] != '[' && "[URL="[0] == '[';
      assert j + 5 <= |s| ==> !EqIgnoreCase(s[j + 0], "[URL="[0]);
    }
    StripBBPassThrough(s);
  }

  /** Text that is already single-spaced, trimmed and bracket-free comes back unchanged. */
  lemma StripBBPlainText(s: string)
    requires '[' !in s && Trimmed(s) && SingleSpaced(s)
    ensures StripBB(s) == s
  {
    StripBBNoBracket(s);
    CollapseOfSingleSpaced(s);
  }

  /** A non-empty run of upper-case ASCII letters. */
  predicate UpperWord(w: string) {
    w != [] && forall k :: 0 <= k < |w| ==> IsUpperAscii(w[k])
  }

  lemma StyleTagsUpper()
    ensures forall x :: 0 <= x < |STYLE_TAGS| ==> UpperWord(STYLE_TAGS[x])
  {
  }

  /** Where the name `n` is written out in full and closed by `]`, no other
      upper-case name matches there followed by a word boundary: a longer one
      runs into the `]`, a shorter one ends between two letters. */
  lemma OtherTagNoMatch(s: string, j: nat, n: string, m: string)
    requires UpperWord(n) && UpperWord(m) && m != n
    requires j + |n| < |s| && s[j..j + |n|] == n && s[j + |n|] == ']'
    ensures !(MatchCI(s, j, m) && Boundary(s, j + |m|))
  {
    if |m| > |n| {
      assert IsUpperAscii(m[|n|]);
      assert !EqIgnoreCase(s[j + |n|], m[|n|]);
    } else if |m| < |n| {
      assert s[j + |m| - 1] == n[|m| - 1] && s[j + |m|] == n[|m|];
      assert IsUpperAscii(n[|m| - 1]) && IsUpperAscii(n[|m|]);
      assert !Boundary(s, j + |m|);
    } else {
      var k :| 0 <= k < |m| && m[k] != n[k];
      assert s[j + k] == n[k] && IsUpperAscii(n[k]) && IsUpperAscii(m[k]);
      assert !EqIgnoreCase(s[j + k], m[k]);
    }
  }

  /** The listed name `STYLE_TAGS[x]`, written out in full and closed by `]`,
      is recognised as itself. */
  lemma {:induction false} TagNameLenOf(s: string, j: nat, x: nat, k: nat)
    requires k <= x < |STYLE_TAGS|
    requires forall y :: 0 <= y < |STYLE_TAGS| ==> UpperWord(STYLE_TAGS[y])
    requires j + |STYLE_TAGS[x]| < |s| && s[j..j + |STYLE_TAGS[x]|] == STYLE_TAGS[x]
    requires s[j + |STYLE_TAGS[x]|] == ']'
    ensures TagNameLen(s, j, k) == |STYLE_TAGS[x]|
    decreases x - k
  {
    var n := STYLE_TAGS[x];
    if k == x {
      MatchCIOf(s, j, n);
      assert s[j + |n| - 1] == n[|n| - 1] && IsUpperAscii(n[|n| - 1]);
      assert Boundary(s, j + |n|);
      TagNameLenHit(s, j, k);
    } else {
      var m := STYLE_TAGS[k];
      assert m != n;
      OtherTagNoMatch(s, j, n, m);
      TagNameLenOf(s, j, x, k + 1);
      TagNameLenMiss(s, j, k);
    }
  }

  lemma TagNameLenHit(s: string, j: nat, k: nat)
    requires k < |STYLE_TAGS| && MatchCI(s, j, STYLE_TAGS[k]) && Boundary(s, j + |STYLE_TAGS[k]|)
    ensures TagNameLen(s, j, k) == |STYLE_TAGS[k]|
  {
  }

  lemma TagNameLenMiss(s: string, j: nat, k: nat)
    requires k < |STYLE_TAGS| && !(MatchCI(s, j, STYLE_TAGS[k]) && Boundary(s, j + |STYLE_TAGS[k]|))
    ensures TagNameLen(s, j, k) == TagNameLen(s, j, k + 1)
  {
  }

  /** A listed tag `[N]` or `[/N]` starting at `i` is matched whole. */
  lemma StyleTagAtOf(s: string, i: nat, j: nat, x: nat)
    requires x < |STYLE_TAGS| && i < |s| && s[i] == '['
    requires j == i + 1 || (j == i + 2 && i + 1 < |s| && s[i + 1] == '/')
    requires j + |STYLE_TAGS[x]| < |s| && s[j..j + |STYLE_TAGS[x]|] == STYLE_TAGS[x]
    requires s[j + |STYLE_TAGS[x]|] == ']'
    ensures StyleTagAt(s, i) == Some(j + |STYLE_TAGS[x]| + 1)
  {
    var n := STYLE_TAGS[x];
    StyleTagsUpper();
    if j == i + 1 {
      assert s[i + 1] == n[0] && IsUpperAscii(n[0]);
    }
    assert j == if i + 1 < |s| && s[i + 1] == '/' then i + 2 else i + 1;
    TagNameLenOf(s, j, x, 0);
    FindFromIs(s, ']', j + |n|, j + |n|);
  }

  /** A stretch where no tag starts goes through the tag removal unchanged. */
  lemma {:induction false} RemoveStyleTagsSkip(s: string, i: nat, k: nat)
    requires i <= k <= |s|
    requires forall j :: i <= j < k ==> StyleTagAt(s, j).None?
    ensures RemoveStyleTags(s, i) == s[i..k] + RemoveStyleTags(s, k)
    decreases k - i
  {
    if i < k {
      var rest := RemoveStyleTags(s, k);
      RemoveStyleTagsSkip(s, i + 1, k);
      RemoveStyleTagsStep(s, i);
      SliceHead(s, i, k);
      AppendAssoc([s[i]], s[i + 1..k], rest);
    }
  }

  lemma SliceHead(s: string, i: nat, k: nat)
    requires i < k <= |s|
    ensures s[i..k] == [s[i]] + s[i + 1..k]
  {
  }

  /** Where no tag starts, the removal copies one character. */
  lemma RemoveStyleTagsStep(s: string, i: nat)
    requires i < |s| && StyleTagAt(s, i).None?
    ensures RemoveStyleTags(s, i) == [s[i]] + RemoveStyleTags(s, i + 1)
  {
  }

  /** A stretch with no `[` goes through the tag removal unchanged. */
  lemma RemoveStyleTagsPlain(s: string, i: nat, k: nat)
    requires i <= k <= |s|
    requires forall j :: i <= j < k ==> s[j] != '['
    ensures RemoveStyleTags(s, i) == s[i..k] + RemoveStyleTags(s, k)
  {
    RemoveStyleTagsSkip(s, i, k);
  }

  /** A character other than `[` cannot start a tag or a link. */
  lemma NotBracketNoMatch(s: string, j: nat, pat: string)
    requires j < |s| && s[j] != '[' && pat != [] && pat[0] == '['
    ensures !MatchCI(s, j, pat)
  {
    assert !EqIgnoreCase(s[j], pat[0]);
  }

  /** `[N]` opening a cell, with `N` upper-case letters, is not a link. */
  lemma TagOpenNotLink(s: string, n: string)
    requires UpperWord(n) && 1 + |n| < |s| && s[1..1 + |n|] == n && s[1 + |n|] == ']'
    ensures !MatchCI(s, 0, "[URL=")
  {
    if |n| >= 4 {
      assert s[4] == n[3] && IsUpperAscii(n[3]);
      assert !EqIgnoreCase(s[4], "[URL="[4]);
    } else {
      assert !EqIgnoreCase(s[1 + |n|], "[URL="[1 + |n|]);
    }
  }

  /** `[N]text[/N]` with bracket-free text holds no link. */
  lemma TagHasNoLink(s: string, n: string, t: string)
    requires UpperWord(n) && '[' !in t && s == "[" + n + "]" + t + "[/" + n + "]"
    ensures forall j :: 0 <= j < |s| ==> LinkAt(s, j).None?
  {
    var p := |n| + 2;
    var c := p + |t|;
    assert s[1..1 + |n|] == n && s[1 + |n|] == ']';
    assert s[c + 1] == '/' && s[c + 2..c + 2 + |n|] == n && s[c + 2 + |n|] == ']';
    forall j | 0 <= j < |s| ensures !MatchCI(s, j, "[URL=") {
      if j == 0 {
        TagOpenNotLink(s, n);
      } else if j == c {
        assert !EqIgnoreCase(s[c + 1], "[URL="[1]);
      } else {
        if p <= j < c {
          assert s[j] == t[j - p];
        } else if 0 < j < 1 + |n| {
          assert s[j] == n[j - 1] && IsUpperAscii(n[j - 1]);
        } else if c + 2 <= j < c + 2 + |n| {
          assert s[j] == n[j - c - 2] && IsUpperAscii(n[j - c - 2]);
        }
        NotBracketNoMatch(s, j, "[URL=");
      }
    }
  }

  /** `[N]` opens and `[/N]` closes a cell: both are tags, ending where they end. */
  lemma TagsAtBothEnds(s: string, x: nat, p: nat, c: nat)
    requires x < |STYLE_TAGS| && p == |STYLE_TAGS[x]| + 2 && p <= c
    requires |s| == c + |STYLE_TAGS[x]| + 3 && s[0] == '[' && s[c] == '[' && s[c + 1] == '/'
    requires s[1..p - 1] == STYLE_TAGS[x] && s[p - 1] == ']'
    requires s[c + 2..|s| - 1] == STYLE_TAGS[x] && s[|s| - 1] == ']'
    ensures StyleTagAt(s, 0) == Some(p) && StyleTagAt(s, c) == Some(|s|)
  {
    StyleTagAtOf(s, 0, 1, x);
    StyleTagAtOf(s, c, c + 2, x);
  }

  /** A tag at the front, one at the back and no `[` between: the removal
      leaves what lies between. */
  lemma TagsRemoved(s: string, p: nat, c: nat)
    requires 0 < p <= c < |s|
    requires StyleTagAt(s, 0) == Some(p) && StyleTagAt(s, c) == Some(|s|)
    requires forall j :: p <= j < c ==> s[j] != '['
    ensures RemoveStyleTags(s, 0) == s[p..c]
  {
    RemoveStyleTagsPlain(s, p, c);
    assert RemoveStyleTags(s, c) == RemoveStyleTags(s, |s|) == [];
  }

  /** Where the pieces of `[N]text[/N]` lie. */
  lemma TagLayout(s: string, n: string, t: string)
    requires '[' !in t && s == "[" + n + "]" + t + "[/" + n + "]"
    ensures |s| == |n| + 2 + |t| + |n| + 3 && s[0] == '[' && s[|n| + 1] == ']'
    ensures s[|n| + 2 + |t|] == '[' && s[|n| + 3 + |t|] == '/' && s[|s| - 1] == ']'
    ensures s[1..|n| + 1] == n && s[|n| + 4 + |t|..|s| - 1] == n
    ensures s[|n| + 2..|n| + 2 + |t|] == t
    ensures forall j :: |n| + 2 <= j < |n| + 2 + |t| ==> s[j] != '['
  {
    var p := |n| + 2;
    var c := p + |t|;
    assert s[1..p - 1] == n && s[p..c] == t && s[c + 2..|s| - 1] == n;
    forall j | p <= j < c ensures s[j] != '[' {
      assert s[j] == t[j - p];
    }
  }

  /** A recognised tag around bracket-free text, `[N]text[/N]`, leaves only
      the text, whitespace-collapsed and trimmed. */
  lemma StripBBTag(n: string, t: string)
    requires n in STYLE_TAGS && '[' !in t
    ensures StripBB("[" + n + "]" + t + "[/" + n + "]") == Trim(CollapseSpaces(t))
  {
    var x :| 0 <= x < |STYLE_TAGS| && STYLE_TAGS[x] == n;
    StyleTagsUpper();
    StripBBTagAt(x, n, t);
  }

  /** The lemma above for the `x`-th tag name. */
  lemma StripBBTagAt(x: nat, n: string, t: string)
    requires x < |STYLE_TAGS| && STYLE_TAGS[x] == n && UpperWord(n) && '[' !in t
    ensures StripBB("[" + n + "]" + t + "[/" + n + "]") == Trim(CollapseSpaces(t))
  {
    var s := "[" + n + "]" + t + "[/" + n + "]";
    TagEnds(s, x, n, t);
    TagLinksNone(s, n, t);
    StripBBOf(s, t);
  }

  /** The tag removal leaves the bracket-free text of `[N]text[/N]`. */
  lemma TagEnds(s: string, x: nat, n: string, t: string)
    requires x < |STYLE_TAGS| && STYLE_TAGS[x] == n && '[' !in t
    requires s == "[" + n + "]" + t + "[/" + n + "]"
    ensures RemoveStyleTags(s, 0) == t
  {
    var p := |n| + 2;
    var c := p + |t|;
    TagLayout(s, n, t);
    TagsAtBothEnds(s, x, p, c);
    TagsRemoved(s, p, c);
  }

  lemma TagLinksNone(s: string, n: string, t: string)
    requires UpperWord(n) && '[' !in t && s == "[" + n + "]" + t + "[/" + n + "]"
    ensures ReplaceLinks(s, 0) == s
  {
    TagHasNoLink(s, n, t);
    NoLinks(s);
  }

  /** `stripBB` once the tags and links of `s` are gone, leaving `u`. */
  lemma StripBBOf(s: string, u: string)
    requires RemoveStyleTags(ReplaceLinks(s, 0), 0) == u
    ensures StripBB(s) == Trim(CollapseSpaces(u))
  {
  }

  /** A `[URL=target]caption[/URL]` link is replaced by its caption. */
  lemma StripBBLink(target: string, caption: string)
    requires target != [] && ']' !in target
    requires caption != [] && '[' !in caption
    ensures StripBB("[URL=" + target + "]" + caption + "[/URL]") == Trim(CollapseSpaces(caption))
  {
    var s := "[URL=" + target + "]" + caption + "[/URL]";
    LinkReplaced(s, target, caption);
    forall j | 0 <= j < |caption| ensures StyleTagAt(caption, j).None? {
      assert caption[j] != '[';
    }
    NoStyleTags(caption);
    StripBBOf(s, caption);
  }

  /** The link of the lemma above is replaced by its caption. */
  lemma LinkReplaced(s: string, target: string, caption: string)
    requires target != [] && ']' !in target
    requires caption != [] && '[' !in caption
    requires s == "[URL=" + target + "]" + caption + "[/URL]"
    ensures ReplaceLinks(s, 0) == caption
  {
    var a := 5 + |target|;
    var b := a + 1 + |caption|;
    LinkAtFront(s, target, caption);
    assert s[a + 1..b] == caption;
    assert ReplaceLinks(s, 0) == caption + ReplaceLinks(s, |s|) == caption;
  }

  /** The link of the lemma above is found at the front and spans the whole text. */
  lemma LinkAtFront(s: string, target: string, caption: string)
    requires target != [] && ']' !in target
    requires caption != [] && '[' !in caption
    requires s == "[URL=" + target + "]" + caption + "[/URL]"
    ensures var b := 5 + |target| + 1 + |caption|;
            b + 6 == |s| && s[b - |caption|..b] == caption
            && LinkAt(s, 0) == Some(LinkSpan(b - |caption|, b, b + 6))
  {
    var a := 5 + |target|;
    var b := a + 1 + |caption|;
    LinkLayout(s, target, caption);
    MatchCIOf(s, 0, "[URL=");
    SliceWithout(s, 5, a, target, ']');
    FindFromIs(s, ']', 5, a);
    SliceWithout(s, a + 1, b, caption, '[');
    FindFromIs(s, '[', a + 1, b);
    MatchCIOf(s, b, "[/URL]");
  }

  /** Where the pieces of `[URL=target]caption[/URL]` lie. */
  lemma LinkLayout(s: string, target: string, caption: string)
    requires s == "[URL=" + target + "]" + caption + "[/URL]"
    ensures var a := 5 + |target|; var b := a + 1 + |caption|;
            |s| == b + 6 && s[0..5] == "[URL=" && s[5..a] == target && s[a] == ']'
            && s[a + 1..b] == caption && s[b..b + 6] == "[/URL]"
  {
    var a := 5 + |target|;
    var b := a + 1 + |caption|;
    assert s[0..5] == "[URL=" && s[5..a] == target && s[a] == ']';
    assert s[a + 1..b] == caption && s[b..b + 6] == "[/URL]";
  }

  /** A cell's text and, when it holds a quoted link, the link target. */
  datatype LinkText = LinkText(text: string, url: Option<string>)

  /** Where a `[URL="target"]label[/URL]` link found at some position sits. */
  datatype QuotedLink = QuotedLink(urlStart: nat, urlEnd: nat, textStart: nat, textEnd: nat)

  /** `/\[URL="([^"]+)"\]([^\[]+)\[\/URL\]/i` tried at position `i`. */
  function QuotedLinkAt(s: string, i: nat): (r: Option<QuotedLink>)
    ensures r.Some? ==> i + 6 <= r.value.urlStart < r.value.urlEnd < r.value.textStart < r.value.textEnd <= |s|
    ensures r.Some? ==> forall k :: r.value.urlStart <= k < r.value.urlEnd ==> s[k] != '"'
    ensures r.Some? ==> forall k :: r.value.textStart <= k < r.value.textEnd ==> s[k] != '['
  {
    if MatchCI(s, i, "[URL=\"") then
      var q := FindFrom(s, '"', i + 6);
      if i + 6 < q && q + 1 < |s| && s[q + 1] == ']' then
        var b := FindFrom(s, '[', q + 2);
        if q + 2 < b && MatchCI(s, b, "[/URL]") then Some(QuotedLink(i + 6, q, q + 2, b)) else None
      else None
    else None
  }

  /** The leftmost position at or after `i` where a quoted link matches, or `|s|`. */
  function QuotedLinkFrom(s: string, i: nat): (k: nat)
    ensures k <= |s|
    ensures k < |s| ==> i <= k && QuotedLinkAt(s, k).Some?
    ensures forall j :: i <= j < k ==> QuotedLinkAt(s, j).None?
    decreases |s| - i
  {
    if i >= |s| then |s|
    else if QuotedLinkAt(s, i).Some? then i
    else QuotedLinkFrom(s, i + 1)
  }

  lemma {:induction false} QuotedLinkFromIs(s: string, i: nat, k: nat)
    requires i <= k < |s| && QuotedLinkAt(s, k).Some?
    requires forall j :: i <= j < k ==> QuotedLinkAt(s, j).None?
    ensures QuotedLinkFrom(s, i) == k
    decreases k - i
  {
    if i < k {
      QuotedLinkFromIs(s, i + 1, k);
    }
  }

  /** `j` is where the regex, scanning from the left, first matches. */
  predicate LeftmostQuotedLink(s: string, j: nat) {
    j < |s| && QuotedLinkAt(s, j).Some? && forall i :: 0 <= i < j ==> QuotedLinkAt(s, i).None?
  }

  /** The trimmed label and target a match captures. */
  function Captured(s: string, m: QuotedLink): LinkText
    requires m.urlStart <= m.urlEnd <= |s| && m.textStart <= m.textEnd <= |s|
  {
    LinkText(Trim(s[m.textStart..m.textEnd]), Some(Trim(s[m.urlStart..m.urlEnd])))
  }

  /** `extractURLAndText`: the leftmost quoted link gives the trimmed label and
      target; a cell without one falls back to `stripBB` and no target. */
  function ExtractURLAndText(cell: string): (r: LinkText)
    ensures Trimmed(r.text)
    ensures r.url.Some? <==> exists j :: 0 <= j < |cell| && QuotedLinkAt(cell, j).Some?
    ensures r.url.None? ==> r.text == StripBB(cell)
    ensures r.url.Some? ==>
              exists j :: LeftmostQuotedLink(cell, j) && r == Captured(cell, QuotedLinkAt(cell, j).value)
    ensures r.url.Some? ==> '[' !in r.text && '"' !in r.url.value && Trimmed(r.url.value)
  {
    var k := QuotedLinkFrom(cell, 0);
    if k < |cell| then
      var m := QuotedLinkAt(cell, k).value;
      SliceAvoids(cell, m.textStart, m.textEnd, '[');
      SliceAvoids(cell, m.urlStart, m.urlEnd, '"');
      TrimAvoids(cell[m.textStart..m.textEnd], '[');
      TrimAvoids(cell[m.urlStart..m.urlEnd], '"');
      assert LeftmostQuotedLink(cell, k);
      Captured(cell, m)
    else
      LinkText(StripBB(cell), None)
  }

  /** A cell whose leftmost link is at `i` is read as what that link captures. */
  lemma ExtractURLAndTextAt(s: string, i: nat, target: string, caption: string)
    requires LeftmostQuotedLink(s, i)
    requires var m := QuotedLinkAt(s, i).value;
             s[m.urlStart..m.urlEnd] == target && s[m.textStart..m.textEnd] == caption
    ensures ExtractURLAndText(s) == LinkText(Trim(caption), Some(Trim(target)))
  {
    QuotedLinkFromIs(s, 0, i);
  }

  /** Where the pieces of `p` + `[URL="target"]caption[/URL]` + `post` lie. */
  lemma QuotedLinkLayout(s: string, p: string, target: string, caption: string, post: string)
    requires s == p + "[URL=\"" + target + "\"]" + caption + "[/URL]" + post
    ensures var i := |p|; var q := i + 6 + |target|; var b := q + 2 + |caption|;
            b + 6 <= |s| && s[..i] == p && s[i..i + 6] == "[URL=\"" && s[i + 6..q] == target
            && s[q] == '"' && s[q + 1] == ']' && s[q + 2..b] == caption && s[b..b + 6] == "[/URL]"
  {
    var i := |p|;
    var q := i + 6 + |target|;
    var b := q + 2 + |caption|;
    assert s[..i] == p;
    assert s[i..i + 6] == "[URL=\"";
    assert s[i + 6..q] == target;
    assert s[q] == '"' && s[q + 1] == ']';
    assert s[q + 2..b] == caption;
    assert s[b..b + 6] == "[/URL]";
  }

  /** A quoted link laid out at `i` matches there, capturing `target` and
      `caption` exactly. */
  lemma QuotedLinkAtOf(s: string, i: nat, target: string, caption: string)
    requires target != [] && '"' !in target
    requires caption != [] && '[' !in caption
    requires var q := i + 6 + |target|; var b := q + 2 + |caption|;
             b + 6 <= |s| && s[i..i + 6] == "[URL=\"" && s[i + 6..q] == target
             && s[q] == '"' && s[q + 1] == ']' && s[q + 2..b] == caption && s[b..b + 6] == "[/URL]"
    ensures var q := i + 6 + |target|; var b := q + 2 + |caption|;
            QuotedLinkAt(s, i) == Some(QuotedLink(i + 6, q, q + 2, b))
  {
    var q := i + 6 + |target|;
    var b := q + 2 + |caption|;
    MatchCIOf(s, i, "[URL=\"");
    SliceWithout(s, i + 6, q, target, '"');
    FindFromIs(s, '"', i + 6, q);
    SliceWithout(s, q + 2, b, caption, '[');
    FindFromIs(s, '[', q + 2, b);
    MatchCIOf(s, b, "[/URL]");
  }

  /** A link written out as `[URL="target"]label[/URL]` is read back as its
      trimmed label and target. */
  lemma ExtractURLAndTextOfLink(target: string, caption: string)
    requires target != [] && '"' !in target
    requires caption != [] && '[' !in caption
    ensures ExtractURLAndText("[URL=\"" + target + "\"]" + caption + "[/URL]")
            == LinkText(Trim(caption), Some(Trim(target)))
  {
    var s := "[URL=\"" + target + "\"]" + caption + "[/URL]";
    var q := 6 + |target|;
    var b := q + 2 + |caption|;
    assert s[0..6] == "[URL=\"" && s[6..q] == target && s[q] == '"' && s[q + 1] == ']';
    assert s[q + 2..b] == caption && s[b..b + 6] == "[/URL]";
    QuotedLinkAtOf(s, 0, target, caption);
    ExtractURLAndTextAt(s, 0, target, caption);
  }

  /** No quoted link starts inside `[TD attrs]pre` when neither `attrs` nor
      `pre` holds a `[`: the one bracket there opens `[TD`. */
  lemma NoQuotedLinkInCellHead(s: string, h: string, attrs: string, pre: string)
    requires '[' !in attrs && '[' !in pre && h == "[TD" + attrs + "]" + pre
    requires |h| <= |s| && s[..|h|] == h
    ensures forall j :: 0 <= j < |h| ==> QuotedLinkAt(s, j).None?
  {
    forall j | 0 <= j < |h| ensures QuotedLinkAt(s, j).None? {
      assert s[j] == h[j];
      if j == 0 {
        assert s[1] == 'T';
        assert !EqIgnoreCase(s[0 + 1], "[URL=\""[1]);
      } else {
        assert h[j] != '[' by {
          if j < 3 {
          } else if j < 3 + |attrs| {
            assert h[j] == attrs[j - 3];
          } else if j > 3 + |attrs| {
            assert h[j] == pre[j - 4 - |attrs|];
          }
        }
        assert !EqIgnoreCase(s[j + 0], "[URL=\""[0]);
      }
    }
  }

  /** The name cell of a roster row, `[TD attrs]pre[URL="target"]label[/URL]post`,
      is read as the link's trimmed label and target. */
  lemma ExtractURLAndTextOfCell(attrs: string, pre: string, target: string, caption: string, post: string)
    requires '[' !in attrs && '[' !in pre
    requires target != [] && '"' !in target
    requires caption != [] && '[' !in caption
    ensures ExtractURLAndText("[TD" + attrs + "]" + pre + "[URL=\"" + target + "\"]" + caption + "[/URL]" + post)
            == LinkText(Trim(caption), Some(Trim(target)))
  {
    var h := "[TD" + attrs + "]" + pre;
    var s := h + "[URL=\"" + target + "\"]" + caption + "[/URL]" + post;
    var i := |h|;
    var q := i + 6 + |target|;
    var b := q + 2 + |caption|;
    QuotedLinkLayout(s, h, target, caption, post);
    QuotedLinkAtOf(s, i, target, caption);
    NoQuotedLinkInCellHead(s, h, attrs, pre);
    ExtractURLAndTextAt(s, i, target, caption);
  }
}
