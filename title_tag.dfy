/** The title rewrite `re.sub(r'<title>.*?</title>', element, doc, flags=re.IGNORECASE)`
    for this one pattern, written as a hand scanner rather than a regular
    expression engine.

    A match starts with the opening tag, then takes as few characters as
    possible (none of them a newline, since the pattern sets no DOTALL flag)
    up to the first closing tag. Tag letters match regardless of case.
    Scanning runs left to right; after a match it resumes behind the match,
    otherwise one character further on. */
module TitleTag {
  import opened Wrappers
  import Text

  const OpenTag: string := "<title>"
  const CloseTag: string := "</title>"

  /** What a character of the document is compared as, against one of the
      lower-case characters of the two tags. Python's `re` under IGNORECASE
      compares simple lower-case forms and also lets `i` match dotless `ı`
      (U+0131); dotted `İ` (U+0130) lower-cases to `i`. */
  function Fold(c: char): char
  {
    if 'A' <= c <= 'Z' then (c as int - 'A' as int + 'a' as int) as char
    else if c == '\U{130}' || c == '\U{131}' then 'i'
    else c
  }

  /** The characters that fold to a lower-case letter are that letter, its
      upper case and, for `i`, U+0130 and U+0131; every other character folds
      to itself. */
  lemma FoldCases(c: char)
    ensures !('a' <= Fold(c) <= 'z') ==> Fold(c) == c
    ensures 'a' <= Fold(c) <= 'z' ==>
              (c == Fold(c) || c == Fold(c) - 'a' + 'A' || (Fold(c) == 'i' && (c == '\U{130}' || c == '\U{131}')))
  {
  }

  /** `x` with every character folded. */
  function Folded(x: string): (r: string)
    ensures |r| == |x|
  {
    if x == [] then [] else [Fold(x[0])] + Folded(x[1..])
  }

  /** `s` begins with `tag`, letters compared without regard to case. */
  predicate TagPrefix(s: string, tag: string)
  {
    |tag| <= |s| && Folded(s[..|tag|]) == tag
  }

  /** The part of a match after the opening tag: characters other than a
      newline, none of them starting a closing tag, then a closing tag. */
  predicate LazyBody(y: string)
  {
    |CloseTag| <= |y|
    && TagPrefix(y[|y| - |CloseTag|..], CloseTag)
    && forall k :: 0 <= k < |y| - |CloseTag| ==> y[k] != '\n' && !TagPrefix(y[k..], CloseTag)
  }

  /** `x` is one whole match of the pattern: the shortest single-line
      `<title>...</title>` span, tags in any case. */
  predicate IsTitleSpan(x: string)
  {
    |OpenTag| <= |x| && TagPrefix(x, OpenTag) && LazyBody(x[|OpenTag|..])
  }

  /** A match starts with `<` and is long enough for both tags. */
  lemma TitleSpanShape(x: string)
    requires IsTitleSpan(x)
    ensures |OpenTag| + |CloseTag| <= |x| && x[0] == '<'
  {
    TagPrefixHead(x, OpenTag);
  }

  /** No substring of `s` is a match of the pattern. */
  predicate NoTitleSpan(s: string)
  {
    forall i, j :: 0 <= i <= j <= |s| ==> !IsTitleSpan(s[i..j])
  }

  /** Length of the lazy `.*?</title>` part at the front of `s`, if it matches. */
  function CloseLen(s: string): (r: Option<nat>)
    ensures r.Some? ==> |CloseTag| <= r.value <= |s|
    decreases |s|
  {
    if TagPrefix(s, CloseTag) then Some(|CloseTag|)
    else if s == [] || s[0] == '\n' then None
    else
      match CloseLen(s[1..])
      case Some(n) => Some(n + 1)
      case None => None
  }

  /** Length of the match at the front of `s`, if the pattern matches there. */
  function MatchLen(s: string): (r: Option<nat>)
    ensures r.Some? ==> |OpenTag| + |CloseTag| <= r.value <= |s|
  {
    if !TagPrefix(s, OpenTag) then None
    else
      match CloseLen(s[|OpenTag|..])
      case Some(n) => Some(|OpenTag| + n)
      case None => None
  }

  /** Whether a tag starts a string depends only on the string's first characters. */
  lemma TagPrefixSame(x: string, y: string, tag: string)
    requires |tag| <= |x| && |tag| <= |y| && x[..|tag|] == y[..|tag|]
    ensures TagPrefix(x, tag) <==> TagPrefix(y, tag)
  {
  }

  /** What the lazy scan finds is a lazy body. */
  lemma {:induction false} CloseLenSound(s: string)
    requires CloseLen(s).Some?
    ensures LazyBody(s[..CloseLen(s).value])
    decreases |s|
  {
    if TagPrefix(s, CloseTag) {
      CloseTagIsLazyBody(s);
    } else {
      assert CloseLen(s[1..]) == Some(CloseLen(s).value - 1);
      CloseLenSound(s[1..]);
      LazyBodyStep(s, CloseLen(s).value);
    }
  }

  /** A closing tag at the front is a lazy body on its own. */
  lemma CloseTagIsLazyBody(s: string)
    requires TagPrefix(s, CloseTag)
    ensures LazyBody(s[..|CloseTag|])
  {
    var y := s[..|CloseTag|];
    assert y[|y| - |CloseTag|..] == y;
    TagPrefixSame(y, s, CloseTag);
  }

  /** A lazy body behind a first character that is no newline and starts no
      closing tag grows by that character. */
  lemma LazyBodyStep(s: string, m: nat)
    requires 1 <= m <= |s| && s[0] != '\n' && !TagPrefix(s, CloseTag)
    requires LazyBody(s[1..][..m - 1])
    ensures LazyBody(s[..m])
  {
    var y, y' := s[..m], s[1..][..m - 1];
    assert y == [s[0]] + y';
    if |CloseTag| <= |y| {
      TagPrefixSame(y, s, CloseTag);
    }
    LazyBodyCons(s[0], y');
  }

  /** A character that is no newline and starts no closing tag extends a lazy body. */
  lemma LazyBodyCons(c: char, y': string)
    requires LazyBody(y') && c != '\n' && !TagPrefix([c] + y', CloseTag)
    ensures LazyBody([c] + y')
  {
    var y := [c] + y';
    assert y[|y| - |CloseTag|..] == y'[|y'| - |CloseTag|..];
    forall k | 0 <= k < |y| - |CloseTag|
      ensures y[k] != '\n' && !TagPrefix(y[k..], CloseTag)
    {
      if k == 0 {
        assert y[0..] == y;
      } else {
        assert y[k..] == y'[k - 1..];
      }
    }
  }

  /** A lazy body at the front is what the lazy scan finds. */
  lemma {:induction false} CloseLenComplete(s: string, m: nat)
    requires m <= |s| && LazyBody(s[..m])
    ensures CloseLen(s) == Some(m)
    decreases |s|
  {
    var y := s[..m];
    if m == |CloseTag| {
      assert y[m - |CloseTag|..] == y;
      TagPrefixSame(y, s, CloseTag);
    } else {
      assert y[0] == s[0] && y[0..] == y;
      TagPrefixSame(y, s, CloseTag);
      var y' := s[1..][..m - 1];
      assert y' == y[1..];
      assert y'[|y'| - |CloseTag|..] == y[|y| - |CloseTag|..];
      forall k | 0 <= k < |y'| - |CloseTag|
        ensures y'[k] != '\n' && !TagPrefix(y'[k..], CloseTag)
      {
        assert y'[k..] == y[k + 1..];
      }
      CloseLenComplete(s[1..], m - 1);
    }
  }

  /** The lazy scan after the opening tag, stated declaratively. */
  lemma CloseLenSpec(s: string, m: nat)
    ensures CloseLen(s) == Some(m) <==> m <= |s| && LazyBody(s[..m])
  {
    if CloseLen(s) == Some(m) {
      CloseLenSound(s);
    }
    if m <= |s| && LazyBody(s[..m]) {
      CloseLenComplete(s, m);
    }
  }

  /** The scanner's match at the front of `s` is exactly the one whole match
      that `s` begins with: the pattern semantics, stated declaratively. */
  lemma MatchLenSpec(s: string, n: nat)
    ensures MatchLen(s) == Some(n) <==> n <= |s| && IsTitleSpan(s[..n])
  {
    if n >= |OpenTag| && n <= |s| {
      var x, y := s[..n], s[|OpenTag|..];
      assert x[|OpenTag|..] == y[..n - |OpenTag|];
      TagPrefixSame(x, s, OpenTag);
      CloseLenSpec(y, n - |OpenTag|);
      assert MatchLen(s) == Some(n) <==> TagPrefix(s, OpenTag) && CloseLen(y) == Some(n - |OpenTag|);
      assert IsTitleSpan(x) <==> TagPrefix(s, OpenTag) && LazyBody(y[..n - |OpenTag|]);
    }
  }

  /** The lower-case element that replaces each match. */
  function TitleElement(title: string): (e: string)
    ensures |e| == |OpenTag| + |title| + |CloseTag|
  {
    OpenTag + title + CloseTag
  }

  /** The substitution: every match, found scanning left to right, replaced by
      `TitleElement(title)`. */
  function SubTitleTags(s: string, title: string): (r: string)
    ensures |s| < |OpenTag| + |CloseTag| ==> r == s
    decreases |s|
  {
    if s == [] then []
    else
      match MatchLen(s)
      case Some(n) => TitleElement(title) + SubTitleTags(s[n..], title)
      case None =>
        assert s == [s[0]] + s[1..];
        [s[0]] + SubTitleTags(s[1..], title)
  }

  /** Python's `re.split` with this pattern: the text around the matches. */
  function TitleSplit(s: string): (gaps: seq<string>)
    ensures |gaps| >= 1
    decreases |s|
  {
    if s == [] then [[]]
    else
      match MatchLen(s)
      case Some(n) => [[]] + TitleSplit(s[n..])
      case None =>
        var rest := TitleSplit(s[1..]);
        [[s[0]] + rest[0]] + rest[1..]
  }

  /** Python's `re.findall` with this pattern: the matches, in order. */
  function TitleSpans(s: string): (spans: seq<string>)
    ensures |spans| + 1 == |TitleSplit(s)|
    decreases |s|
  {
    if s == [] then []
    else
      match MatchLen(s)
      case Some(n) => [s[..n]] + TitleSpans(s[n..])
      case None => TitleSpans(s[1..])
  }

  /** `gaps[0] + spans[0] + gaps[1] + ... + gaps[|spans|]`. */
  function Interleave(gaps: seq<string>, spans: seq<string>): string
    requires |gaps| == |spans| + 1
  {
    if spans == [] then gaps[0]
    else gaps[0] + spans[0] + Interleave(gaps[1..], spans[1..])
  }

  /** The substitution keeps the text around the matches and puts the title
      element in place of each match. */
  lemma {:induction false} SubIsSplitJoin(s: string, title: string)
    ensures SubTitleTags(s, title) == Text.Join(TitleSplit(s), TitleElement(title))
    decreases |s|
  {
    if s != [] {
      match MatchLen(s)
      case Some(n) =>
        SubIsSplitJoin(s[n..], title);
        Text.JoinConsEmpty(TitleSplit(s[n..]), TitleElement(title));
      case None =>
        SubIsSplitJoin(s[1..], title);
        Text.JoinConsHead(s[0], TitleSplit(s[1..]), TitleElement(title));
    }
  }

  lemma InterleaveConsHead(c: char, gaps: seq<string>, spans: seq<string>)
    requires |gaps| == |spans| + 1
    ensures Interleave([[c] + gaps[0]] + gaps[1..], spans) == [c] + Interleave(gaps, spans)
  {
    var gs := [[c] + gaps[0]] + gaps[1..];
    assert gs[0] == [c] + gaps[0];
    if spans != [] {
      assert gs[1..] == gaps[1..];
      var rest := Interleave(gaps[1..], spans[1..]);
      assert Interleave(gs, spans) == [c] + gaps[0] + spans[0] + rest;
      Text.Regroup([c], gaps[0], spans[0], rest);
    }
  }

  /** Putting the matches back between the gaps gives the document again. */
  lemma {:induction false} TitleSplitRoundTrip(s: string)
    ensures Interleave(TitleSplit(s), TitleSpans(s)) == s
    decreases |s|
  {
    if s != [] {
      match MatchLen(s)
      case Some(n) =>
        TitleSplitRoundTrip(s[n..]);
        SplitAtMatch(s, n);
        InterleaveAtSpan(s, n, TitleSplit(s[n..]), TitleSpans(s[n..]));
      case None =>
        TitleSplitRoundTrip(s[1..]);
        RoundTripAtChar(s);
    }
  }

  /** A first span behind an empty first gap, then what rebuilds the rest of
      the text, rebuild the whole text. */
  lemma InterleaveAtSpan(s: string, n: nat, gaps: seq<string>, spans: seq<string>)
    requires n <= |s| && |gaps| == |spans| + 1 && Interleave(gaps, spans) == s[n..]
    ensures Interleave([[]] + gaps, [s[..n]] + spans) == s
  {
    InterleaveCons([], s[..n], gaps, spans);
    assert [] + s[..n] + s[n..] == s;
  }

  /** The scan at a match: an empty gap, the match, then the scan behind it. */
  lemma SplitAtMatch(s: string, n: nat)
    requires MatchLen(s) == Some(n)
    ensures TitleSplit(s) == [[]] + TitleSplit(s[n..])
    ensures TitleSpans(s) == [s[..n]] + TitleSpans(s[n..])
  {
    assert s != [];
  }

  /** `Interleave` on a first gap and a first span. */
  lemma InterleaveCons(g: string, sp: string, gaps: seq<string>, spans: seq<string>)
    requires |gaps| == |spans| + 1
    ensures Interleave([g] + gaps, [sp] + spans) == g + sp + Interleave(gaps, spans)
  {
    var gs, ss := [g] + gaps, [sp] + spans;
    assert gs[0] == g && gs[1..] == gaps;
    assert ss[0] == sp && ss[1..] == spans;
  }

  /** A first character that starts no match joins the first gap. */
  lemma RoundTripAtChar(s: string)
    requires s != [] && MatchLen(s).None?
    requires Interleave(TitleSplit(s[1..]), TitleSpans(s[1..])) == s[1..]
    ensures Interleave(TitleSplit(s), TitleSpans(s)) == s
  {
    var gaps := TitleSplit(s[1..]);
    assert TitleSplit(s) == [[s[0]] + gaps[0]] + gaps[1..];
    assert TitleSpans(s) == TitleSpans(s[1..]);
    InterleaveConsHead(s[0], gaps, TitleSpans(s[1..]));
    assert s == [s[0]] + s[1..];
  }

  /** Every match found is a whole, shortest, single-line title span. */
  lemma {:induction false} TitleSpansWellFormed(s: string)
    ensures forall k :: 0 <= k < |TitleSpans(s)| ==> IsTitleSpan(TitleSpans(s)[k])
    decreases |s|
  {
    if s != [] {
      match MatchLen(s)
      case Some(n) =>
        TitleSpansWellFormed(s[n..]);
        MatchLenSpec(s, n);
        var spans := TitleSpans(s);
        forall k | 0 <= k < |spans|
          ensures IsTitleSpan(spans[k])
        {
          if k > 0 {
            assert spans[k] == TitleSpans(s[n..])[k - 1];
          }
        }
      case None =>
        TitleSpansWellFormed(s[1..]);
    }
  }

  /** The first gap is a prefix of the document. */
  lemma {:induction false} TitleSplitHeadIsPrefix(s: string)
    ensures |TitleSplit(s)[0]| <= |s|
    ensures TitleSplit(s)[0] == s[..|TitleSplit(s)[0]|]
    decreases |s|
  {
    if s != [] {
      match MatchLen(s)
      case Some(n) =>
      case None =>
        TitleSplitHeadIsPrefix(s[1..]);
    }
  }

  /** Matches are leftmost: no match of the document, however far it reaches,
      starts inside the text before the first match the scan takes. */
  lemma {:induction false} FirstGapLeftmost(s: string)
    ensures forall i, j :: 0 <= i < |TitleSplit(s)[0]| && i <= j <= |s| ==> !IsTitleSpan(s[i..j])
    decreases |s|
  {
    if s != [] {
      match MatchLen(s)
      case Some(n) =>
      case None =>
        FirstGapLeftmost(s[1..]);
        var rest := TitleSplit(s[1..]);
        assert TitleSplit(s)[0] == [s[0]] + rest[0];
        forall i, j | 0 <= i < |TitleSplit(s)[0]| && i <= j <= |s|
          ensures !IsTitleSpan(s[i..j])
        {
          if i == 0 {
            assert s[0..j] == s[..j];
            MatchLenSpec(s, j);
          } else {
            Text.SliceOfTail(s, i, j);
          }
        }
    }
  }

  /** A page split into a single gap is that gap. */
  lemma {:induction false} TitleSplitSingle(s: string)
    ensures |TitleSplit(s)| == 1 ==> TitleSplit(s)[0] == s
    decreases |s|
  {
    if s != [] {
      match MatchLen(s)
      case Some(n) =>
      case None =>
        TitleSplitSingle(s[1..]);
        assert s == [s[0]] + s[1..];
    }
  }

  /** After the first gap comes the first match, taken from the page as it is. */
  lemma {:induction false} TitleSplitNextSpan(s: string)
    requires |TitleSplit(s)| > 1
    ensures var g, n := |TitleSplit(s)[0]|, |TitleSpans(s)[0]|;
            g + n <= |s| && TitleSpans(s)[0] == s[g..g + n]
    decreases |s|
  {
    match MatchLen(s)
    case Some(n) =>
    case None =>
      var rg, rs := TitleSplit(s[1..]), TitleSpans(s[1..]);
      assert TitleSplit(s)[0] == [s[0]] + rg[0];
      assert TitleSpans(s) == rs;
      TitleSplitNextSpan(s[1..]);
      Text.SliceOfTail(s, |rg[0]| + 1, |rg[0]| + 1 + |rs[0]|);
  }

  /** The first match is the one the scanner finds where the first gap ends.
      With `FirstGapLeftmost` this makes it the leftmost match of the page. */
  lemma {:induction false} TitleSplitNextMatch(s: string)
    requires |TitleSplit(s)| > 1
    ensures |TitleSplit(s)[0]| <= |s|
    ensures MatchLen(s[|TitleSplit(s)[0]|..]) == Some(|TitleSpans(s)[0]|)
    decreases |s|
  {
    match MatchLen(s)
    case Some(n) =>
      assert s[0..] == s;
    case None =>
      var rg, rs := TitleSplit(s[1..]), TitleSpans(s[1..]);
      assert TitleSplit(s)[0] == [s[0]] + rg[0];
      assert TitleSpans(s) == rs;
      TitleSplitNextMatch(s[1..]);
      Text.SuffixOfTail(s, |rg[0]| + 1);
  }

  /** Behind the first gap and the match after it, the remaining gaps and
      matches are those of the rest of the page: scanning resumes behind
      each match. */
  lemma {:induction false} TitleSplitNextRest(s: string)
    requires |TitleSplit(s)| > 1
    ensures var e := |TitleSplit(s)[0]| + |TitleSpans(s)[0]|;
            && e <= |s|
            && TitleSplit(s)[1..] == TitleSplit(s[e..])
            && TitleSpans(s)[1..] == TitleSpans(s[e..])
    decreases |s|
  {
    match MatchLen(s)
    case Some(n) =>
      SplitAtMatch(s, n);
      assert |TitleSplit(s)[0]| + |TitleSpans(s)[0]| == n;
    case None =>
      var rg, rs := TitleSplit(s[1..]), TitleSpans(s[1..]);
      ScanAtChar(s);
      TitleSplitNextRest(s[1..]);
      var k := |rg[0]| + |rs[0]|;
      ScanOfTailSuffix(s, k);
      assert |TitleSplit(s)[0]| + |TitleSpans(s)[0]| == k + 1;
  }

  /** A first character that starts no match joins the first gap. */
  lemma ScanAtChar(s: string)
    requires s != [] && MatchLen(s).None?
    ensures TitleSplit(s)[0] == [s[0]] + TitleSplit(s[1..])[0]
    ensures TitleSplit(s)[1..] == TitleSplit(s[1..])[1..]
    ensures TitleSpans(s) == TitleSpans(s[1..])
  {
    var rg := TitleSplit(s[1..]);
    assert ([[s[0]] + rg[0]] + rg[1..])[1..] == rg[1..];
  }

  /** Scanning a suffix of the tail is scanning the suffix one further on. */
  lemma ScanOfTailSuffix(s: string, k: nat)
    requires k + 1 <= |s|
    ensures TitleSplit(s[1..][k..]) == TitleSplit(s[k + 1..])
    ensures TitleSpans(s[1..][k..]) == TitleSpans(s[k + 1..])
  {
    Text.SuffixOfTail(s, k + 1);
  }

  lemma NoTitleSpanCons(c: char, g: string)
    requires NoTitleSpan(g)
    requires forall j :: 0 <= j <= |g| + 1 ==> !IsTitleSpan(([c] + g)[..j])
    ensures NoTitleSpan([c] + g)
  {
    var p := [c] + g;
    forall i, j | 0 <= i <= j <= |p|
      ensures !IsTitleSpan(p[i..j])
    {
      if i > 0 {
        assert p[i..j] == g[i - 1..j - 1];
      } else {
        assert p[i..j] == p[..j];
      }
    }
  }

  /** No gap holds a match. */
  lemma {:induction false} TitleSplitGapsHoldNoSpan(s: string)
    ensures forall k :: 0 <= k < |TitleSplit(s)| ==> NoTitleSpan(TitleSplit(s)[k])
    decreases |s|
  {
    var gaps := TitleSplit(s);
    if s == [] {
      assert gaps == [[]];
      assert NoTitleSpan([]);
    } else {
      match MatchLen(s)
      case Some(n) =>
        TitleSplitGapsHoldNoSpan(s[n..]);
        assert gaps == [[]] + TitleSplit(s[n..]);
        assert NoTitleSpan([]);
        forall k | 0 <= k < |gaps|
          ensures NoTitleSpan(gaps[k])
        {
          if k > 0 {
            assert gaps[k] == TitleSplit(s[n..])[k - 1];
          }
        }
      case None =>
        TitleSplitGapsHoldNoSpan(s[1..]);
        TitleSplitHeadIsPrefix(s[1..]);
        var rest := TitleSplit(s[1..]);
        var p := [s[0]] + rest[0];
        assert gaps == [p] + rest[1..];
        assert p == s[..|p|];
        forall j | 0 <= j <= |p|
          ensures !IsTitleSpan(p[..j])
        {
          assert p[..j] == s[..j];
          MatchLenSpec(s, j);
        }
        NoTitleSpanCons(s[0], rest[0]);
        forall k | 0 <= k < |gaps|
          ensures NoTitleSpan(gaps[k])
        {
          if k > 0 {
            assert gaps[k] == rest[k];
          }
        }
    }
  }

  /** A document with no single-line title span, in any case, is returned
      unchanged. */
  lemma {:induction false} NoSpanUnchanged(s: string, title: string)
    requires NoTitleSpan(s)
    ensures TitleSpans(s) == []
    ensures SubTitleTags(s, title) == s
    decreases |s|
  {
    if s != [] {
      match MatchLen(s)
      case Some(n) =>
        assert s[0..n] == s[..n];
        MatchLenSpec(s, n);
        assert false;
      case None =>
        forall i, j | 0 <= i <= j <= |s[1..]|
          ensures !IsTitleSpan(s[1..][i..j])
        {
          assert s[1..][i..j] == s[i + 1..j + 1];
        }
        NoSpanUnchanged(s[1..], title);
    }
  }

  /** A text that starts with a tag starts with a character that folds to the
      tag's first character. */
  lemma TagPrefixHead(s: string, tag: string)
    ensures tag != [] && TagPrefix(s, tag) ==> Fold(s[0]) == tag[0]
  {
    if tag != [] && TagPrefix(s, tag) {
      assert Folded(s[..|tag|])[0] == Fold(s[..|tag|][0]);
    }
  }

  /** `Folded` folds character by character. */
  lemma {:induction false} FoldedAt(x: string)
    ensures forall i :: 0 <= i < |x| ==> Folded(x)[i] == Fold(x[i])
  {
    if x != [] {
      FoldedAt(x[1..]);
    }
  }

  /** A tag, in any case, holds no newline. */
  lemma TagHasNoNewline(x: string, tag: string)
    requires Folded(x) == tag
    requires forall i :: 0 <= i < |tag| ==> tag[i] != '\n'
    ensures forall i :: 0 <= i < |x| ==> x[i] != '\n'
  {
    FoldedAt(x);
  }

  /** A tag, in any case, starts with the `<` its lower-case form starts with. */
  lemma TagStartsWithAngle(x: string, tag: string)
    requires Folded(x) == tag && tag != [] && tag[0] == '<'
    ensures x != [] && x[0] == '<'
  {
    assert Folded(x)[0] == Fold(x[0]);
  }

  /** A match lies on one line. */
  lemma SpanHasNoNewline(x: string)
    requires IsTitleSpan(x)
    ensures forall i :: 0 <= i < |x| ==> x[i] != '\n'
  {
    var y := x[|OpenTag|..];
    var o, c := x[..|OpenTag|], y[|y| - |CloseTag|..];
    assert c[..|CloseTag|] == c;
    TagHasNoNewline(o, OpenTag);
    TagHasNoNewline(c, CloseTag);
    forall i | 0 <= i < |x|
      ensures x[i] != '\n'
    {
      if i < |OpenTag| {
        assert x[i] == o[i];
      } else if i - |OpenTag| < |y| - |CloseTag| {
        assert x[i] == y[i - |OpenTag|];
      } else {
        assert x[i] == c[i - |OpenTag| - (|y| - |CloseTag|)];
      }
    }
  }

  /** A match at the front of a text ending in a newline ends before that
      newline, so what follows the text does not change it. */
  lemma MatchBeforeNewline(a: string, b: string)
    requires a != [] && a[|a| - 1] == '\n'
    ensures MatchLen(a + b) == MatchLen(a)
    ensures MatchLen(a).Some? ==> MatchLen(a).value < |a|
  {
    var s := a + b;
    if MatchLen(s).Some? {
      var n := MatchLen(s).value;
      MatchLenSpec(s, n);
      SpanHasNoNewline(s[..n]);
      assert forall i :: 0 <= i < n ==> s[i] == s[..n][i];
      assert s[|a| - 1] == '\n';
      assert a[..n] == s[..n];
      MatchLenSpec(a, n);
    }
    if MatchLen(a).Some? {
      var n := MatchLen(a).value;
      MatchLenSpec(a, n);
      SpanHasNoNewline(a[..n]);
      assert forall i :: 0 <= i < n ==> a[i] == a[..n][i];
      assert s[..n] == a[..n];
      MatchLenSpec(s, n);
    }
  }

  /** The substitution splits at a newline: no match reaches across one. */
  lemma {:induction false} SubAfterNewline(a: string, b: string, title: string)
    requires a != [] && a[|a| - 1] == '\n'
    ensures SubTitleTags(a + b, title) == SubTitleTags(a, title) + SubTitleTags(b, title)
    decreases |a|
  {
    var s := a + b;
    MatchBeforeNewline(a, b);
    match MatchLen(a)
    case Some(n) =>
      assert s[n..] == a[n..] + b;
      SubAfterNewline(a[n..], b, title);
    case None =>
      if |a| == 1 {
        assert s[1..] == b;
        assert a[1..] == [];
      } else {
        assert s[1..] == a[1..] + b;
        SubAfterNewline(a[1..], b, title);
      }
  }

  /** The substitution works separately on the text up to the end of a line
      and on what follows; text without `<` at the start of the line is copied. */
  lemma SubAfterLine(p: string, w: string, z: string, title: string)
    requires p == [] || p[|p| - 1] == '\n'
    requires forall i :: 0 <= i < |w| ==> w[i] != '<'
    ensures SubTitleTags(p + (w + z), title) == SubTitleTags(p, title) + (w + SubTitleTags(z, title))
  {
    SubSkip(w, z, title);
    if p == [] {
      assert p + (w + z) == w + z;
    } else {
      SubAfterNewline(p, w + z, title);
    }
  }

  /** Opening and closing tags, in any case, around single-line text without
      a `<` form one whole match. */
  lemma TitleSpanAround(o: string, u: string, c: string)
    requires Folded(o) == OpenTag && Folded(c) == CloseTag
    requires forall i :: 0 <= i < |u| ==> u[i] != '\n' && u[i] != '<'
    ensures IsTitleSpan(o + u + c)
  {
    var y := u + c;
    LazyBodyAround(u, c);
    OpenTagFront(o, y);
    assert o + u + c == o + y;
  }

  /** An opening tag, in any case, in front of a lazy body makes a match. */
  lemma OpenTagFront(o: string, y: string)
    requires Folded(o) == OpenTag && LazyBody(y)
    ensures IsTitleSpan(o + y)
  {
    var x := o + y;
    assert x[..|OpenTag|] == o;
    assert x[|OpenTag|..] == y;
  }

  /** Single-line text without a `<` before a closing tag is a lazy body. */
  lemma LazyBodyAround(u: string, c: string)
    requires Folded(c) == CloseTag
    requires forall i :: 0 <= i < |u| ==> u[i] != '\n' && u[i] != '<'
    ensures LazyBody(u + c)
  {
    var y := u + c;
    assert y[|y| - |CloseTag|..] == c;
    assert c[..|CloseTag|] == c;
    forall k | 0 <= k < |y| - |CloseTag|
      ensures y[k] != '\n' && !TagPrefix(y[k..], CloseTag)
    {
      assert y[k..][0] == y[k] == u[k];
      TagPrefixHead(y[k..], CloseTag);
    }
  }

  /** Text without a `<` is copied as it is. */
  lemma {:induction false} SubSkip(a: string, b: string, title: string)
    requires forall i :: 0 <= i < |a| ==> a[i] != '<'
    ensures SubTitleTags(a + b, title) == a + SubTitleTags(b, title)
  {
    if a == [] {
      assert a + b == b;
    } else {
      var a', r := a[1..], SubTitleTags(b, title);
      Text.ConsAppend(a, b);
      SubCopies(a + b, title);
      SubSkip(a', b, title);
      Text.Regroup3([a[0]], a', r);
    }
  }

  /** A first character other than `<` is copied. */
  lemma SubCopies(s: string, title: string)
    requires s != [] && s[0] != '<'
    ensures SubTitleTags(s, title) == [s[0]] + SubTitleTags(s[1..], title)
  {
    TagPrefixHead(s, OpenTag);
  }

  /** A match at the front is replaced and scanning resumes behind it. */
  lemma SubFront(x: string, b: string, title: string)
    requires IsTitleSpan(x)
    ensures SubTitleTags(x + b, title) == TitleElement(title) + SubTitleTags(b, title)
  {
    assert (x + b)[..|x|] == x;
    MatchLenSpec(x + b, |x|);
    assert (x + b)[|x|..] == b;
  }
}
