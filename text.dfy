/** The operations of Python's `str` that the site derivation relies on:
    `replace`, `split`/`join` (the reference against which `replace` is proved),
    `count`, `in`, `strip` with one character, and the space filter behind
    `city.replace(' ', '')`. */
module Text {

  /** `pat` occurs in `s` starting at index `i`. */
  predicate OccursAt(s: string, pat: string, i: int)
  {
    0 <= i && i + |pat| <= |s| && s[i..i + |pat|] == pat
  }

  /** Python's `pat in s`. */
  predicate Contains(s: string, pat: string)
  {
    exists i :: 0 <= i <= |s| && OccursAt(s, pat, i)
  }

  /** Python's `s.startswith(pat)`. */
  predicate StartsWith(s: string, pat: string)
  {
    |pat| <= |s| && s[..|pat|] == pat
  }

  /** Python's `s.count(pat)` for a non-empty `pat`: the number of occurrences
      found scanning left to right, each search resuming after the previous one. */
  function Count(s: string, pat: string): nat
    requires pat != []
    decreases |s|
  {
    if s == [] then 0
    else if StartsWith(s, pat) then 1 + Count(s[|pat|..], pat)
    else Count(s[1..], pat)
  }

  /** The counted occurrences do not overlap, so together they fit in `s`. */
  lemma {:induction false} CountBound(s: string, pat: string)
    requires pat != []
    ensures Count(s, pat) * |pat| <= |s|
    decreases |s|
  {
    if s == [] {
    } else if StartsWith(s, pat) {
      CountBound(s[|pat|..], pat);
      CountStep(Count(s, pat), Count(s[|pat|..], pat), |pat|, |s|);
    } else {
      CountBound(s[1..], pat);
    }
  }

  /** The arithmetic of one counted occurrence. */
  lemma CountStep(n: int, k: int, p: int, len: int)
    requires n == 1 + k && k * p <= len - p
    ensures n * p <= len
  {
    assert (1 + k) * p == p + k * p;
  }

  /** Python's `s.replace(pat, rep)` for a non-empty `pat`: every leftmost,
      non-overlapping occurrence of `pat` is replaced by `rep`. */
  function ReplaceAll(s: string, pat: string, rep: string): (r: string)
    requires pat != []
    ensures Count(s, pat) == 0 ==> r == s
    decreases |s|
  {
    if s == [] then []
    else if StartsWith(s, pat) then rep + ReplaceAll(s[|pat|..], pat, rep)
    else
      assert s == [s[0]] + s[1..];
      [s[0]] + ReplaceAll(s[1..], pat, rep)
  }

  /** Each replaced occurrence changes the length by the difference between
      the replacement's and the pattern's lengths. */
  lemma {:induction false} ReplaceLength(s: string, pat: string, rep: string)
    requires pat != []
    ensures |ReplaceAll(s, pat, rep)| == |s| + Count(s, pat) * (|rep| - |pat|)
    decreases |s|
  {
    if s == [] {
    } else if StartsWith(s, pat) {
      var rest := s[|pat|..];
      ReplaceLength(rest, pat, rep);
      assert |ReplaceAll(s, pat, rep)| == |rep| + |ReplaceAll(rest, pat, rep)|;
      assert Count(s, pat) == 1 + Count(rest, pat);
      LengthStep(|ReplaceAll(s, pat, rep)|, |rep|, |pat|, |rest|, Count(rest, pat));
    } else {
      ReplaceLength(s[1..], pat, rep);
      assert |ReplaceAll(s, pat, rep)| == 1 + |ReplaceAll(s[1..], pat, rep)|;
      assert Count(s, pat) == Count(s[1..], pat);
    }
  }

  /** The arithmetic of one replaced occurrence. */
  lemma LengthStep(total: int, r: int, p: int, rest: int, k: int)
    requires total == r + (rest + k * (r - p))
    ensures total == (p + rest) + (1 + k) * (r - p)
  {
    assert (1 + k) * (r - p) == (r - p) + k * (r - p);
  }

  /** Python's `s.split(pat)` for a non-empty `pat`: the text between the
      occurrences that `ReplaceAll` replaces. */
  function Split(s: string, pat: string): (parts: seq<string>)
    requires pat != []
    ensures |parts| == Count(s, pat) + 1
    decreases |s|
  {
    if s == [] then [[]]
    else if StartsWith(s, pat) then [[]] + Split(s[|pat|..], pat)
    else
      var rest := Split(s[1..], pat);
      [[s[0]] + rest[0]] + rest[1..]
  }

  /** Python's `sep.join(parts)`. */
  function Join(parts: seq<string>, sep: string): string
  {
    if |parts| == 0 then []
    else if |parts| == 1 then parts[0]
    else parts[0] + sep + Join(parts[1..], sep)
  }

  lemma JoinConsHead(c: char, parts: seq<string>, sep: string)
    requires |parts| >= 1
    ensures Join([[c] + parts[0]] + parts[1..], sep) == [c] + Join(parts, sep)
  {
    var ps := [[c] + parts[0]] + parts[1..];
    if |parts| > 1 {
      assert ps[1..] == parts[1..];
    }
  }

  lemma JoinConsEmpty(parts: seq<string>, sep: string)
    requires |parts| >= 1
    ensures Join([[]] + parts, sep) == sep + Join(parts, sep)
  {
    assert ([[]] + parts)[1..] == parts;
  }

  /** `replace` is `split` followed by `join` with the replacement. */
  lemma {:induction false} ReplaceIsSplitJoin(s: string, pat: string, rep: string)
    requires pat != []
    ensures ReplaceAll(s, pat, rep) == Join(Split(s, pat), rep)
    decreases |s|
  {
    if s == [] {
    } else if StartsWith(s, pat) {
      ReplaceIsSplitJoin(s[|pat|..], pat, rep);
      JoinConsEmpty(Split(s[|pat|..], pat), rep);
    } else {
      ReplaceIsSplitJoin(s[1..], pat, rep);
      JoinConsHead(s[0], Split(s[1..], pat), rep);
    }
  }

  /** Replacing a pattern by itself changes nothing. */
  lemma {:induction false} ReplaceSelf(s: string, pat: string)
    requires pat != []
    ensures ReplaceAll(s, pat, pat) == s
    decreases |s|
  {
    if s == [] {
    } else if StartsWith(s, pat) {
      ReplaceSelf(s[|pat|..], pat);
      assert s == s[..|pat|] + s[|pat|..];
    } else {
      ReplaceSelf(s[1..], pat);
      assert s == [s[0]] + s[1..];
    }
  }

  /** Joining the parts of a split with the separator gives back the input. */
  lemma {:induction false} SplitJoinRoundTrip(s: string, pat: string)
    requires pat != []
    ensures Join(Split(s, pat), pat) == s
  {
    ReplaceIsSplitJoin(s, pat, pat);
    ReplaceSelf(s, pat);
  }

  /** The first part of a split is a prefix of the input. */
  lemma {:induction false} SplitHeadIsPrefix(s: string, pat: string)
    requires pat != []
    ensures |Split(s, pat)[0]| <= |s|
    ensures Split(s, pat)[0] == s[..|Split(s, pat)[0]|]
    decreases |s|
  {
    if s == [] {
    } else if StartsWith(s, pat) {
    } else {
      SplitHeadIsPrefix(s[1..], pat);
      SplitAtChar(s, pat);
      PrefixCons(s, Split(s[1..], pat)[0]);
    }
  }

  /** A prefix of the tail, behind the first character, is a prefix. */
  lemma PrefixCons(s: string, head: string)
    requires s != [] && |head| < |s| && head == s[1..][..|head|]
    ensures [s[0]] + head == s[..|head| + 1]
  {
    assert head == s[1..|head| + 1];
  }

  /** Occurrences are cut leftmost: none starts inside the first part. */
  lemma {:induction false} SplitFirstPartLeftmost(s: string, pat: string)
    requires pat != []
    ensures forall i :: 0 <= i < |Split(s, pat)[0]| ==> !OccursAt(s, pat, i)
    decreases |s|
  {
    if s != [] && !StartsWith(s, pat) {
      SplitFirstPartLeftmost(s[1..], pat);
      var rest := Split(s[1..], pat);
      assert Split(s, pat)[0] == [s[0]] + rest[0];
      forall i | 0 <= i < |Split(s, pat)[0]|
        ensures !OccursAt(s, pat, i)
      {
        if i == 0 {
          if |pat| <= |s| {
            assert s[0..|pat|] == s[..|pat|];
          }
        } else {
          if i + |pat| <= |s| {
            assert s[1..][i - 1..i - 1 + |pat|] == s[i..i + |pat|];
          }
          assert !OccursAt(s[1..], pat, i - 1);
        }
      }
    }
  }

  /** A split into a single part is the input itself. */
  lemma {:induction false} SplitSingle(s: string, pat: string)
    requires pat != []
    ensures |Split(s, pat)| == 1 ==> Split(s, pat)[0] == s
    decreases |s|
  {
    if s != [] && !StartsWith(s, pat) {
      SplitSingle(s[1..], pat);
      assert s == [s[0]] + s[1..];
    }
  }

  /** After the first part comes an occurrence. With `SplitFirstPartLeftmost`
      it is the leftmost one. */
  lemma {:induction false} SplitNextOccurrence(s: string, pat: string)
    requires pat != [] && |Split(s, pat)| > 1
    ensures OccursAt(s, pat, |Split(s, pat)[0]|)
    decreases |s|
  {
    if StartsWith(s, pat) {
      assert s[0..|pat|] == s[..|pat|];
    } else {
      assert s != [];
      var rest := Split(s[1..], pat);
      assert Split(s, pat)[0] == [s[0]] + rest[0];
      SplitNextOccurrence(s[1..], pat);
      var n := |rest[0]|;
      assert OccursAt(s[1..], pat, n);
      SliceOfTail(s, n + 1, n + 1 + |pat|);
    }
  }

  /** The parts after the first are the split of what follows the occurrence
      behind it: splitting resumes behind each occurrence. */
  lemma {:induction false} SplitNextRest(s: string, pat: string)
    requires pat != [] && |Split(s, pat)| > 1
    ensures |Split(s, pat)[0]| + |pat| <= |s|
    ensures Split(s, pat)[1..] == Split(s[|Split(s, pat)[0]| + |pat|..], pat)
    decreases |s|
  {
    if StartsWith(s, pat) {
      SplitAtPattern(s, pat);
    } else {
      SplitAtChar(s, pat);
      SplitNextRest(s[1..], pat);
      SplitNextRestAtChar(s, pat);
    }
  }

  /** The step of `SplitNextRest` over a first character that starts no occurrence. */
  lemma SplitNextRestAtChar(s: string, pat: string)
    requires pat != [] && s != [] && !StartsWith(s, pat)
    requires |Split(s[1..], pat)[0]| + |pat| <= |s| - 1
    requires Split(s[1..], pat)[1..] == Split(s[1..][|Split(s[1..], pat)[0]| + |pat|..], pat)
    ensures |Split(s, pat)[0]| + |pat| <= |s|
    ensures Split(s, pat)[1..] == Split(s[|Split(s, pat)[0]| + |pat|..], pat)
  {
    var p, rest := Split(s, pat), Split(s[1..], pat);
    SplitAtChar(s, pat);
    var k := |rest[0]| + |pat|;
    SplitOfTailSuffix(s, pat, k);
    assert |p[0]| + |pat| == k + 1;
  }

  /** Splitting a suffix of the tail is splitting the suffix one further on. */
  lemma SplitOfTailSuffix(s: string, pat: string, k: nat)
    requires pat != [] && k + 1 <= |s|
    ensures Split(s[1..][k..], pat) == Split(s[k + 1..], pat)
  {
    SuffixOfTail(s, k + 1);
  }

  /** An occurrence at the front ends an empty first part. */
  lemma SplitAtPattern(s: string, pat: string)
    requires pat != [] && StartsWith(s, pat)
    ensures Split(s, pat)[0] == [] && Split(s, pat)[1..] == Split(s[|pat|..], pat)
    ensures |Split(s, pat)[0]| + |pat| <= |s|
    ensures Split(s, pat)[1..] == Split(s[|Split(s, pat)[0]| + |pat|..], pat)
  {
    assert s != [];
    var rest := Split(s[|pat|..], pat);
    assert ([[]] + rest)[1..] == rest;
  }

  /** A first character that starts no occurrence joins the first part. */
  lemma SplitAtChar(s: string, pat: string)
    requires pat != [] && s != [] && !StartsWith(s, pat)
    ensures Split(s, pat)[0] == [s[0]] + Split(s[1..], pat)[0]
    ensures Split(s, pat)[1..] == Split(s[1..], pat)[1..]
    ensures |Split(s, pat)| == |Split(s[1..], pat)|
  {
    var rest := Split(s[1..], pat);
    assert ([[s[0]] + rest[0]] + rest[1..])[1..] == rest[1..];
  }

  /** A slice of the tail is the slice one further on. */
  lemma SliceOfTail(s: string, i: nat, j: nat)
    requires 1 <= i <= j <= |s|
    ensures s[1..][i - 1..j - 1] == s[i..j]
  {
  }

  /** A suffix of the tail is the suffix one further on. */
  lemma SuffixOfTail(s: string, i: nat)
    requires 1 <= i <= |s|
    ensures s[1..][i - 1..] == s[i..]
  {
  }

  /** The first part of a split does not contain the pattern. */
  lemma SplitHeadAvoidsPattern(s: string, pat: string)
    requires pat != []
    ensures !Contains(Split(s, pat)[0], pat)
  {
    SplitHeadIsPrefix(s, pat);
    SplitFirstPartLeftmost(s, pat);
    var p := Split(s, pat)[0];
    forall i | 0 <= i <= |p|
      ensures !OccursAt(p, pat, i)
    {
      if i + |pat| <= |p| {
        assert p[i..i + |pat|] == s[i..i + |pat|];
        assert !OccursAt(s, pat, i);
      }
    }
  }

  /** No part of a split contains the pattern: every occurrence has been cut out. */
  lemma {:induction false} SplitPartsAvoidPattern(s: string, pat: string)
    requires pat != []
    ensures forall k :: 0 <= k < |Split(s, pat)| ==> !Contains(Split(s, pat)[k], pat)
    decreases |s|
  {
    var parts := Split(s, pat);
    SplitHeadAvoidsPattern(s, pat);
    if |parts| > 1 {
      SplitNextRest(s, pat);
      var e := |parts[0]| + |pat|;
      SplitPartsAvoidPattern(s[e..], pat);
      PartsAvoidPattern(parts, Split(s[e..], pat), pat);
    } else {
      PartsAvoidPattern(parts, [], pat);
    }
  }

  /** A first part without the pattern in front of parts without it. */
  lemma PartsAvoidPattern(parts: seq<string>, tail: seq<string>, pat: string)
    requires parts != [] && parts[1..] == tail && !Contains(parts[0], pat)
    requires forall k :: 0 <= k < |tail| ==> !Contains(tail[k], pat)
    ensures forall k :: 0 <= k < |parts| ==> !Contains(parts[k], pat)
  {
    forall k | 0 < k < |parts|
      ensures !Contains(parts[k], pat)
    {
      assert parts[k] == tail[k - 1];
    }
  }

  /** An occurrence in the tail is an occurrence in the whole. */
  lemma ContainsTail(s: string, pat: string)
    requires s != [] && Contains(s[1..], pat)
    ensures Contains(s, pat)
  {
    var i :| 0 <= i <= |s[1..]| && OccursAt(s[1..], pat, i);
    assert s[i + 1..i + 1 + |pat|] == s[1..][i..i + |pat|];
    assert OccursAt(s, pat, i + 1);
  }

  /** Concatenation regrouped from the right to the left. */
  lemma Regroup(a: string, b: string, c: string, d: string)
    ensures a + (b + (c + d)) == a + b + c + d
  {
  }

  /** An occurrence is at the front or in the tail. */
  lemma ContainsFrontOrTail(s: string, pat: string)
    requires pat != []
    ensures Contains(s, pat) ==> StartsWith(s, pat) || (s != [] && Contains(s[1..], pat))
  {
    if Contains(s, pat) && !StartsWith(s, pat) {
      ContainsNotAtFront(s, pat);
    }
  }

  /** An occurrence that is not at the front lies in the tail. */
  lemma ContainsNotAtFront(s: string, pat: string)
    requires pat != [] && Contains(s, pat) && !StartsWith(s, pat)
    ensures s != [] && Contains(s[1..], pat)
  {
    var i :| 0 <= i <= |s| && OccursAt(s, pat, i);
    assert i != 0;
    assert s[1..][i - 1..i - 1 + |pat|] == s[i..i + |pat|];
    assert OccursAt(s[1..], pat, i - 1);
  }

  /** `s.count(pat) == 0` exactly when `pat not in s`. */
  lemma {:induction false} CountZeroIffAbsent(s: string, pat: string)
    requires pat != []
    ensures Count(s, pat) == 0 <==> !Contains(s, pat)
    decreases |s|
  {
    if s == [] {
      assert !Contains(s, pat);
    } else if StartsWith(s, pat) {
      assert OccursAt(s, pat, 0);
    } else {
      CountZeroIffAbsent(s[1..], pat);
      if Contains(s, pat) {
        ContainsNotAtFront(s, pat);
      }
      if Contains(s[1..], pat) {
        ContainsTail(s, pat);
      }
    }
  }

  /** Without an occurrence of the pattern, `replace` is the identity and
      `split` yields the input as its only part. */
  lemma ReplaceAbsent(s: string, pat: string, rep: string)
    requires pat != [] && !Contains(s, pat)
    ensures Split(s, pat) == [s]
    ensures ReplaceAll(s, pat, rep) == s
  {
    CountZeroIffAbsent(s, pat);
    SplitJoinRoundTrip(s, pat);
    ReplaceIsSplitJoin(s, pat, rep);
  }

  /** An occurrence at the front is replaced and scanning resumes behind it. */
  lemma ReplaceFront(pat: string, b: string, rep: string)
    requires pat != []
    ensures ReplaceAll(pat + b, pat, rep) == rep + ReplaceAll(b, pat, rep)
  {
    assert (pat + b)[..|pat|] == pat;
    assert (pat + b)[|pat|..] == b;
  }

  /** Text in which the pattern's first character never appears is copied as it is. */
  lemma {:induction false} ReplaceSkip(a: string, b: string, pat: string, rep: string)
    requires pat != [] && forall i :: 0 <= i < |a| ==> a[i] != pat[0]
    ensures ReplaceAll(a + b, pat, rep) == a + ReplaceAll(b, pat, rep)
  {
    if a == [] {
      assert a + b == b;
    } else {
      var s := a + b;
      assert s[0] == a[0];
      assert !StartsWith(s, pat);
      assert s[1..] == a[1..] + b;
      ReplaceSkip(a[1..], b, pat, rep);
    }
  }

  /** Replacing works piece by piece across a boundary that no occurrence can
      cross: one whose next character does not occur in the pattern. */
  lemma {:induction false} ReplaceSplitAt(x: string, y: string, pat: string, rep: string)
    requires pat != [] && y != []
    requires forall i :: 0 <= i < |pat| ==> pat[i] != y[0]
    ensures ReplaceAll(x + y, pat, rep) == ReplaceAll(x, pat, rep) + ReplaceAll(y, pat, rep)
    decreases |x|
  {
    var s := x + y;
    if x == [] {
      assert s == y;
    } else if StartsWith(s, pat) {
      PrefixAcross(x, y, pat);
      assert |pat| <= |x|;
      assert x[..|pat|] == s[..|pat|];
      assert s[|pat|..] == x[|pat|..] + y;
      ReplaceSplitAt(x[|pat|..], y, pat, rep);
    } else {
      if |pat| <= |x| {
        assert x[..|pat|] == s[..|pat|];
      }
      assert s[1..] == x[1..] + y;
      ReplaceSplitAt(x[1..], y, pat, rep);
    }
  }

  /** No occurrence crosses a character the pattern does not hold: replacing
      distributes over a concatenation whose first part ends in one, and that
      character stays at the end of the first part's replacement. */
  lemma ReplaceAfterChar(x: string, y: string, pat: string, rep: string)
    requires pat != [] && x != []
    requires forall i :: 0 <= i < |pat| ==> pat[i] != x[|x| - 1]
    ensures ReplaceAll(x + y, pat, rep) == ReplaceAll(x, pat, rep) + ReplaceAll(y, pat, rep)
    ensures var r := ReplaceAll(x, pat, rep); r != [] && r[|r| - 1] == x[|x| - 1]
  {
    var p, ch := x[..|x| - 1], [x[|x| - 1]];
    var p', y' := ReplaceAll(p, pat, rep), ReplaceAll(y, pat, rep);
    LastSplit(x);
    Regroup3(p, ch, y);
    ReplaceSplitAt(p, ch + y, pat, rep);
    ReplaceSkip(ch, y, pat, rep);
    ReplaceSplitAt(p, ch, pat, rep);
    ReplaceSkip(ch, [], pat, rep);
    assert ch + [] == ch;
    Regroup3(p', ch, y');
  }

  /** A non-empty string is its front and its last character. */
  lemma LastSplit(x: string)
    requires x != []
    ensures x == x[..|x| - 1] + [x[|x| - 1]]
  {
  }

  /** The head and tail of a concatenation with a non-empty front. */
  lemma ConsAppend(a: string, b: string)
    requires a != []
    ensures (a + b)[0] == a[0] && (a + b)[1..] == a[1..] + b && [a[0]] + a[1..] == a
  {
  }

  /** Concatenation regrouped. */
  lemma Regroup3(a: string, b: string, c: string)
    ensures a + b + c == a + (b + c)
  {
  }

  /** An occurrence at the front that runs past `x` holds `y`'s first character. */
  lemma PrefixAcross(x: string, y: string, pat: string)
    ensures StartsWith(x + y, pat) && |x| < |pat| && y != [] ==> pat[|x|] == y[0]
  {
    if StartsWith(x + y, pat) && |x| < |pat| && y != [] {
      assert (x + y)[..|pat|][|x|] == (x + y)[|x|];
    }
  }

  /** A character in neither the text nor the replacement is not in the result. */
  lemma {:induction false} ReplaceKeepsAbsent(s: string, pat: string, rep: string, ch: char)
    requires pat != []
    requires forall i :: 0 <= i < |s| ==> s[i] != ch
    requires forall i :: 0 <= i < |rep| ==> rep[i] != ch
    ensures forall i :: 0 <= i < |ReplaceAll(s, pat, rep)| ==> ReplaceAll(s, pat, rep)[i] != ch
    decreases |s|
  {
    if s == [] {
    } else if StartsWith(s, pat) {
      ReplaceKeepsAbsent(s[|pat|..], pat, rep, ch);
    } else {
      ReplaceKeepsAbsent(s[1..], pat, rep, ch);
    }
  }

  /** The characters of `s` other than spaces, in their order: what
      `s.replace(' ', '')` yields. */
  function RemoveSpaces(s: string): (r: string)
    ensures |r| <= |s|
    ensures forall i :: 0 <= i < |r| ==> r[i] != ' '
  {
    if s == [] then []
    else (if s[0] == ' ' then [] else [s[0]]) + RemoveSpaces(s[1..])
  }

  /** `RemoveSpaces` is Python's `replace(' ', '')`. */
  lemma {:induction false} RemoveSpacesIsReplace(s: string)
    ensures RemoveSpaces(s) == ReplaceAll(s, " ", "")
  {
    if s != [] {
      RemoveSpacesIsReplace(s[1..]);
    }
  }

  /** Removing spaces works piece by piece, so the kept characters keep their order. */
  lemma {:induction false} RemoveSpacesAppend(a: string, b: string)
    ensures RemoveSpaces(a + b) == RemoveSpaces(a) + RemoveSpaces(b)
  {
    if a == [] {
      assert a + b == b;
    } else {
      assert (a + b)[1..] == a[1..] + b;
      RemoveSpacesAppend(a[1..], b);
    }
  }

  /** Every character other than a space is kept as often as it occurs. */
  lemma {:induction false} RemoveSpacesKeepsOthers(s: string)
    ensures multiset(RemoveSpaces(s))[' '] == 0
    ensures forall c :: c != ' ' ==> multiset(RemoveSpaces(s))[c] == multiset(s)[c]
  {
    if s != [] {
      RemoveSpacesKeepsOthers(s[1..]);
      assert s == [s[0]] + s[1..];
    }
  }

  /** A string without spaces is its own `RemoveSpaces`. */
  lemma {:induction false} RemoveSpacesFixed(s: string)
    requires forall i :: 0 <= i < |s| ==> s[i] != ' '
    ensures RemoveSpaces(s) == s
  {
    if s != [] {
      RemoveSpacesFixed(s[1..]);
    }
  }

  /** Python's `s.lstrip(c)`: the longest suffix of `s` not starting with `c`
      after dropping only copies of `c`. */
  function StripLeft(s: string, c: char): (r: string)
    ensures |r| <= |s| && r == s[|s| - |r|..]
    ensures forall k :: 0 <= k < |s| - |r| ==> s[k] == c
    ensures r == [] || r[0] != c
    decreases |s|
  {
    if s != [] && s[0] == c then StripLeft(s[1..], c) else s
  }

  /** Python's `s.rstrip(c)`. */
  function StripRight(s: string, c: char): (r: string)
    ensures |r| <= |s| && r == s[..|r|]
    ensures forall k :: |r| <= k < |s| ==> s[k] == c
    ensures r == [] || r[|r| - 1] != c
    decreases |s|
  {
    if s != [] && s[|s| - 1] == c then StripRight(s[..|s| - 1], c) else s
  }

  /** Python's `s.strip(c)`: copies of `c` are removed at both ends only. */
  function Strip(s: string, c: char): (r: string)
    ensures |r| <= |s|
    ensures r == [] || (r[0] != c && r[|r| - 1] != c)
    ensures r == [] <==> forall k :: 0 <= k < |s| ==> s[k] == c
  {
    var l := StripLeft(s, c);
    assert l != [] ==> l[0] == s[|s| - |l|];
    assert l == [] ==> forall k :: 0 <= k < |s| ==> s[k] == c;
    StripRight(l, c)
  }

  function Repeat(c: char, n: nat): (r: string)
  {
    seq(n, _ => c)
  }

  /** A run of `c` starts and ends with one `c` more than the shorter run. */
  lemma RepeatEnds(c: char, n: nat)
    requires n > 0
    ensures Repeat(c, n) == [c] + Repeat(c, n - 1) == Repeat(c, n - 1) + [c]
  {
  }

  lemma {:induction false} StripLeftRun(a: nat, t: string, c: char)
    requires t != [] && t[0] != c
    ensures StripLeft(Repeat(c, a) + t, c) == t
  {
    if a > 0 {
      RunFront(c, a, t);
      StripLeftRun(a - 1, t, c);
    } else {
      RunNone(c, t);
    }
  }

  /** A run in front of `t` starts with `c`, and the run one shorter follows it. */
  lemma RunFront(c: char, a: nat, t: string)
    requires a > 0
    ensures var s := Repeat(c, a) + t; s != [] && s[0] == c && s[1..] == Repeat(c, a - 1) + t
  {
    RepeatEnds(c, a);
    assert Repeat(c, a) + t == [c] + (Repeat(c, a - 1) + t);
  }

  /** An empty run adds nothing. */
  lemma RunNone(c: char, t: string)
    ensures Repeat(c, 0) + t == t && t + Repeat(c, 0) == t
  {
  }

  lemma {:induction false} StripRightRun(t: string, b: nat, c: char)
    requires t != [] && t[|t| - 1] != c
    ensures StripRight(t + Repeat(c, b), c) == t
  {
    if b > 0 {
      RunBack(t, c, b);
      StripRightRun(t, b - 1, c);
    } else {
      RunNone(c, t);
    }
  }

  /** A run behind `t` ends with `c`, and the run one shorter precedes it. */
  lemma RunBack(t: string, c: char, b: nat)
    requires b > 0
    ensures var s := t + Repeat(c, b); s != [] && s[|s| - 1] == c && s[..|s| - 1] == t + Repeat(c, b - 1)
  {
    RepeatEnds(c, b);
    assert t + Repeat(c, b) == (t + Repeat(c, b - 1)) + [c];
  }

  /** `strip` removes exactly the outer runs of `c`; copies of `c` inside are kept. */
  lemma StripKeepsInner(a: nat, m: string, b: nat, c: char)
    requires m != [] && m[0] != c && m[|m| - 1] != c
    ensures Strip(Repeat(c, a) + m + Repeat(c, b), c) == m
  {
    assert Repeat(c, a) + m + Repeat(c, b) == Repeat(c, a) + (m + Repeat(c, b));
    StripLeftRun(a, m + Repeat(c, b), c);
    StripRightRun(m, b, c);
  }
}
