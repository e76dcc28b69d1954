/** What `main` in update_website.py derives before it first talks to GitHub:
    the input guard, the repository name, the site title and the rendered
    page; and the "live site" address it prints at the end. */
module Guild {
  import opened Wrappers
  import Text
  import TitleTag

  const SearchTerm: string := "Oklahoma City"
  const RepoPrefix: string := "The-"
  const RepoSuffix: string := "-Software-Guild"

  /** Why a run stops before anything is derived or sent. */
  datatype Stop =
    | MissingEnvironment  // CITY_INPUT or GH_TOKEN unset or empty
    | MissingTemplate     // index.html does not exist

  /** What the run goes on to publish. */
  datatype SitePlan = SitePlan(repoName: string, siteTitle: string, content: string)

  /** Python's truth test on an environment value: set and not empty. */
  predicate Present(v: Option<string>)
  {
    v.Some? && v.value != []
  }

  /** The repository name: the prefix, the city with its spaces removed, the suffix. */
  function RepoName(city: string): (name: string)
    ensures name == "The-" + Text.RemoveSpaces(city) + "-Software-Guild"
  {
    Text.RemoveSpacesIsReplace(city);
    RepoPrefix + Text.ReplaceAll(city, " ", "") + RepoSuffix
  }

  /** The repository name contains no space. */
  lemma RepoNameHasNoSpace(city: string)
    ensures forall i :: 0 <= i < |RepoName(city)| ==> RepoName(city)[i] != ' '
  {
    var mid := Text.RemoveSpaces(city);
    var name := RepoName(city);
    forall i | 0 <= i < |name|
      ensures name[i] != ' '
    {
      if 4 <= i < 4 + |mid| {
        assert name[i] == mid[i - 4];
      }
    }
  }

  /** Two cities give the same repository name exactly when they agree once
      their spaces are removed. */
  lemma RepoNameDeterminedBySpacelessCity(c1: string, c2: string)
    ensures RepoName(c1) == RepoName(c2) <==> Text.RemoveSpaces(c1) == Text.RemoveSpaces(c2)
  {
    var n1, n2 := RepoName(c1), RepoName(c2);
    if n1 == n2 {
      assert n1[4..|n1| - 15] == Text.RemoveSpaces(c1);
      assert n2[4..|n2| - 15] == Text.RemoveSpaces(c2);
    }
  }

  /** `REPO_PREFIX.strip('-')` loses its one trailing hyphen. */
  lemma PrefixStripped()
    ensures Text.Strip(RepoPrefix, '-') == "The"
  {
    assert Text.Repeat('-', 1) == "-";
    assert Text.Repeat('-', 0) == "";
    assert RepoPrefix == Text.Repeat('-', 0) + "The" + Text.Repeat('-', 1);
    Text.StripKeepsInner(0, "The", 1, '-');
  }

  /** `REPO_SUFFIX.strip('-')` loses its leading hyphen and keeps the inner one. */
  lemma SuffixStripped()
    ensures Text.Strip(RepoSuffix, '-') == "Software-Guild"
  {
    assert Text.Repeat('-', 1) == "-";
    assert Text.Repeat('-', 0) == "";
    assert RepoSuffix == Text.Repeat('-', 1) + "Software-Guild" + Text.Repeat('-', 0);
    Text.StripKeepsInner(1, "Software-Guild", 0, '-');
  }

  /** The site title: the prefix and the suffix stripped of their outer
      hyphens, around the city. The suffix keeps its inner hyphen. */
  function SiteTitle(city: string): (title: string)
    ensures title == "The " + city + " Software-Guild"
  {
    PrefixStripped();
    SuffixStripped();
    TitleShape(Text.Strip(RepoPrefix, '-'), city, Text.Strip(RepoSuffix, '-'));
    Text.Strip(RepoPrefix, '-') + " " + city + " " + Text.Strip(RepoSuffix, '-')
  }

  /** The title's pieces joined with single spaces. */
  lemma TitleShape(p: string, city: string, q: string)
    requires p == "The" && q == "Software-Guild"
    ensures p + " " + city + " " + q == "The " + city + " Software-Guild"
  {
  }

  /** The page: every "Oklahoma City" in the template replaced by the city,
      then every title span of that text replaced by the site title element. */
  function Render(city: string, template: string): (page: string)
    ensures page == Text.Join(
                      TitleTag.TitleSplit(Text.Join(Text.Split(template, SearchTerm), city)),
                      TitleTag.TitleElement(SiteTitle(city)))
  {
    var body := Text.ReplaceAll(template, SearchTerm, city);
    Text.ReplaceIsSplitJoin(template, SearchTerm, city);
    TitleTag.SubIsSplitJoin(body, SiteTitle(city));
    TitleTag.SubTitleTags(body, SiteTitle(city))
  }

  /** Without "Oklahoma City" in the template the body is left as it is, but
      the title is still substituted. */
  lemma RenderWithoutSearchTerm(city: string, template: string)
    requires !Text.Contains(template, SearchTerm)
    ensures Render(city, template) == TitleTag.SubTitleTags(template, "The " + city + " Software-Guild")
  {
    Text.ReplaceAbsent(template, SearchTerm, city);
  }

  /** The title is substituted after the body. Take a template whose title
      element (tags in any case) opens a line, behind `pre` (empty or ending
      in a newline) and `w` (no `<`, such as indentation). If the element's
      text, like the city, holds neither a newline nor a `<`, that whole
      element becomes the derived title element, whatever the body
      substitution wrote inside it. The text before it is rendered on its
      own, and `w` only has "Oklahoma City" replaced. */
  lemma TitleReplacedWhole(city: string, pre: string, w: string, o: string, u: string, c: string, rest: string)
    requires pre == [] || pre[|pre| - 1] == '\n'
    requires forall i :: 0 <= i < |w| ==> w[i] != '<'
    requires TitleTag.Folded(o) == TitleTag.OpenTag && TitleTag.Folded(c) == TitleTag.CloseTag
    requires forall i :: 0 <= i < |u| ==> u[i] != '\n' && u[i] != '<'
    requires forall i :: 0 <= i < |city| ==> city[i] != '\n' && city[i] != '<'
    ensures var title := "The " + city + " Software-Guild";
            Render(city, pre + w + (o + u + c + rest))
            == TitleTag.SubTitleTags(Text.ReplaceAll(pre, SearchTerm, city), title)
               + Text.ReplaceAll(w, SearchTerm, city)
               + TitleTag.TitleElement(title)
               + TitleTag.SubTitleTags(Text.ReplaceAll(rest, SearchTerm, city), title)
  {
    var title := SiteTitle(city);
    var y := o + u + c + rest;
    var pre', w', y' := Text.ReplaceAll(pre, SearchTerm, city), Text.ReplaceAll(w, SearchTerm, city),
                        Text.ReplaceAll(y, SearchTerm, city);
    var element, rest' := TitleTag.TitleElement(title), TitleTag.SubTitleTags(Text.ReplaceAll(rest, SearchTerm, city), title);
    TitleElementReplaced(city, o, u, c, rest);
    assert TitleTag.SubTitleTags(y', title) == element + rest';
    TitleTag.TagStartsWithAngle(o, TitleTag.OpenTag);
    assert y[0] == o[0];
    BodyAfterLine(city, pre, w, y);
    assert Render(city, pre + w + y) == TitleTag.SubTitleTags(pre' + (w' + y'), title);
    Text.ReplaceKeepsAbsent(w, SearchTerm, city, '<');
    TitleTag.SubAfterLine(pre', w', y', title);
    var front := TitleTag.SubTitleTags(pre', title);
    assert Render(city, pre + w + y) == front + (w' + (element + rest'));
    Text.Regroup(front, w', element, rest');
  }

  /** The body substitution works separately on the text up to the end of a
      line, on the text without `<` that follows, and on the rest from a `<`. */
  lemma BodyAfterLine(city: string, pre: string, w: string, y: string)
    requires pre == [] || pre[|pre| - 1] == '\n'
    requires y != [] && y[0] == '<'
    ensures var pre' := Text.ReplaceAll(pre, SearchTerm, city);
            && (pre' == [] || pre'[|pre'| - 1] == '\n')
            && Text.ReplaceAll(pre + w + y, SearchTerm, city)
               == pre' + (Text.ReplaceAll(w, SearchTerm, city) + Text.ReplaceAll(y, SearchTerm, city))
  {
    assert pre + w + y == pre + (w + y);
    Text.ReplaceSplitAt(w, y, SearchTerm, city);
    if pre == [] {
      assert pre + (w + y) == w + y;
    } else {
      Text.ReplaceAfterChar(pre, w + y, SearchTerm, city);
    }
  }

  /** When the template starts with a title element whose text, like the
      city, holds neither a newline nor a `<`, that whole element becomes the
      derived title element. */
  lemma TitleElementReplaced(city: string, o: string, u: string, c: string, rest: string)
    requires TitleTag.Folded(o) == TitleTag.OpenTag && TitleTag.Folded(c) == TitleTag.CloseTag
    requires forall i :: 0 <= i < |u| ==> u[i] != '\n' && u[i] != '<'
    requires forall i :: 0 <= i < |city| ==> city[i] != '\n' && city[i] != '<'
    ensures Render(city, o + u + c + rest)
            == TitleTag.TitleElement("The " + city + " Software-Guild")
               + TitleTag.SubTitleTags(Text.ReplaceAll(rest, SearchTerm, city), "The " + city + " Software-Guild")
  {
    var u', rest' := Text.ReplaceAll(u, SearchTerm, city), Text.ReplaceAll(rest, SearchTerm, city);
    TemplateBody(city, o, u, c, rest);
    Text.ReplaceKeepsAbsent(u, SearchTerm, city, '\n');
    Text.ReplaceKeepsAbsent(u, SearchTerm, city, '<');
    TitleTag.TitleSpanAround(o, u', c);
    TitleTag.SubFront(o + u' + c, rest', SiteTitle(city));
  }

  /** The body substitution leaves tags, in any case, as they are and works on
      the text between them separately. */
  lemma TemplateBody(city: string, o: string, u: string, c: string, rest: string)
    requires TitleTag.Folded(o) == TitleTag.OpenTag && TitleTag.Folded(c) == TitleTag.CloseTag
    ensures Text.ReplaceAll(o + u + c + rest, SearchTerm, city)
            == o + Text.ReplaceAll(u, SearchTerm, city) + c + Text.ReplaceAll(rest, SearchTerm, city)
  {
    var u', rest' := Text.ReplaceAll(u, SearchTerm, city), Text.ReplaceAll(rest, SearchTerm, city);
    TagHasNoCapitalO(o, TitleTag.OpenTag);
    TitleTail(city, u, c, rest);
    Text.ReplaceSkip(o, u + (c + rest), SearchTerm, city);
    Text.Regroup(o, u, c, rest);
    Text.Regroup(o, u', c, rest');
  }

  /** The substitution works separately on the text before a closing tag,
      in any case, and on what follows the tag; the tag stays as it is. */
  lemma TitleTail(city: string, u: string, c: string, rest: string)
    requires TitleTag.Folded(c) == TitleTag.CloseTag
    ensures Text.ReplaceAll(u + (c + rest), SearchTerm, city)
            == Text.ReplaceAll(u, SearchTerm, city) + (c + Text.ReplaceAll(rest, SearchTerm, city))
  {
    TagHasNoCapitalO(c, TitleTag.CloseTag);
    TitleTag.TagStartsWithAngle(c, TitleTag.CloseTag);
    assert (c + rest)[0] == '<';
    Text.ReplaceSplitAt(u, c + rest, SearchTerm, city);
    Text.ReplaceSkip(c, rest, SearchTerm, city);
  }

  /** A tag, in any case, holds no 'O', the first letter of "Oklahoma City". */
  lemma TagHasNoCapitalO(x: string, tag: string)
    requires TitleTag.Folded(x) == tag
    requires forall i :: 0 <= i < |tag| ==> tag[i] != 'o'
    ensures forall i :: 0 <= i < |x| ==> x[i] != 'O'
  {
    TitleTag.FoldedAt(x);
  }

  /** The rendered page grows or shrinks by the city's length difference to
      "Oklahoma City" for each occurrence, before the title is substituted. */
  lemma BodyLength(city: string, template: string)
    ensures |Text.ReplaceAll(template, SearchTerm, city)|
            == |template| + Text.Count(template, SearchTerm) * (|city| - 13)
  {
    Text.ReplaceLength(template, SearchTerm, city);
  }

  /** The guard and the derivation, in the order `main` runs them. */
  function Prepare(city: Option<string>, token: Option<string>, template: Option<string>): (r: Result<SitePlan, Stop>)
    ensures r == Failure(MissingEnvironment) <==> !Present(city) || !Present(token)
    ensures r == Failure(MissingTemplate) <==> Present(city) && Present(token) && template.None?
    ensures r.Success? <==> Present(city) && Present(token) && template.Some?
    ensures r.Success? ==>
              && r.value.repoName == "The-" + Text.RemoveSpaces(city.value) + "-Software-Guild"
              && r.value.siteTitle == "The " + city.value + " Software-Guild"
              && r.value.content == Render(city.value, template.value)
  {
    if !Present(city) || !Present(token) then Failure(MissingEnvironment)
    else if template.None? then Failure(MissingTemplate)
    else
      Success(SitePlan(RepoName(city.value), SiteTitle(city.value), Render(city.value, template.value)))
  }

  /** The printed "live site" address: every ".com" in the repository's URL
      becomes ".io". No ".com" is left, and the rest of the URL is kept. */
  function LiveUrl(htmlUrl: string): (url: string)
    ensures url == Text.Join(Text.Split(htmlUrl, ".com"), ".io")
    ensures |url| == |htmlUrl| - Text.Count(htmlUrl, ".com")
    ensures !Text.Contains(url, ".com")
  {
    Text.ReplaceIsSplitJoin(htmlUrl, ".com", ".io");
    ComRewriteLeavesNoCom(htmlUrl);
    Text.ReplaceLength(htmlUrl, ".com", ".io");
    Text.ReplaceAll(htmlUrl, ".com", ".io")
  }

  /** When the rewrite's output starts with something other than the '.' that
      starts ".io", that character is the input's first, copied. */
  lemma ComRewriteHead(t: string)
    ensures var r := Text.ReplaceAll(t, ".com", ".io");
            r != [] && r[0] != '.' ==>
              t != [] && r[0] == t[0] && r == [t[0]] + Text.ReplaceAll(t[1..], ".com", ".io")
  {
  }

  /** An inserted ".io" in front of text without ".com" makes none. */
  lemma ComFrontStep(rest: string)
    requires !Text.Contains(rest, ".com")
    ensures !Text.Contains(".io" + rest, ".com")
  {
    var r := ".io" + rest;
    forall i | 0 <= i <= |r|
      ensures !Text.OccursAt(r, ".com", i)
    {
      if i >= 3 {
        if i + 4 <= |r| {
          assert rest[i - 3..i + 1] == r[i..i + 4];
        }
        assert !Text.OccursAt(rest, ".com", i - 3);
      } else if i + 4 <= |r| {
        assert r[i..i + 4][0] == r[i] && r[i..i + 4][1] == r[i + 1];
      }
    }
  }

  /** A character copied in front of a rewritten tail makes no ".com". */
  lemma ComCopyStep(t: string)
    requires t != [] && !Text.StartsWith(t, ".com")
    requires !Text.Contains(Text.ReplaceAll(t[1..], ".com", ".io"), ".com")
    ensures !Text.Contains(Text.ReplaceAll(t, ".com", ".io"), ".com")
  {
    var r := Text.ReplaceAll(t, ".com", ".io");
    assert r[1..] == Text.ReplaceAll(t[1..], ".com", ".io");
    ComCopyHead(t);
    assert !Text.StartsWith(r, ".com");
    Text.ContainsFrontOrTail(r, ".com");
  }

  /** The copied character does not start a ".com": the "com" after it
      would have to be copied too, and the input would start with ".com". */
  lemma ComCopyHead(t: string)
    requires t != [] && !Text.StartsWith(t, ".com")
    ensures !Text.OccursAt(Text.ReplaceAll(t, ".com", ".io"), ".com", 0)
  {
    var r := Text.ReplaceAll(t, ".com", ".io");
    var rest := Text.ReplaceAll(t[1..], ".com", ".io");
    assert r == [t[0]] + rest;
    ComOrigin(t[1..]);
    assert |r| >= 4 ==> r[0..4] == [t[0]] + rest[..3];
    assert |t| >= 4 ==> t[..4] == [t[0]] + t[1..][..3];
    assert |r| >= 4 ==> r[0..4][0] == t[0] && r[0..4][1..] == rest[..3];
    assert ".com"[0] == '.' && ".com"[1..] == "com";
  }

  /** Output starting "com" comes from input starting "com". */
  lemma ComOrigin(u: string)
    ensures var r := Text.ReplaceAll(u, ".com", ".io");
            |r| >= 3 && r[..3] == "com" ==> |u| >= 3 && u[..3] == "com"
  {
    var r := Text.ReplaceAll(u, ".com", ".io");
    if |r| >= 3 && r[..3] == "com" {
      assert r[0] == r[..3][0] == 'c';
      ComRewriteHead(u);
      var r1 := Text.ReplaceAll(u[1..], ".com", ".io");
      assert r == [u[0]] + r1;
      assert r1[..2] == r[1..3] == r[..3][1..];
      OmOrigin(u[1..]);
      assert u[..3] == [u[0]] + u[1..][..2];
    }
  }

  /** Output starting "om" comes from input starting "om". */
  lemma OmOrigin(u: string)
    ensures var r := Text.ReplaceAll(u, ".com", ".io");
            |r| >= 2 && r[..2] == "om" ==> |u| >= 2 && u[..2] == "om"
  {
    var r := Text.ReplaceAll(u, ".com", ".io");
    if |r| >= 2 && r[..2] == "om" {
      assert r[0] == r[..2][0] == 'o';
      ComRewriteHead(u);
      var r1 := Text.ReplaceAll(u[1..], ".com", ".io");
      assert r == [u[0]] + r1;
      assert r1[0] == r[1] == r[..2][1] == 'm';
      ComRewriteHead(u[1..]);
      assert u[..2] == [u[0]] + [u[1..][0]];
    }
  }

  /** Replacing ".com" by ".io" leaves no ".com": no new one can form across
      an inserted ".io", since none of its characters can take part in one. */
  lemma {:induction false} ComRewriteLeavesNoCom(t: string)
    ensures !Text.Contains(Text.ReplaceAll(t, ".com", ".io"), ".com")
    decreases |t|
  {
    if t == [] {
      assert Text.ReplaceAll(t, ".com", ".io") == [];
    } else if Text.StartsWith(t, ".com") {
      ComRewriteLeavesNoCom(t[4..]);
      ComFrontStep(Text.ReplaceAll(t[4..], ".com", ".io"));
    } else {
      ComRewriteLeavesNoCom(t[1..]);
      ComCopyStep(t);
    }
  }
}
