/** Worked examples of the derivation on concrete inputs. */
module Scenarios {
  import Text
  import TitleTag
  import Guild

  /** The upper-case tags of the template fold to the tags the pattern names. */
  lemma UpperTags(o: string, c: string)
    requires o == "<TITLE>" && c == "</TITLE>"
    ensures TitleTag.Folded(o) == TitleTag.OpenTag && TitleTag.Folded(c) == TitleTag.CloseTag
  {
    TitleTag.FoldedAt(o);
    TitleTag.FoldedAt(c);
  }

  /** The upper-case tags of the template match; the element written back is lower-case. */
  lemma TulsaTitleSpan(o: string, u: string, c: string)
    requires o == "<TITLE>" && u == "Tulsa" && c == "</TITLE>"
    ensures TitleTag.IsTitleSpan(o + u + c)
  {
    UpperTags(o, c);
    TitleTag.TitleSpanAround(o, u, c);
  }

  /** An occurrence of "Oklahoma City" behind text without an 'O' becomes the city. */
  lemma OneOccurrence(a: string, rest: string, city: string)
    requires forall i :: 0 <= i < |a| ==> a[i] != 'O'
    ensures Text.ReplaceAll(a + (Guild.SearchTerm + rest), Guild.SearchTerm, city)
            == a + (city + Text.ReplaceAll(rest, Guild.SearchTerm, city))
  {
    Text.ReplaceSkip(a, Guild.SearchTerm + rest, Guild.SearchTerm, city);
    Text.ReplaceFront(Guild.SearchTerm, rest, city);
  }

  /** Text without an 'O' holds no "Oklahoma City". */
  lemma NoOccurrence(c: string, city: string)
    requires forall i :: 0 <= i < |c| ==> c[i] != 'O'
    ensures Text.ReplaceAll(c, Guild.SearchTerm, city) == c
  {
    Text.ReplaceSkip(c, [], Guild.SearchTerm, city);
    assert c + [] == c;
  }

  /** The only occurrence of "Oklahoma City", between texts without an 'O',
      becomes the city. */
  lemma OnlyOccurrence(a: string, c: string, city: string)
    requires forall i :: 0 <= i < |a| ==> a[i] != 'O'
    requires forall i :: 0 <= i < |c| ==> c[i] != 'O'
    ensures Text.ReplaceAll(a + (Guild.SearchTerm + c), Guild.SearchTerm, city) == a + (city + c)
  {
    OneOccurrence(a, c, city);
    NoOccurrence(c, city);
  }

  /** The Tulsa template around its title element. */
  lemma TulsaTemplateShape(template: string)
    requires template == "<TITLE>Oklahoma City</TITLE><p>Oklahoma City</p>"
    ensures template == "<TITLE>" + Guild.SearchTerm + "</TITLE>" + "<p>Oklahoma City</p>"
  {
  }

  /** The text behind the title element around its "Oklahoma City". */
  lemma TulsaRestShape(rest: string)
    requires rest == "<p>Oklahoma City</p>"
    ensures rest == "<p>" + (Guild.SearchTerm + "</p>")
  {
  }

  /** The text behind the title element, rendered for Tulsa. */
  lemma TulsaRest(rest: string, city: string)
    requires rest == "<p>Oklahoma City</p>"
    ensures Text.ReplaceAll(rest, Guild.SearchTerm, city) == "<p>" + (city + "</p>")
  {
    TulsaRestShape(rest);
    OnlyOccurrence("<p>", "</p>", city);
  }

  /** The rendered text behind the title element, flattened. */
  lemma TulsaRestText(city: string)
    requires city == "Tulsa"
    ensures "<p>" + (city + "</p>") == "<p>Tulsa</p>"
  {
  }

  /** Text too short to hold a title element is left as it is. */
  lemma ShortKept(s: string, title: string)
    requires |s| < |TitleTag.OpenTag| + |TitleTag.CloseTag|
    ensures TitleTag.SubTitleTags(s, title) == s
  {
  }

  /** The rendered text behind the title element holds no title element. */
  lemma TulsaAfterTitle(rest: string, city: string, title: string)
    requires rest == "<p>Oklahoma City</p>" && city == "Tulsa"
    ensures TitleTag.SubTitleTags(Text.ReplaceAll(rest, Guild.SearchTerm, city), title) == "<p>Tulsa</p>"
  {
    var r := Text.ReplaceAll(rest, Guild.SearchTerm, city);
    TulsaRest(rest, city);
    TulsaRestText(city);
    ShortKept(r, title);
  }

  /** The page text once the title is known. */
  lemma TulsaPageText(city: string, title: string)
    requires city == "Tulsa" && title == "The " + city + " Software-Guild"
    ensures TitleTag.OpenTag + title + TitleTag.CloseTag + "<p>Tulsa</p>"
            == "<title>The Tulsa Software-Guild</title><p>Tulsa</p>"
  {
    assert title == "The Tulsa Software-Guild";
    assert TitleTag.OpenTag + title + TitleTag.CloseTag + "<p>Tulsa</p>"
           == "<title>" + "The Tulsa Software-Guild" + "</title>" + "<p>Tulsa</p>";
    assert "<title>" + "The Tulsa Software-Guild" == "<title>The Tulsa Software-Guild";
    assert "<title>The Tulsa Software-Guild" + "</title>" == "<title>The Tulsa Software-Guild</title>";
    assert "<title>The Tulsa Software-Guild</title>" + "<p>Tulsa</p>"
           == "<title>The Tulsa Software-Guild</title><p>Tulsa</p>";
  }

  /** A template naming "Oklahoma City" twice, once inside an upper-case title
      element, rendered for Tulsa: both become "Tulsa", and the title element
      is rewritten in lower case around the derived title. */
  lemma TulsaRender(city: string, template: string)
    requires city == "Tulsa"
    requires template == "<TITLE>Oklahoma City</TITLE><p>Oklahoma City</p>"
    ensures Guild.Render(city, template) == "<title>The Tulsa Software-Guild</title><p>Tulsa</p>"
  {
    var title := "The " + city + " Software-Guild";
    var o, u, c, rest := "<TITLE>", Guild.SearchTerm, "</TITLE>", "<p>Oklahoma City</p>";
    TulsaTemplateShape(template);
    UpperTags(o, c);
    Guild.TitleElementReplaced(city, o, u, c, rest);
    TulsaAfterTitle(rest, city, title);
    TulsaPageText(city, title);
  }

  /** The repository name for Tulsa. */
  lemma TulsaRepoName(city: string)
    requires city == "Tulsa"
    ensures Guild.RepoName(city) == "The-Tulsa-Software-Guild"
  {
    Text.RemoveSpacesFixed(city);
    assert Guild.RepoName(city) == "The-" + city + "-Software-Guild";
    TulsaRepoText(city);
  }

  /** The repository name for Tulsa, flattened. */
  lemma TulsaRepoText(city: string)
    requires city == "Tulsa"
    ensures "The-" + city + "-Software-Guild" == "The-Tulsa-Software-Guild"
  {
  }

  /** The substitution is a single pass: a city that, followed by what comes
      after an occurrence, spells "Oklahoma City" again leaves the search term
      in the body. For "Oklahoma" and the template "Oklahoma City City" the
      body is "Oklahoma City". */
  lemma PlaceholderCanReappear(city: string, template: string)
    requires city == "Oklahoma"
    requires template == "Oklahoma City City"
    ensures Text.Contains(Text.ReplaceAll(template, Guild.SearchTerm, city), Guild.SearchTerm)
  {
    var tail := " City";
    assert template == Guild.SearchTerm + tail;
    Text.ReplaceFront(Guild.SearchTerm, tail, city);
    NoOccurrence(tail, city);
    var body := Text.ReplaceAll(template, Guild.SearchTerm, city);
    assert body == city + tail;
    assert body == Guild.SearchTerm;
    assert Text.OccursAt(body, Guild.SearchTerm, 0);
  }

  /** The title pattern's `.` does not match a newline. A city holding one,
      substituted inside the template's title element, breaks that element
      into a non-match, so the derived title is never written: for the city
      "A\nB" and the template "<title>Oklahoma City</title>" the page keeps
      "<title>A\nB</title>". */
  lemma NewlineCityKeepsTitle(city: string, template: string)
    requires city == "A\nB"
    requires template == "<title>Oklahoma City</title>"
    ensures Guild.Render(city, template) == "<title>A\nB</title>"
  {
    NewlineBody(city, template);
    NewlineBodyText(city);
    NewlineTitle(Text.ReplaceAll(template, Guild.SearchTerm, city), Guild.SiteTitle(city));
  }

  /** The body substitution puts the city inside the title element. */
  lemma NewlineBody(city: string, template: string)
    requires template == "<title>Oklahoma City</title>"
    ensures Text.ReplaceAll(template, Guild.SearchTerm, city) == "<title>" + (city + "</title>")
  {
    NewlineTemplateShape(template);
    OnlyOccurrence("<title>", "</title>", city);
  }

  /** The template around its one occurrence of "Oklahoma City". */
  lemma NewlineTemplateShape(template: string)
    requires template == "<title>Oklahoma City</title>"
    ensures template == "<title>" + (Guild.SearchTerm + "</title>")
  {
  }

  /** The substituted body, flattened. */
  lemma NewlineBodyText(city: string)
    requires city == "A\nB"
    ensures "<title>" + (city + "</title>") == "<title>A\nB</title>"
  {
  }

  /** The title element broken by a newline is not a match and stays as it
      is: the text splits at the newline into two parts, each shorter than
      both tags together. */
  lemma NewlineTitle(body: string, title: string)
    requires body == "<title>A\nB</title>"
    ensures TitleTag.SubTitleTags(body, title) == body
  {
    var a, b := body[..9], body[9..];
    assert a[8] == '\n';
    TitleTag.SubAfterNewline(a, b, title);
    assert a + b == body;
  }
}
