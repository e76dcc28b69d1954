# Join The Guild: the site derivation, in Dafny

`update_website.py` creates or updates a GitHub Pages repository for a city's
Software Guild. Its `main` reads `CITY_INPUT` and `GH_TOKEN`, derives a
repository name and a site title from the city, rewrites the `index.html`
template, and then publishes the result through the GitHub API. At the end it
prints the live-site address.

This project models the part of `main` that works only on strings. It also
proves what that part guarantees.

- `wrappers.dfy` (`Wrappers`): `Option` and `Result`.
- `text.dfy` (`Text`): the Python `str` operations that the script relies on.
  - `replace`, modelled as `ReplaceAll`, with leftmost non-overlapping occurrences.
  - `count`, `split` and `join`. Split and join are the reference definition
    against which `replace` is proved. The split is described the same way as
    the title decomposition: its first piece ends at the leftmost occurrence,
    and the remaining pieces split the text behind that occurrence.
  - `in`, `strip` with one character, and the space filter behind
    `city.replace(' ', '')`.
- `title_tag.dfy` (`TitleTag`): `re.sub(r'<title>.*?</title>', element, page, flags=re.IGNORECASE)`.
  - It is a hand scanner for this one pattern.
  - It is proved against a declarative description of a match, `IsTitleSpan`:
    - an opening tag in any case;
    - then the fewest characters that are not newlines;
    - then a closing tag in any case.
  - It is also proved against `re.split`/`re.findall`-style decompositions.
    The first match replaced is the leftmost one. Behind it, the rest of the
    decomposition is the decomposition of the remaining text. So, step by
    step, each match replaced is the leftmost one in the text still to scan.
- `guild.dfy` (`Guild`):
  - the constants;
  - the guard on the environment and the template (`Prepare`);
  - the repository name, the site title and the rendered page;
  - the `.com` → `.io` rewrite of the live-site URL.
- `scenarios.dfy` (`Scenarios`): worked examples on concrete inputs. One of them
  shows that the placeholder can survive rendering.

The site title the code builds is `"The " + city + " Software-Guild"`. The
hyphen in "Software-Guild" is kept, because `strip('-')` removes only the outer
hyphens of `-Software-Guild`. The repository description on line 61 says
"Software Guild" without the hyphen; the model follows the code that builds the
title.

The placeholder is not always gone after rendering. `replace` is a single pass,
so a city can recreate "Oklahoma City" together with the text that follows an
occurrence. This is shown by `Scenarios.PlaceholderCanReappear`. The script
promises nothing else here, so this is a property of the code, not a defect.

The title is substituted after the body, so "Oklahoma City" inside the
template's title element is first replaced by the city. Then the whole element
becomes the derived title element. `Guild.TitleReplacedWhole` proves this for
every template whose title element opens a line: at the start of the template,
or after a newline and `<`-free indentation, as in a page with `<head>` on the
line above. It also requires that neither the element's text nor the city
holds a newline or a `<`. The proof rests on the fact that no match reaches
across a newline (`TitleTag.SubAfterNewline`). Without the condition on the
city it can fail, because the pattern's `.` does not match a newline.
`Scenarios.NewlineCityKeepsTitle` shows a failing case: the city "A\nB" and the
template `<title>Oklahoma City</title>` give the page `<title>A\nB</title>`.

## Model

| member | source | states |
|---|---|---|
| Text.ReplaceAll | update_website.py:42 | Python's `replace` for a non-empty pattern: leftmost occurrences, found left to right without overlap, are replaced. A text in which no occurrence is counted is returned unchanged. The script uses it on lines 32, 42 and 110. |
| Text.CountBound | update_website.py:42 | The number of non-overlapping occurrences, times the pattern's length, fits in the text. |
| Text.ReplaceLength | update_website.py:42 | The result's length is the input's length, plus one length difference per occurrence. |
| Text.Split | update_website.py:42 | The pieces are one more than the occurrences. |
| Text.ReplaceIsSplitJoin | update_website.py:42 | `replace` equals splitting at the pattern and joining with the replacement. |
| Text.SplitJoinRoundTrip | update_website.py:42 | Joining the split pieces with the pattern gives back the original text. |
| Text.SplitHeadIsPrefix | update_website.py:42 | The first piece is a prefix of the text. |
| Text.SplitAtPattern | update_website.py:42 | An occurrence at the front ends an empty first piece, and the other pieces split the text behind it. |
| Text.SplitAtChar | update_website.py:42 | A first character that starts no occurrence joins the first piece, and the other pieces are those of the rest. |
| Text.SplitFirstPartLeftmost | update_website.py:42 | No occurrence starts inside the first piece. The first occurrence replaced is the leftmost one. |
| Text.SplitSingle | update_website.py:42 | A text that splits into one piece is that piece. |
| Text.SplitNextOccurrence | update_website.py:42 | When there is more than one piece, the pattern occurs right after the first piece. |
| Text.SplitNextRest | update_website.py:42 | The pieces after the first are the split of the text behind the first occurrence. With SplitFirstPartLeftmost, every occurrence replaced is the leftmost one behind the previous one. |
| Text.SplitHeadAvoidsPattern | update_website.py:42 | The first piece does not contain the pattern. |
| Text.SplitPartsAvoidPattern | update_website.py:42 | No piece contains the pattern. Nothing that is kept unchanged holds an occurrence. |
| Text.CountZeroIffAbsent | update_website.py:42 | There are no occurrences exactly when the pattern is not `in` the text. |
| Text.ReplaceAbsent | update_website.py:42 | A text without the pattern splits into itself and is left unchanged. |
| Text.ReplaceFront | update_website.py:42 | An occurrence at the front is replaced, and replacing continues behind it. |
| Text.ReplaceSkip | update_website.py:42 | Text without the pattern's first character is copied, and replacing continues behind it. |
| Text.ReplaceSplitAt | update_website.py:42 | When the second text starts with a character that does not occur in the pattern, replacing distributes over the concatenation. |
| Text.ReplaceAfterChar | update_website.py:42 | When the first text ends in a character that does not occur in the pattern, replacing distributes over the concatenation, and that character stays last. |
| Text.PrefixAcross | update_website.py:42 | An occurrence at the front of a concatenation that reaches past the first text contains the second text's first character. |
| Text.ContainsFrontOrTail | update_website.py:110 | An occurrence is at the front or in the text behind the first character. |
| Text.ReplaceKeepsAbsent | update_website.py:42 | A character in neither the text nor the replacement is not in the result. |
| Text.ReplaceSelf | update_website.py:42 | Replacing the pattern by itself changes nothing. |
| Text.RemoveSpaces | update_website.py:32 | The result is no longer than the city and contains no space. |
| Text.RemoveSpacesIsReplace | update_website.py:32 | The space filter is exactly `replace(' ', '')`. |
| Text.RemoveSpacesAppend | update_website.py:32 | Removing spaces distributes over concatenation, so the order of the kept characters is preserved. |
| Text.RemoveSpacesKeepsOthers | update_website.py:32 | No space is left, and every other character is kept as often as it occurs. |
| Text.RemoveSpacesFixed | update_website.py:32 | A city without spaces is kept as it is. |
| Text.StripLeft | update_website.py:45 | The result is a suffix, only copies of the character were dropped, and the result does not start with one. |
| Text.StripRight | update_website.py:45 | The result is a prefix, only copies of the character were dropped, and the result does not end with one. |
| Text.Strip | update_website.py:45 | The result is no longer than the input and neither starts nor ends with the character. It is empty exactly when every character is the stripped one. |
| Text.StripKeepsInner | update_website.py:45 | Stripping removes exactly the outer runs of the character and keeps inner copies. |
| TitleTag.FoldCases | update_website.py:46 | The IGNORECASE comparison: a character matches a lower-case tag letter only as that letter, its upper case, or (for `i`) U+0130 / U+0131. Every other character matches only itself. |
| TitleTag.TitleSpanShape | update_website.py:46 | `IsTitleSpan`, the declarative meaning of one match, is an opening tag in any case, the fewest characters that are not newlines, then a closing tag in any case. Such a match is at least both tags long and starts with `<`. |
| TitleTag.CloseLen | update_website.py:46 | A lazy `.*?</title>` match found is at least a closing tag long and fits in the text. |
| TitleTag.MatchLen | update_website.py:46 | A match found spans at least both tags and fits in the text. |
| TitleTag.CloseLenSound | update_website.py:46 | What the lazy scan finds is newline-free, contains no earlier closing tag, and ends in a closing tag. |
| TitleTag.LazyBodyCons | update_website.py:46 | A lazy body stays lazy when it is preceded by a character that is not a newline and does not start a closing tag. |
| TitleTag.CloseLenComplete | update_website.py:46 | Every such lazy body is the one the scan finds. |
| TitleTag.CloseLenSpec | update_website.py:46 | The lazy scan returns a length exactly when that prefix is a lazy body. |
| TitleTag.MatchLenSpec | update_website.py:46 | The scanner matches `n` characters at the front exactly when those characters form a title match. |
| TitleTag.TitleElement | update_website.py:46 | The replacement element is both lower-case tags around the title. |
| TitleTag.SubTitleTags | update_website.py:46 | The `re.sub` itself: scanning left to right, each match is replaced by the title element, and the scan resumes behind it. A text shorter than both tags together is returned unchanged. |
| TitleTag.TitleSplit | update_website.py:46 | There is always at least one gap. |
| TitleTag.TitleSpans | update_website.py:46 | There is one match fewer than gaps. |
| TitleTag.SubIsSplitJoin | update_website.py:46 | The substitution keeps the gaps and puts the title element in place of each match. |
| TitleTag.TitleSplitRoundTrip | update_website.py:46 | Interleaving the gaps with the matches gives back the page. |
| TitleTag.SplitAtMatch | update_website.py:46 | At a match, the decomposition is an empty gap, that match, then the decomposition of the text behind it. |
| TitleTag.ScanAtChar | update_website.py:46 | A first character that starts no match joins the first gap, and the matches are those of the rest. |
| TitleTag.TitleSpansWellFormed | update_website.py:46 | Every match that is replaced is a title match. |
| TitleTag.TitleSplitGapsHoldNoSpan | update_website.py:46 | No gap contains a title match. Nothing that is kept unchanged holds a match. |
| TitleTag.FirstGapLeftmost | update_website.py:46 | No title match of the page starts before the first one replaced, even one that reaches past it. The first match replaced is the leftmost one. |
| TitleTag.TitleSplitSingle | update_website.py:46 | A page with only one gap is that gap. |
| TitleTag.TitleSplitNextSpan | update_website.py:46 | The first match replaced is the text right after the first gap. |
| TitleTag.TitleSplitNextMatch | update_website.py:46 | The scanner finds exactly that match at the end of the first gap. |
| TitleTag.TitleSplitNextRest | update_website.py:46 | The gaps and matches after the first are those of the text behind the first match. With FirstGapLeftmost, every match replaced is the leftmost one behind the previous one. |
| TitleTag.TitleSplitHeadIsPrefix | update_website.py:46 | The first gap is a prefix of the page. |
| TitleTag.NoSpanUnchanged | update_website.py:46 | A page without a title match yields no match and is returned unchanged. |
| TitleTag.TitleSpanAround | update_website.py:46 | Two tags, in any case, around text without a newline or `<` form a title match. |
| TitleTag.OpenTagFront | update_website.py:46 | An opening tag, in any case, in front of a lazy body forms a title match. |
| TitleTag.LazyBodyAround | update_website.py:46 | Text without a newline or `<`, followed by a closing tag, is a lazy body. |
| TitleTag.TagHasNoNewline | update_website.py:46 | A tag, in any case, holds no newline. |
| TitleTag.TagStartsWithAngle | update_website.py:46 | A tag, in any case, starts with `<`. |
| TitleTag.SpanHasNoNewline | update_website.py:46 | A match lies on one line. |
| TitleTag.MatchBeforeNewline | update_website.py:46 | A match at the front of a text that ends in a newline ends before that newline, so what follows cannot change it. |
| TitleTag.SubAfterNewline | update_website.py:46 | The substitution distributes over a concatenation whose first part ends in a newline. |
| TitleTag.SubAfterLine | update_website.py:46 | After the end of a line, text without `<` is copied, and the substitution goes on behind it. |
| TitleTag.SubSkip | update_website.py:46 | Text without `<` is copied, and the substitution continues behind it. |
| TitleTag.SubFront | update_website.py:46 | A match at the front is replaced, and scanning resumes behind it. |
| TitleTag.FoldedAt | update_website.py:46 | Folding works character by character. |
| TitleTag.TagPrefixHead | update_website.py:46 | A text that starts with a tag starts with a character that folds to the tag's first character. |
| Guild.RepoName | update_website.py:32-33 | The name is "The-", then the city without its spaces, then "-Software-Guild". |
| Guild.RepoNameHasNoSpace | update_website.py:32-33 | The repository name contains no space. |
| Guild.RepoNameDeterminedBySpacelessCity | update_website.py:32-33 | Two cities give the same name exactly when they agree once their spaces are removed. |
| Guild.PrefixStripped | update_website.py:8 | `REPO_PREFIX.strip('-')` is "The". |
| Guild.SuffixStripped | update_website.py:9 | `REPO_SUFFIX.strip('-')` is "Software-Guild", keeping its inner hyphen. |
| Guild.SiteTitle | update_website.py:45 | The site title built from the stripped prefix, the city and the stripped suffix is "The ", then the city, then " Software-Guild". |
| Guild.Render | update_website.py:41-46 | The page is the template split at "Oklahoma City" and joined with the city, then split at the title matches and joined with the lower-case title element. |
| Guild.RenderWithoutSearchTerm | update_website.py:41-46 | A template without "Oklahoma City" only has its title substituted. |
| Guild.TitleReplacedWhole | update_website.py:41-46 | Take a template whose title element opens a line: it comes at the start or after a newline, and only `<`-free text such as indentation lies between. If the element's text, like the city, holds no newline and no `<`, the whole element renders to the derived title element. The text before it is rendered on its own, and the text after it is rendered after it. |
| Guild.BodyAfterLine | update_website.py:42 | The body replacement works separately on the text up to the end of a line, on the `<`-free text after it, and on the rest from a `<`. |
| Guild.TitleElementReplaced | update_website.py:41-46 | A template starting with a title element whose text, like the city, holds no newline and no `<` renders to the derived title element, followed by the rest of the template rendered. |
| Guild.TemplateBody | update_website.py:42 | The body replacement keeps both title tags and works separately on the text inside and the text behind. |
| Guild.TitleTail | update_website.py:42 | The body replacement keeps a closing tag, in any case, and works separately on the text before it and the text behind it. |
| Guild.TagHasNoCapitalO | update_website.py:42 | A tag, in any case, holds no 'O', so it cannot start "Oklahoma City". |
| Guild.BodyLength | update_website.py:42 | The body changes length by the city's length difference to "Oklahoma City", once per occurrence. |
| Guild.Prepare | update_website.py:24-46 | The run stops with MissingEnvironment exactly when the city or the token is unset or empty. It stops with MissingTemplate exactly when both are present and the template file does not exist. Otherwise it yields the repository name, the title and the page described above. |
| Guild.LiveUrl | update_website.py:110 | Every ".com" becomes ".io". The URL shrinks by one character per occurrence, and no ".com" is left. |
| Guild.ComRewriteLeavesNoCom | update_website.py:110 | After the rewrite, no ".com" remains, including any that might form across an inserted ".io". |
| Guild.ComFrontStep | update_website.py:110 | An inserted ".io" in front of text without ".com" creates no ".com". |
| Guild.ComCopyStep | update_website.py:110 | A copied character in front of a rewritten tail without ".com" creates no ".com". |
| Guild.ComCopyHead | update_website.py:110 | A non-empty text that does not start with ".com" does not start with ".com" after the rewrite either. |
| Guild.ComOrigin | update_website.py:110 | When the rewritten text starts with "com", so did the original. |
| Guild.OmOrigin | update_website.py:110 | When the rewritten text starts with "om", so did the original. |
| Guild.ComRewriteHead | update_website.py:110 | An output character that does not start an inserted ".io" is copied from the input. |
| Scenarios.UpperTags | update_website.py:46 | `<TITLE>` and `</TITLE>` match the pattern's tags under IGNORECASE. |
| Scenarios.TulsaTitleSpan | update_website.py:46 | `<TITLE>Tulsa</TITLE>` is a title match despite its upper-case tags. |
| Scenarios.OneOccurrence | update_website.py:42 | An occurrence behind text without an 'O' becomes the city. |
| Scenarios.NoOccurrence | update_website.py:42 | Text without an 'O' is unchanged by the body replacement. |
| Scenarios.OnlyOccurrence | update_website.py:42 | The only occurrence, between texts without an 'O', becomes the city. |
| Scenarios.TulsaRest | update_website.py:42 | `<p>Oklahoma City</p>` becomes `<p>` + city + `</p>`. |
| Scenarios.TulsaAfterTitle | update_website.py:41-46 | Behind the title element of the Tulsa template, the page is `<p>Tulsa</p>`. |
| Scenarios.TulsaRender | update_website.py:41-46 | The Tulsa template renders to `<title>The Tulsa Software-Guild</title><p>Tulsa</p>`. |
| Scenarios.TulsaRepoName | update_website.py:32-33 | The repository for Tulsa is "The-Tulsa-Software-Guild". |
| Scenarios.PlaceholderCanReappear | update_website.py:42 | For the city "Oklahoma" and the template "Oklahoma City City", "Oklahoma City" is still in the body after replacement. |
| Scenarios.NewlineCityKeepsTitle | update_website.py:41-46 | For the city "A\nB" and the template `<title>Oklahoma City</title>`, the page keeps `<title>A\nB</title>`, and the derived title is never written. |

## Left out

- Everything from line 48 on that talks to GitHub:
  - connecting;
  - looking up or creating the repository, including its description;
  - committing `.nojekyll` and `index.html`, including the commit messages;
  - enabling Pages;
  - the exception handling around those calls.

  These are calls into a remote service. The repository's `html_url` becomes a parameter of `LiveUrl`.
- Reading the environment (lines 24-25) and the template file (`read_file`, lines 12-18). They become the `Option` parameters of `Prepare`. A missing file is `None`.
- All printed messages. Only their condition and the value printed on line 110 are modelled.
- Text.ReplaceAll: requires a non-empty pattern. With an empty pattern, Python's `replace` inserts the replacement before every character and once more at the end: `"abc".replace("", "-")` is `"-a-b-c-"`, and `"".replace("", "-")` is `"-"`. Every call in the script passes a non-empty literal (" ", "Oklahoma City", ".com").
- Guild.Render: does not model how `re.sub` reads the replacement as a template. A city containing a backslash would be treated as an escape sequence or a group reference, and might make `re.sub` raise an error. The model inserts the title literally.
- TitleTag.FoldCases: the IGNORECASE folding is modelled only for the characters of the two tags. Python also folds other letters, but none of them can match a tag letter other than through the cases listed.
- Guild.Prepare: the model takes the template as already decoded text, and a missing file as `None`. `read_file` returns `None` only when the file does not exist (lines 14-16). Any other failure raises: a file that cannot be opened (no permission, or a directory) raises on line 17 in `open`, and a file that is not valid UTF-8 raises on line 18 in `read`. Both lines are outside the `try` that starts on line 49, so the run ends with an exception. These failures are not modelled.
- Guild.TitleReplacedWhole: covers only a title element that opens a line, with nothing but `<`-free indentation between the line start and `<title>`. A title element behind other markup on the same line (`<head><title>…`, or a minified page on one line) is not covered by this lemma. `Render` itself handles that layout, and `TitleTag.SubIsSplitJoin` still describes it.
