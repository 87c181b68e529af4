# Keyword extraction in `SimpleCrawler.search_website`, modelled in Dafny

The crawler fetches one web page and looks for a keyword in it. It works on the parsed
page in four steps, which this project models:

1. Five keyword scans run in a fixed order: script, heading/title/anchor, p/div/span
   paragraph, anchor text and table.
2. Their results are concatenated.
3. The concatenated list is de-duplicated on the key `title + "_" + abstract[:50]`.
   The first occurrence of each key wins.
4. Only when nothing survives, a fallback searches the whole page text. It tries the
   full keyword first, then prefixes of it from the longest down to two characters.

Every match is a case-insensitive substring test. Every context snippet is a window of
±100 characters around the first occurrence.

The parsed page is a `Html.Page`: the element tree flattened into a table in document
order. Each element records:

- its tag class;
- its `get_text(strip=True)`;
- its href, if any;
- its `.string`;
- the index of its parent.

The page also carries the whole page's `get_text()`. The parser's searches are
functions over this table:

- `find` and `find_all`, inside an element or inside the whole document;
- `find_previous`;
- `find_next_sibling`.

A result is a `Candidates.Candidate(title, link, summary)`. The field `summary` is the
source's `abstract`, renamed because `abstract` is a Dafny keyword.

Modules:

- `Wrappers`: `Option`.
- `Strings`: lower-casing, `find`/`in`, `startswith`, `rstrip`, `join`, and the context
  window.
- `Links`: relative-link resolution.
- `Html`: the element table and the parser's searches.
- `Candidates`: the result record and de-duplication.
- `Scans`: the five scans.
- `Fallback`: the whole-text and prefix search.
- `Crawler`: the whole pipeline, `SearchWebsite`.

Consequences of the code that are easy to miss:

- **Root-relative links.** They are not resolved against the scheme and host. The
  whole base URL, with trailing slashes stripped, is used instead. So `"/foo"` against
  `"https://example.com/news"` gives `"https://example.com/news/foo"`
  (`Links.ResolveExample`).
- **Script scan.** It yields one result per script element, with the context around
  the keyword's first occurrence in that script. It runs before the other four scans.
- **Abstract length.** Paragraph abstracts can be 203 characters long: 200 plus
  `"..."`.
- **Anchor-scan results never survive de-duplication.** The heading scan already
  yields a result with the same key for the same anchor (`Crawler.AnchorScanRedundant`).

## Model

| member | source | states |
|---|---|---|
| Strings.Lower | simple_crawler.py:251 | `lower()` keeps the length and folds each character on its own, so positions in the folded text are positions in the original |
| Strings.Find | simple_crawler.py:254 | `find` returns the first position where the needle occurs, and none (Python's -1) when it occurs nowhere |
| Strings.FindCI | simple_crawler.py:251-254 | `keyword.lower() in text.lower()` succeeds exactly when `find` returns a position; that position is the first case-insensitive occurrence, and the text there equals the keyword up to letter case |
| Strings.ContainsIff | simple_crawler.py:251 | `in` holds exactly when the keyword occurs at some position |
| Strings.PrefixContainedCI | simple_crawler.py:454-480 | if a string occurs case-insensitively, every prefix of it occurs too |
| Strings.StartsWith | simple_crawler.py:288-289 | `startswith` holds exactly when the string is at least as long as the prefix and agrees with it on each of its characters |
| Strings.RStrip | simple_crawler.py:290 | `rstrip('/')` returns a prefix of the URL that does not end in '/'; everything it removed is '/' |
| Strings.RStripStable | simple_crawler.py:290 | stripping is idempotent, and one extra trailing '/' does not change it |
| Strings.Join | simple_crawler.py:418 | `sep.join` equals the left-to-right join: no parts give "", one part gives itself, and each further part is appended after one separator |
| Strings.JoinEnds | simple_crawler.py:418 | a join of at least one part begins with the first part and ends with the last |
| Strings.JoinSplit | simple_crawler.py:418-422 | a join splits at every part boundary into the join of the parts before it, the separator, and the join of the parts after it |
| Strings.JoinEmptyIff | simple_crawler.py:418-422 | a join with the bar separator is empty exactly when it joins nothing or a single empty string |
| Strings.JoinLength | simple_crawler.py:418-422 | a join's length is the sum of the part lengths plus one separator between each pair of neighbouring parts |
| Strings.ContextWindow | simple_crawler.py:256-258 | the context is the piece of the text that starts at max(0, i-100) and ends at min(len, i+100); so it has at most 200 characters |
| Strings.WindowKeepsMatch | simple_crawler.py:256-258 | the window keeps up to 100 characters before the match, and the match itself when it is at most 100 characters long |
| Strings.KeywordContext | simple_crawler.py:254-258 | the reported context is the window at the first case-insensitive occurrence; it is a piece of the text of at most 200 characters and contains the keyword when the keyword is at most 100 characters long |
| Strings.WindowHasKeyword | simple_crawler.py:459-461 | the window cut at an occurrence contains the keyword, up to letter case, when the keyword has at most 100 characters |
| Links.Resolve | simple_crawler.py:287-292 | an empty link stays empty and an "http" link is unchanged; any other link becomes the stripped base URL, then '/', then the link without that leading '/', and ends with the original link |
| Links.Stem | simple_crawler.py:290 | `website_url.rstrip('/')` is a prefix of the URL that does not end in '/', and only '/' follows it in the URL |
| Links.LeadingSlashIrrelevant | simple_crawler.py:288-292 | "/x" and "x" resolve to the same URL |
| Links.TrailingSlashIrrelevant | simple_crawler.py:290 | a trailing '/' on the base URL does not change any resolved link |
| Links.ResolveExample | simple_crawler.py:288-292 | "/foo" and "foo" against "https://example.com/news" both give "https://example.com/news/foo" |
| Html.FindAll | simple_crawler.py:414-417 | `find_all` returns exactly the matching elements inside the scope, in strictly increasing document order |
| Html.FindFirst | simple_crawler.py:410 | `find` returns the first matching element inside the scope, and none when no element matches |
| Html.FindPrevious | simple_crawler.py:331 | `find_previous` returns the closest earlier element with a heading tag; none when no heading precedes |
| Html.NextSibling | simple_crawler.py:297 | `find_next_sibling` returns the first later element with the same parent |
| Html.Href | simple_crawler.py:373 | `get('href', '')` is the attribute when present and "" otherwise |
| Candidates.Key | simple_crawler.py:440 | the key is as long as the title plus the '_' separator plus at most 50 abstract characters |
| Candidates.SameTitleKeys | simple_crawler.py:440-441 | two results with the same title are duplicates exactly when their abstracts agree on the first 50 characters |
| Candidates.DedupFrom | simple_crawler.py:439-443 | the loop only drops elements, keeps none whose key was already seen, and keeps the head when its key is new |
| Candidates.Dedup | simple_crawler.py:437-443 | the result is exactly the input elements that are the first with their key, in input order (one per such position, via the element-wise reading `Firsts`); so it is a subsequence with pairwise distinct keys and the same key set |
| Candidates.DedupFromSpec | simple_crawler.py:437-443 | the same facts for a loop started with any set of already-seen keys: it keeps exactly the elements whose key is new and first of its kind, in order |
| Candidates.DedupFromIsFirsts | simple_crawler.py:439-443 | the loop keeps exactly the elements the element-wise reading keeps, in the same order |
| Candidates.RepeatKeepsFirstPlace | simple_crawler.py:439-443 | for `[x, p, x]` with different keys the result is `[x, p]`: a repeated result stays where it first appeared |
| Candidates.DedupFromDistinct | simple_crawler.py:437-443 | a list whose keys are already distinct passes through unchanged |
| Candidates.DedupIdempotent | simple_crawler.py:437-443 | de-duplicating twice equals de-duplicating once |
| Candidates.DedupFromAppend | simple_crawler.py:437-443 | de-duplicating a concatenation processes the second part with the keys the first part already added |
| Candidates.DedupFromSeen | simple_crawler.py:441 | elements whose keys were all seen contribute nothing |
| Candidates.ShadowedBlockRemoved | simple_crawler.py:437-443 | a block whose keys all occur earlier can be deleted before de-duplication without changing the result |
| Candidates.DedupEmptyIff | simple_crawler.py:437-448 | de-duplication returns nothing exactly when its input is empty |
| Scans.ScriptCandidate | simple_crawler.py:248-268 | a script with a non-empty single string containing the keyword yields exactly one result: the fixed title, the page URL, and the window around the first occurrence |
| Scans.HeadingHref | simple_crawler.py:279-285 | the link is an anchor's own non-empty href, otherwise the href of the first anchor inside the element, otherwise "" |
| Scans.NearbyParagraph | simple_crawler.py:294-304 | the abstract is the next sibling's text when that sibling is a `p`, otherwise the first `p` in the parent, otherwise "" |
| Scans.HeadingCandidate | simple_crawler.py:274-314 | an h1-h6/title/anchor element yields a result exactly when it contains the keyword and is longer than 2 characters; the title is the element's text, the link is the chosen href resolved against the page URL, and the abstract is the nearby paragraph |
| Scans.Abbreviate | simple_crawler.py:354 | the abstract has at most 203 characters; its first min(len, 200) characters are the text's; it is the text itself up to 200 characters, and ends in "..." beyond that |
| Scans.ParagraphTitle | simple_crawler.py:329-352 | the title is the closest preceding heading's text; with no preceding heading it is the first heading in the parent; an empty result becomes the fixed label, so the title is never empty |
| Scans.ParagraphLink | simple_crawler.py:340-349 | the link is the href of the first anchor inside the element, resolved against the page URL; it is "" when there is no anchor or the anchor has no href |
| Scans.ParagraphCandidate | simple_crawler.py:320-359 | a p/div/span element yields a result exactly when it contains the keyword and has 16 to 499 characters; its title is the paragraph title, its link the paragraph link, and its abstract the text cut at 200 characters |
| Scans.AnchorCandidate | simple_crawler.py:365-399 | an anchor yields a result exactly when it contains the keyword and has 3 to 99 characters; its link is its own href resolved against the page URL; the heading scan then yields a result with the same key, and the identical result when the anchor has an href |
| Scans.CellTexts | simple_crawler.py:417-418 | one text per cell of the row, in document order |
| Scans.RowText | simple_crawler.py:417-418 | the cell texts joined by the bar separator (space, bar, space): a single cell gives its text, and at every cell boundary the row text is the join of the cells before it, the separator, and the join of the cells after it; it is empty only for no cells or a single empty cell |
| Scans.NonEmptyPositions | simple_crawler.py:419 | the positions of the non-empty row texts, each once, in increasing order |
| Scans.NonEmpty | simple_crawler.py:416-420 | the kept row texts are the non-empty ones, in their original order and each as often as it appears: the k-th kept text is the text at the k-th non-empty position |
| Scans.FirstRowTexts | simple_crawler.py:414-418 | one row text for each of the first min(3, rows) rows, in row order |
| Scans.SummaryRows | simple_crawler.py:414-420 | the kept texts are exactly the non-empty row texts of the first 3 rows, in order; so at most 3, all non-empty |
| Scans.TableSummary | simple_crawler.py:422 | the kept row texts joined by the bar separator (space, bar, space): empty exactly when none was kept, a single kept text itself, and at every boundary the join of the rows before it, the separator, and the join of the rows after it |
| Scans.TableSummaryEmptyIff | simple_crawler.py:414-422 | a table's abstract is empty exactly when each of its first three rows has an empty row text |
| Scans.TableCandidate | simple_crawler.py:405-432 | a table containing the keyword yields exactly one result with an empty link; its title is the first caption's text, or the fixed label when it has no caption; its abstract is the table summary |
| Scans.Outcomes | simple_crawler.py:247-432 | entry i is what the scan's per-element step (script, heading, paragraph, anchor or table) makes of element i, for every element |
| Scans.Hits | simple_crawler.py:247-432 | the elements a scan turns into a result: exactly those whose step yields one, in strictly increasing document order |
| Scans.Scan | simple_crawler.py:247-432 | a scan has one result per hit, in document order: its k-th result is the one the k-th hit yields |
| Scans.ScanSource | simple_crawler.py:247-432 | every scan result comes from some element whose step yields it |
| Scans.ScanHas | simple_crawler.py:247-432 | every result an element's step yields is in the scan |
| Scans.ScanMembers | simple_crawler.py:247-432 | a result is in a scan exactly when some element's step yields it |
| Scans.AnchorKeysShadowed | simple_crawler.py:365-399 | every anchor-scan key is a heading-scan key |
| Scans.AnchorShadow | simple_crawler.py:274-399 | for each anchor-scan result, the heading scan has a result with the same key |
| Scans.ParagraphScanBounds | simple_crawler.py:320-359 | every paragraph-scan result has a non-empty title and an abstract of at most 203 characters |
| Scans.ScriptScanLinks | simple_crawler.py:260-268 | script-scan results link to the page URL, with contexts of at most 200 characters |
| Scans.TableScanLinks | simple_crawler.py:424-432 | table-scan results have an empty link |
| Fallback.PartialTitle | simple_crawler.py:488 | the title is the fixed opening text, the prefix, and the fixed closing text, in that order; it never equals the full-match label |
| Fallback.PartialTitleInjective | simple_crawler.py:488 | different prefixes give different partial titles |
| Fallback.LongestPrefixMatch | simple_crawler.py:478-496 | the loop finds the longest prefix, of length at least 2, that occurs; when none is found, no such prefix occurs |
| Fallback.ShortPrefixDecides | simple_crawler.py:454-480 | neither the keyword nor any prefix the loop tries occurs exactly when the keyword's first two characters do not occur |
| Fallback.FallbackSearch | simple_crawler.py:448-496 | at most one result, linked to the page URL, with a context of at most 200 characters taken from the page text; when the full keyword occurs, the result has the full-match label and the window at its first occurrence; no result exactly when neither the keyword nor any prefix of it of length at least 2 occurs |
| Fallback.PartialMatchIsLongest | simple_crawler.py:476-496 | with the keyword absent, the reported partial keyword is the longest matching prefix |
| Fallback.PartialContextShowsPrefix | simple_crawler.py:478-490 | for a keyword of at most 100 characters that is absent, a partial match is a proper prefix of length at least 2; it is named in the title and appears in the context |
| Crawler.AllCandidates | simple_crawler.py:247-432 | a result is among the scan results exactly when some scan makes it of some element |
| Crawler.InSomeScan | simple_crawler.py:247-432 | a result is in one of the five scans exactly when some scan makes it of some element |
| Crawler.SearchWebsite | simple_crawler.py:437-499 | the results have pairwise distinct keys; when the scans found something they are a subsequence of the scan results carrying every key the scans produced; otherwise there is at most one result |
| Crawler.FallbackOnlyWhenScansEmpty | simple_crawler.py:447-448 | the fallback runs only when no scan produced anything |
| Crawler.AnchorScanRedundant | simple_crawler.py:362-443 | removing the anchor-text scan does not change the de-duplicated results |
| Crawler.EmptyResultIff | simple_crawler.py:437-499 | a call returns nothing exactly when all scans are empty and neither the keyword nor any prefix of it of length at least 2 occurs in the page text |
| Crawler.EmptyResultIffShortPrefix | simple_crawler.py:448-480 | a call returns nothing exactly when all scans are empty and not even the keyword's first two characters occur in the page text |
| Crawler.KeywordOnPageIsFound | simple_crawler.py:451-471 | a keyword present in the page text always yields a result |
| Crawler.ResultsAlreadyDeduplicated | simple_crawler.py:437-443 | the results are a fixed point of de-duplication |

## Left out

- The HTTP request, its headers and the three-attempt retry with sleeps (simple_crawler.py:166-200). These are network I/O. The page arrives already parsed.
- The encoding loop (simple_crawler.py:202-219) and the parser chain (simple_crawler.py:221-235). Their success is decided inside `requests` and BeautifulSoup, whose code is not part of this model.
- How a tree is flattened into the element table. Each element's `get_text(strip=True)` and `.string`, and the page's `get_text()`, are inputs. They are not derived from the tree.
- Text nodes. They are not in the table, so `find_next_sibling()` sees only elements.
- The debug `print` calls and the catch-all `except` that returns `[]` (simple_crawler.py:237-243, 501-505). The model is total, so there is nothing to catch.
- The constant fields of each result dict (`source`, `search_engine`, `keyword`, `page`). They are the same for every result of a call.
- Strings.LowerChar: folds only ASCII capitals. Python's `str.lower()` does full Unicode case mapping, which can change a string's length.
- Tag names are grouped into classes. h1-h6 become `Heading`, td/th become `Cell`, and every element the crawler never asks for becomes `Other`.
- The keyword is not required to be non-empty. Callers reject an empty keyword (gui_crawler.py:821-824, simple_crawler.py:577-580), and the model also covers that case.
- `search_baidu`, `search_bing`, `search_all`, `save_results`, `print_summary` and `main`. These are network, console and file I/O.
- The GUI, the launchers, the installers, the dependency checker, the example script and config.py. These are UI, process management and constants.
- Html.WellFormed: requires only that each parent comes before its children. The element table is assumed to list elements in document order with each element's subtree contiguous after it; the model does not check this.
- Candidates.Key: its contract gives only the key's length. What equal keys mean for two results with the same title is stated by Candidates.SameTitleKeys.
