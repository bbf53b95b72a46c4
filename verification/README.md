# A verified model of the Cheesecake Labs blog scraper

This project models `CheesecakeBlogScraper` from scraper.py, the crawler of the
Cheesecake Labs blog. The crawler starts from a seed page (the post sitemap), visits pages
recursively, reads each page's title, publishing date and text chunks, stores the
chunks with consecutive record ids, and queues new blog links through a chain of
filters. Pages are identified by their *slug*. The slug is the last `/`-segment of
the URL, or the one before it when the URL ends in `/`.

The model is functional. The scraper's fields are an immutable `State` record
(`Scraper.State`): `url_index`, `database_index`, the storage flag,
`visited_links` and `urls_to_visit`. `Scraper.Init` is the fresh scraper of
scraper.py:20-24: cursor 0, first record id 1, nothing visited or queued. Each operation is a pure function from state
to state. Python exceptions that the scraper does not catch become
`Results.Result.Raised` values. These are the IndexError of `has_url_in` on an
empty URL, the IndexError of the date lookup when its pattern finds nothing, and
the ValueError of `strptime`. Nothing catches them, main.py:19-23 included, so
an exception ends the program. Records already saved stay in the store. A crawl
that raises therefore still returns its `Crawler.Run`, with the records written so
far and the stop reason `Crawler.Stop.Crashed(error, url)`. A fetched page is a `Document.Page`: its elements in
document order. Each element carries its tag, classes, text, markup and the
`(name, text)` siblings that follow it. Whatever the crawl cannot see is passed in
as a function value (`Crawler.Environment`): the fetch, the date pattern together
with `strptime`, and the first match of the link pattern.

The crawl is modelled in two versions, chosen by `Crawler.Version`. `AsWritten`
is the code as it stands. `Intended` corrects the two slips listed under
Findings: the continuation reads the queue entry one place back, and chunks are
stored with their tabs replaced. Every crawl lemma says which version it covers.

Modules, one per file: `Results`, `Strings` (split and join, strip, cut at a
character), `Decimal` (`str(n)` and zero-padded fields), `Urls` (slug and the
sitemap test), `Document` (page, title, publishing date), `Segmenter`
(`get_page_text`), `Scraper` (the state), `Links` (`parse_blog_pages_links`),
`Indexing` (the store block of `visit_page`), `Crawler` (`visit_page` and its
recursion).

Some things the code does that a reader might not expect, all modelled as written:
- New links are checked for duplicates against `urls_to_visit` only. `visited_links`
  is not consulted (scraper.py:202).
- `database_index` is advanced before `save` runs (scraper.py:91-92). Nothing
  catches a failure in `save`.
- A date pattern that finds nothing raises IndexError. It does not yield "no date"
  (scraper.py:120-121).
- When the visited guard matches, the recursive continuation is skipped as well, so
  the whole crawl stops there (scraper.py:55, 94-100).
- In single-page mode, `parse_blog_pages_links` is not called. So `visited_links`
  and `url_index` stay as they were (scraper.py:94).
- The records of a page are saved before its links are parsed (scraper.py:92, 95).
  An empty link candidate raises in `parse_blog_pages_links` after the page's
  records are stored, and before the page reaches `visited_links`.
  With the program's own link patterns (scraper.py:188, 191), every match starts with
  `"https://cheesecakelabs` or `>https://cheesecakelabs`. Cleaning it keeps
  `https://cheesecakelabs`, so a candidate is never empty and this crash does not
  occur in practice. The model takes the first match as a parameter
  (`Crawler.Environment`), so the crash path stays reachable in the model.

## Model

| member | source | states |
|---|---|---|
| Strings.SplitJoin | scraper.py:177 | splitting a string on a separator and joining the pieces with it gives the string back |
| Strings.JoinSplit | scraper.py:177 | splitting the join of separator-free pieces gives the pieces back |
| Strings.SplitLast | scraper.py:177-178 | the last piece of a split is the longest separator-free suffix of the string |
| Urls.SlugOfBody | scraper.py:178 | the slug is the last `/`-piece of the URL once one trailing `/` is dropped |
| Strings.Strip | scraper.py:198-200 | `replace(c, "")` removes every `c` and keeps every other character, as a multiset |
| Strings.StripAppend | scraper.py:198-200 | deleting from a concatenation deletes from each part, so the remaining characters keep their order |
| Strings.StripChar | scraper.py:198-200 | a single character is deleted when it is `c` and kept otherwise |
| Strings.CutAt | scraper.py:201 | `split(c, 1)[0]` is the longest prefix without `c`; it is followed by `c` unless it is the whole string |
| Decimal.ParseDecimalString | scraper.py:89 | `str(n)` reads back as `n` |
| Decimal.DecimalStringInjective | scraper.py:89 | different numbers get different decimal strings |
| Decimal.DecimalStringCanonical | scraper.py:90 | `str(n)` is a non-empty digit string with no leading zero unless it is `"0"` |
| Decimal.CanonicalIsDecimalString | scraper.py:90 | a canonical digit string is `str` of the number it denotes, so `str` and parsing are inverse on canonical strings |
| Decimal.ParseZeroPad | scraper.py:84 | a zero-padded field reads back as its number |
| Urls.Slug | scraper.py:177-178 | the slug is a `/`-free piece of the URL; it raises IndexError exactly for the empty URL |
| Urls.HasUrlIn | scraper.py:175-183 | the loop returns true iff the slug is a `/`-segment of some registered URL; false for an empty list; IndexError exactly for the empty URL |
| Urls.SlugIsLastSegment | scraper.py:177-178 | the slug is the longest `/`-free suffix of the URL, after dropping one trailing `/` |
| Urls.SameSlugRegistered | scraper.py:179-183 | once a URL is registered, every URL with the same slug is found |
| Urls.SlugInMonotone | scraper.py:179-183 | appending URLs never unregisters a slug |
| Urls.SlugFreshDistinct | scraper.py:202 | a list kept by the slug check has no empty URL, no two URLs with one slug, and no URL twice |
| Urls.SlugFreshAppend | scraper.py:55 | appending a URL whose slug is unregistered keeps the list slug-fresh |
| Urls.IsXmlIffSuffix | scraper.py:66 | a page is read as a sitemap iff its URL ends in `.xml` or is exactly `xml` |
| Document.FirstIndex | scraper.py:104-105 | `find` returns the first element satisfying the test, and none when no element does |
| Document.GetPageTitle | scraper.py:103-111 | the title is the text of the first `h1`, and empty when there is none |
| Document.GetPublishingDate | scraper.py:114-127 | no `publication-info` div iff no date; otherwise the first such div decides: IndexError on no match, ValueError on an unparsable match, else the date |
| Document.IsoFormat | scraper.py:84 | `isoformat()` of a date is 19 characters: four, two and two digits separated by `-`, then `T00:00:00`, and its year, month and day read back |
| Document.IsoFormatUnique | scraper.py:84 | any string of that shape whose fields read back as the date is exactly the `isoformat()` rendering |
| Decimal.DigitsAreZeroPad | scraper.py:84 | a digit field is the zero-padded rendering, at its width, of the number it denotes |
| Segmenter.Walk | scraper.py:136-149 | every chunk the loop emits is longer than 80 characters and holds no `https://`; there are no more chunks than siblings |
| Segmenter.PageText | scraper.py:130-156 | a page without `p` gives no chunks; every chunk satisfies the keep test |
| Segmenter.GetPageText | scraper.py:130-156 | the imperative loop computes `PageText`, and every chunk has length over 80 and no `https://` |
| Segmenter.PartitionIsGrouping | scraper.py:133-149 | the siblings split into closed groups, each ending at a heading or at its second `p`/`ul`, followed by an unclosed rest |
| Segmenter.WalkIsChunksOfGrouping | scraper.py:133-150 | for any such grouping, the chunks are the kept texts of the groups, in document order; the unflushed rest is dropped |
| Segmenter.GroupingUnique | scraper.py:133-149 | there is only one such grouping |
| Segmenter.ClosedAtMostTwo | scraper.py:136-149 | a chunk holds the text of at most two `p`/`ul` siblings, and only its last sibling can be a heading |
| Segmenter.ChunkCountBound | scraper.py:136-149 | there are no more chunks than `p`/`ul` siblings |
| Segmenter.TwoParagraphsThenHeading | scraper.py:133-149 | on a page of one `p` followed by two `p` siblings and an `h2`, the first `p`'s text is left out, the two siblings make one chunk (kept or not by the length and URL test), and the heading closes an empty one |
| Segmenter.ReplaceTabs | scraper.py:146 | the replacement leaves no tab, adds one character per tab, keeps every other character except spaces by count, and changes nothing without tabs |
| Segmenter.ReplaceTabsAppend | scraper.py:146 | replacing in a concatenation replaces in each part, in place |
| Segmenter.ReplaceTabsChar | scraper.py:146 | a tab becomes two spaces and any other character stays |
| Segmenter.Paragraphs | scraper.py:146 | the corrected chunks are the walk's chunks, in order, each with its tabs replaced; each has no tab and is longer than 80 characters |
| Segmenter.TabSurvivesAsWritten | scraper.py:146 | for a page whose chunk holds a tab, the chunk keeps the tab as written and loses it after the replacement |
| Links.Clean | scraper.py:198-201 | a cleaned match has no `"`, `>`, `<` or `#`; it is the stripped match cut before its first `#` |
| Links.CleanIdempotent | scraper.py:198-201 | cleaning a cleaned link changes nothing |
| Links.Admit | scraper.py:202-225 | a candidate is admitted iff its slug is not registered in the queue, no deny-listed substring occurs in it, and it is not an excluded URL; IndexError exactly for the empty candidate |
| Links.LinkMatches | scraper.py:186-193 | there are exactly as many matches as `loc` (sitemap) or `a` (page) elements |
| Links.LinkMatchesInOrder | scraper.py:186-193 | each `loc`/`a` element contributes its first match at the position given by the number of such elements before it: one match per element, in document order |
| Links.Candidates | scraper.py:192-201 | there are exactly as many candidates as elements whose pattern matched, and none holds a `#` |
| Links.CandidateAt | scraper.py:192-201 | the match of element `j` becomes, cleaned, the candidate at the position given by the number of matches before it |
| Links.CandidatesInOrder | scraper.py:192-201 | one cleaned candidate per match, in document order |
| Links.Enqueue | scraper.py:192-226 | the queue only grows; each new entry is a candidate admitted against the queue before it; IndexError iff some candidate is empty |
| Links.EnqueueSnoc | scraper.py:192-226 | one more candidate is appended exactly when it is admitted against the queue the earlier candidates left, otherwise the queue stays; so of two same-slug candidates the earlier one is queued |
| Links.EnqueueKeepsOrder | scraper.py:192-226 | the new entries keep the page's order of candidates |
| Links.EnqueueComplete | scraper.py:202-226 | every candidate that passes the deny-list and the exclusions ends up registered by slug in the queue |
| Links.SameSlugQueuedOnce | scraper.py:202 | two candidates with one slug add at most one entry |
| Links.ParseBlogPagesLinks | scraper.py:185-229 | IndexError exactly when some cleaned candidate is empty; otherwise the current URL is appended to the visited pages, the cursor moves by exactly one, the new queue is what `Enqueue` makes of the old queue and the page's cleaned candidates, and the record counter and storage flag stay |
| Links.ParsedLinksAdmissible | scraper.py:197-226 | every entry the parse appends is admissible against the queue before it: no `#`, an unregistered slug, through the deny-list and the exclusions |
| Links.QueueStaysFresh | scraper.py:202-226 | appending admissible entries keeps the queue slug-fresh |
| Indexing.DateField | scraper.py:81-85 | the stored date is empty iff there is none; otherwise it is the `isoformat()` rendering of the date, 19 characters that read back as the date |
| Indexing.IdBlock | scraper.py:88-89 | the ids are canonical decimal strings that read as `first`, `first + 1`, ... |
| Indexing.IdsFromAreDecimalStrings | scraper.py:88-89 | ids meeting `IdsFrom` are exactly `str(first)`, `str(first + 1)`, ... |
| Indexing.IdsFromAppend | scraper.py:88-90 | consecutive id blocks continue one another |
| Indexing.IdsFromDistinct | scraper.py:88-89 | ids from a run of consecutive numbers never repeat |
| Indexing.IndexPage | scraper.py:75-92 | when storing with n > 0 paragraphs, the upsert is aligned: documents are the paragraphs, ids read as `database_index ..+n-1`, every record has the page's metadata, and `database_index` grows by n; otherwise nothing is written and the state is unchanged |
| Crawler.StoreChunks | scraper.py:75-92 | an upsert is written exactly when storing is on and the page has chunks; it holds the chunks (with their tabs as written, replaced when corrected), ids continuing the counter, and the URL, title and stored date for each |
| Crawler.AsWrittenStoresTabs | scraper.py:146 | on a page whose chunk holds a tab, the as-written store block stores the tab, and the corrected one does not |
| Crawler.StoreAndFollow | scraper.py:75-100 | after the store block, link discovery fails exactly when some cleaned candidate is empty, keeping the upsert; otherwise the URL is appended, the cursor moves by one and the new queue is `Enqueue` of the old queue and the page's cleaned candidates, each new entry admissible |
| Crawler.VisitPage | scraper.py:49-100 | one visit meets `VisitSpec`: an empty URL raises before anything is written; a URL is skipped iff its slug is among the visited; for a new URL the visit fails exactly when the date lookup raises or a candidate is empty, and once the date is read its upsert is that of `StoreChunks` on the fetched page, title and date; a visit that follows links leaves the queue that `Enqueue` makes of the fetched page's cleaned candidates |
| Crawler.Visitor | scraper.py:49-100 | every visit of the model meets `VisitSpec` |
| Crawler.CrawlFrom | scraper.py:49-100 | records once written stay written, through a crash as well |
| Crawler.Crawl | scraper.py:49-100 | an empty seed crashes with IndexError and nothing written; in single-page mode, nothing is queued or marked visited |
| Crawler.FailedVisitKeepsRecords | scraper.py:49-100 | a visit that raises ends the run with its records kept well formed, ids gapless, and every record naming a visited page or the page that raised |
| Crawler.RecordVisit | scraper.py:75-92 | a visit keeps the records well formed, the ids gapless from 1, and the counter just past the last id |
| Crawler.VisitKeepsTrail | scraper.py:55-100 | a visit keeps both lists slug-fresh, the cursor equal to the number of visits, and the seed first |
| Crawler.CrawlFromKeepsTrail | scraper.py:49-100 | the trail survives any number of visits, and a crash keeps its records; each visit spends one unit of budget |
| Crawler.CrawlKeepsTrail | scraper.py:49-100 | every crawl, crashed or not, ends with slug-fresh lists, gapless ids from 1, every record naming a visited page (or the page that raised), and at most the budget in visits |
| Crawler.CrawlNeverReusesIds | scraper.py:88-92 | no record id is written twice in a crawl, crashed or not; with storing off nothing is written and the counter stays 1 |
| Crawler.CrawlFromAsWritten | scraper.py:94-100 | with the source's cursor, the i-th visit after the seed is queue entry i |
| Crawler.FirstQueuedNeverVisited | scraper.py:94-100 | as written, the crawl visits the seed, then the queue from its second entry; the first queued entry is never among the visits after the seed; an already-visited next URL ends the crawl |
| Crawler.CrawlFromIntended | scraper.py:94-100 | with the corrected cursor, the visits after the seed are the queue's prefix |
| Crawler.IntendedVisitsEveryQueued | scraper.py:94-100 | with the corrected cursor, a crawl that runs out of queue has visited the seed and then every queued page, once each, in order |

## Left out

- Fetching and parsing (`requests.get`, BeautifulSoup): these are network I/O and a foreign library. The page behind a URL is the `fetch` function of `Crawler.Environment`, and it always returns a page. Fetch errors are not modelled.
- The regexes at scraper.py:120, 188 and 191, and `datetime.strptime`: foreign library behaviour. The date pattern with `strptime` is the `scanDate` parameter (no match, unparsable, or a date). The link pattern is `firstLinkMatch`, which gives the first match in an element's markup, if any.
- `Document.ValidDate` bounds the day by 31 only. `strptime`'s per-month calendar check is part of `scanDate`.
- The class attribute in sitemap mode is a string, so the `publication-info` test there is a substring test. The model treats classes as a list of words in both modes.
- `save` and the chromadb client (scraper.py:25-47, 158-172): an external service. An upsert is recorded as data. A failure of `save` is not modelled.
- Embeddings, embedding.py, test_queries.py, the TSV script and main.py's flag parsing, timing and printing: outside the crawler.
- All `cprint`/`colored`/`pprint` verbose output.
- Crawler.CrawlFrom: Python's recursion has no bound here (its recursion limit aside). The model bounds the number of visits by a budget, `maxPages`, and reports `OutOfFuel` when the budget runs out. No claim is made about crawls longer than the budget.
- Crawler.StoreAndFollow: when link discovery raises, the candidates that `parse_blog_pages_links` appended before the empty one are not kept in the crashed run's queue. The exception ends the program, so only the records written survive it.

## Findings

| source | as written | input that shows it | evidently intended | confidence | as-written member | corrected member |
|---|---|---|---|---|---|---|
| scraper.py:94-100 | the seed's visit advances `url_index` to 1 (scraper.py:229), but the seed is never put in `urls_to_visit`; the continuation reads `urls_to_visit[url_index]`, so the crawl resumes at the second queued URL | a seed page that queues one link or more, e.g. main.py:16's sitemap: its first `loc` entry is queued and never visited | resume at `urls_to_visit[url_index - 1]`, so that every queued page is visited | medium; not executed | Crawler.FirstQueuedNeverVisited | Crawler.IntendedVisitsEveryQueued |
| scraper.py:146 | `paragraph.replace("\t", "  ")` returns a new string that is thrown away, so stored chunks keep their tabs | a first `p` followed by a `p` holding a tab and 80 letters, an empty `p` and an `h2` | the chunk is stored with each tab replaced by two spaces | high; not executed | Segmenter.TabSurvivesAsWritten | Segmenter.Paragraphs |
