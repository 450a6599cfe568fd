# marktplaats-scraper crawl logic in Dafny

This project models the crawl bookkeeping of `mpscraper`, a scraper for the Dutch marketplace
marktplaats.nl, and proves properties of it. Every browser, HTML and JSON step is an input
value: a `Site.World` gives the home page, and for each category its count page, its
subcategory page and the successive answers to its search-page loads.

The files follow the program's modules:

- `wrappers.dfy` (`Wrappers`): `Option` and `Result`, wherever the program returns `None` or raises.
- `types.dfy` (`Types`):
  - the records of `listing.py` and the `Category` tuple;
  - the exception kinds the crawl tells apart, as `Fault`;
  - why `get_listings` gives up (`Abort`).
- `site.dfy` (`Site`): what each page load shows the scraper, reduced to the fields the code reads.
- `text.dfy` (`Text`): the Python string operations the code relies on:
  - `str.split()`, `str.split(sep)`, `sep.join`, `str.strip`;
  - `int(s)`, `str(n)`, ASCII `str.lower`;
  - with their round trips.
- `utils.dfy` (`Utils`): `format_text`, `diff_hours` and `remove_duplicate_listings`.
- `set_order.dfy` (`SetOrder`): one order of a Python `set`, for the loops that iterate over one.
- `mpscraper.dfy` (`MpScraper`):
  - `__get_url_with_options`;
  - parent-category discovery;
  - `listings_count`;
  - `__get_subcategories`;
  - `__get_listing_details`;
  - the accumulation and pagination loops of `get_listings`.
- `scraper_main.dfy` (`ScraperMain`): `get_args`'s environment-over-flag rule and the run planner of `main`:
  - known ids;
  - recrawl pruning;
  - the parent-category loop with `remaining_limit` and `stop`;
  - the final deduplicated save.

The loops of the source are `while`/`for` loops here, each proved against a function or
predicate of its inputs:

- the home-page entry loop;
- the link and option loops;
- the attribute loop;
- the item and page loops of `get_listings`;
- the id, recrawl and parent-category loops of `main`.

The pure helpers are functions with lemmas.

`get_listings` returns more than its result. It also gives the categories crawled and the final
accumulator: `listings`, `item_ids`, `max_listings`, and a log of what happened to each search
result. It gives the log of page loads too. `CrawlOf` is the whole crawl as a function of the
site's answers, and the loops are proved to compute it. The invariants `Sound`, `Paginated` and
`Answered` are stated over the logs: each event is the turn of its own search result, and each
page load agrees with the answer it got. The lemmas after `GetListings` turn the invariants into
the promises of the code and its tests.

## Model

| member | source | states |
|---|---|---|
| MpScraper.WithSlash | mpscraper/mpscraper.py:97-98 | the result ends in `/`, starts with the URL, is at most one longer, and equals the URL exactly when the URL already ends in `/` |
| MpScraper.UrlWithOptions | mpscraper/mpscraper.py:94-100 | fails (the `IndexError` of `category_url[-1]`) exactly on an empty URL; otherwise the slashed URL, `p/`, the page number, `/` and the fixed sort options |
| MpScraper.UrlWithOptionsInjective | mpscraper/mpscraper.py:94-100 | two page numbers of one category give the same URL only when they are equal |
| MpScraper.PageUrlInjective | mpscraper/mpscraper.py:100 | the page number can be read back from `{url}p/{n}/{opts}` |
| MpScraper.DecodeCategoryHrefMeaning | mpscraper/mpscraper.py:123-126 | an `href` decodes exactly when it has a fourth `/`-piece and its third piece reads as an int; the category is that int with `{base}/l/{fourth piece}`; every failure is the `IndexError`/`ValueError` kind |
| MpScraper.DecodeCategoryHrefOf | mpscraper/mpscraper.py:123-126 | `/<section>/<id>/<slug>[/...]` decodes to `Category(id, base + "/l/" + slug)` for every int id and slash-free section and slug |
| MpScraper.HrefPieces | mpscraper/mpscraper.py:123 | `split("/")` of such a link yields the id as piece 2 and the slug as piece 3 |
| MpScraper.EntryCategory | mpscraper/mpscraper.py:112-126 | an entry without its navigation link fails with `ElementNotFound`, a link without `href` with a `KeyError`, otherwise the `href`'s decoding |
| MpScraper.PickEntry | mpscraper/mpscraper.py:111-127 | one turn of the entry loop agrees with the entry's specification |
| MpScraper.GetParentCategories | mpscraper/mpscraper.py:102-129 | a failed home-page load fails with its fault; otherwise the result is that of the entry specification `ParentCategoriesOf` |
| MpScraper.EntryPickMeaning | mpscraper/mpscraper.py:111-127 | an entry stops the discovery exactly when it is not a link with a decodable `href`, and otherwise contributes exactly its decoded category |
| MpScraper.ParentCategoriesOfExactly | mpscraper/mpscraper.py:102-129 | the discovery succeeds exactly when every entry is a link with a decodable `href`, and then the parent categories are exactly the decoded ones |
| MpScraper.GatherSuccess | mpscraper/mpscraper.py:111-127 | a loop that raises on a bad element succeeds exactly when no element is bad |
| MpScraper.GatherFirstFailure | mpscraper/mpscraper.py:111-127 | a failing loop raises the error of the first bad element, with no bad element before it |
| MpScraper.GatherMember | mpscraper/mpscraper.py:127 | after a successful loop, a category is in the set exactly when some element names it |
| MpScraper.GatherFailureStays | mpscraper/mpscraper.py:113 | once an element raises, later elements change nothing |
| MpScraper.GatherStep | mpscraper/mpscraper.py:127 | one turn over an element that does not raise adds its category, if any |
| MpScraper.GatherStop | mpscraper/mpscraper.py:113 | a turn over an element that raises ends the whole loop with its error |
| MpScraper.RemoveCountPunctuation | mpscraper/mpscraper.py:220 | `re.sub("[.,()]", "", t)` leaves no dot, comma or parenthesis, and is no longer than its input |
| MpScraper.RemoveCountPunctuationAppend | mpscraper/mpscraper.py:220 | removal distributes over concatenation |
| MpScraper.RemoveCountPunctuationNone | mpscraper/mpscraper.py:220 | text without those characters is left unchanged |
| MpScraper.ParseCountOfGroups | mpscraper/mpscraper.py:219-221 | `(d.ddd)` or `(d,ddd)`, any number written in parentheses with dots or commas between its digit groups, reads back as that number |
| MpScraper.ListingsCount | mpscraper/mpscraper.py:202-225 | succeeds exactly when the counter exists and its text parses; a missing label or counter is `ElementNotFound`; a failed load keeps its fault |
| MpScraper.EffectiveLimit | mpscraper/mpscraper.py:308-312 | the limit becomes the count when it is 0 or above the count and is kept otherwise; never above the count |
| MpScraper.AnchorHrefsDomain | mpscraper/mpscraper.py:157-171 | a link text is in `category_hrefs` exactly when some link with that text has an `href` |
| MpScraper.AnchorHrefsLast | mpscraper/mpscraper.py:161-171 | the entry of a link text is the `href` of the last such link: the dict keeps the last write |
| MpScraper.CollectHrefs | mpscraper/mpscraper.py:157-171 | the link loop succeeds exactly when every link with an `href` has a text (`contents[0]`), then fills `category_hrefs` as `AnchorHrefs` specifies; otherwise it raises `IndexError` (`Unexpected`) |
| MpScraper.OptionPickMeaning | mpscraper/mpscraper.py:175-198 | an option names a subcategory exactly when it has a text, its value is present, non-empty, numeric, neither the parent id nor 0, and its text has a link; the subcategory is that id with the base URL and the link; an option raises exactly when it has no text (even one that would be skipped), on a non-numeric value, or on a missing link |
| MpScraper.PickOption | mpscraper/mpscraper.py:179-198 | one turn of the option loop agrees with `OptionPick` |
| MpScraper.SubcategoriesOfExactly | mpscraper/mpscraper.py:173-200 | the option loop succeeds exactly when no option raises, and then keeps exactly the named subcategories |
| MpScraper.SubcategoriesExcludeParent | mpscraper/mpscraper.py:190-191 | no subcategory has the parent's id or `ALL_CATEGORIES_ID` |
| MpScraper.CollectSubcategories | mpscraper/mpscraper.py:173-200 | the option loop yields `SubcategoriesOf`, failing at the first option that raises |
| MpScraper.GetSubcategories | mpscraper/mpscraper.py:131-200 | a wait timeout gives no subcategories; a missing select box or list is `ElementNotFound`; otherwise the link loop, then the option loop |
| MpScraper.AttributeValuesAreSplit | mpscraper/mpscraper.py:265-269 | the values are always the pieces of `split(", ")`, the `", "` test is redundant, and the pieces join back to the text |
| MpScraper.UnionOverMember | mpscraper/mpscraper.py:272-274 | a value is in a union built by the loop exactly when some block contributes it |
| MpScraper.UnionOverStep | mpscraper/mpscraper.py:272-274 | one more block adds its values to the union |
| MpScraper.AttributeSetsExactly | mpscraper/mpscraper.py:255-274 | a value is a type (a service) exactly when a block whose lower-cased label is `type` (`service`) lists it |
| MpScraper.CollectAttributes | mpscraper/mpscraper.py:251-274 | the attribute loop yields the `type` and `service` sets of `AttributeSets` |
| MpScraper.GetListingDetails | mpscraper/mpscraper.py:227-298 | the details of `ListingDetailsOf`; fails exactly when the description or the configuration object is missing; the description is the page's |
| MpScraper.DetailOutcomeOf | mpscraper/mpscraper.py:437-475 | readable details are used; `MPError` and `ElementNotFound` skip the item; anything else leaves the item loop, never with a rate-limit, site or element fault |
| MpScraper.RateLimitOnlyDelays | mpscraper/mpscraper.py:440-453 | any number of `ForbiddenError` answers before the first other answer leaves the outcome unchanged |
| MpScraper.FetchDetail | mpscraper/mpscraper.py:437-475 | the fetch agrees with `DetailOutcomeOf` |
| MpScraper.MakeListing | mpscraper/mpscraper.py:426-520 | the listing keeps the item id and the child category id, carries the parent's id and the crawl instant, and its URL is the base URL followed by `vipUrl` |
| MpScraper.MakeListingText | mpscraper/mpscraper.py:425-506 | the title and the description are whitespace-collapsed text with the same words as the search result's title and the page's description |
| MpScraper.PageVerdict | mpscraper/mpscraper.py:528-564 | `ForbiddenError`, `MPError`, `ElementNotFound`, timeouts and a lost connection retry the page; other driver errors propagate; an interrupt becomes `ListingsInterrupt`; anything else becomes `ListingsError` |
| MpScraper.Handle | mpscraper/mpscraper.py:393-564 | a processed page advances; a retry answers only a retryable fault; `UnexpectedCategoryId` aborts with both ids; the loop goes on exactly when the load did not end the crawl |
| MpScraper.SoundRecord | mpscraper/mpscraper.py:401-524 | a search-result event that follows its rule keeps the accumulator sound |
| MpScraper.TurnMeaning | mpscraper/mpscraper.py:405-475 | one turn over a result: a sponsored id (`a...`) is skipped exactly when it starts with `a`; a known id is skipped exactly when it is not sponsored and known; a fresh result of another category stops with `UnexpectedCategoryId`; a fresh result of this category is accepted exactly when its details are read, logged as a failed fetch exactly when the fetch skips it, and raises exactly when its id is empty or the fetch escalates; an accepted listing is made from that result and its details |
| MpScraper.TakeTurn | mpscraper/mpscraper.py:405-475 | one turn of the item loop agrees with `Turn` |
| MpScraper.ItemsRunSound | mpscraper/mpscraper.py:401-524 | the item loop keeps the accumulator sound and within the limit, and only extends it |
| MpScraper.ItemsRunEnd | mpscraper/mpscraper.py:420-475 | an item loop that stops on a mismatch names the category's id and a different one; an escaping fault is neither a rate limit, a site error nor a missing element |
| MpScraper.ItemsRunTrace | mpscraper/mpscraper.py:401-524 | the item loop logs one event per result, in order, each the turn of that result given the events before it; it stops when the limit is reached (lines 402-403), after the last result, or at the first result whose turn leaves the loop, with that turn's end |
| MpScraper.ItemsRunFills | mpscraper/mpscraper.py:401-524 | on results that would all be accepted, with distinct new ids, the loop reads them all and accepts one per result up to the limit; the cap stays |
| MpScraper.ListingsSoundAccept | mpscraper/mpscraper.py:522-523 | appending an admitted listing with a new id below the limit keeps the listings sound |
| MpScraper.ProcessItems | mpscraper/mpscraper.py:401-524 | the item loop yields `ItemsRun` of the page's results; the accumulator stays sound and only grows; a category mismatch reports the item's and the category's ids; an escaping fault is never one the detail fetch absorbs |
| MpScraper.CrawlPage | mpscraper/mpscraper.py:338-564 | one page pass yields `PageRun`; the accumulator stays sound and only grows; the load agrees with its answer (`AnswerFits`); the loop goes on exactly when the load did not end it; a retry answers only a retryable fault; an empty URL aborts; a mismatch names both ids; an escape is a driver failure |
| MpScraper.PageRunSound | mpscraper/mpscraper.py:338-564 | one page pass below the cap keeps the accumulator sound and only extends it |
| MpScraper.PageRunFits | mpscraper/mpscraper.py:338-564 | a page load runs out of results exactly when the URL is buildable and the answer is missing or empty, is processed only on non-empty results, and is retried only after its own fault; the loop goes on exactly when the load did not end it; an empty URL aborts; a mismatch names both ids; an escape is a driver failure |
| MpScraper.PaginatedAppend | mpscraper/mpscraper.py:337-550 | a load of the page `NextPage` names keeps the page log paginated |
| MpScraper.CrawledPage | mpscraper/mpscraper.py:338-564 | after one more load the page-loop state holds, and a load that exhausts or ends the category leaves it crawled |
| MpScraper.CrawledAtCap | mpscraper/mpscraper.py:338 | a page loop that reached `max_listings` leaves the category crawled and lets the crawl go on |
| MpScraper.CrawlCategory | mpscraper/mpscraper.py:336-564 | the page loop of one category yields `PagesRun` from page 1; its accumulator stays sound and grows; its loads extend the log, stay paginated and agree with their answers; it may move on exactly when it finished; below the cap the category ran out of results; an abort or escape carries its cause |
| MpScraper.PagesRunStep | mpscraper/mpscraper.py:337-526 | one turn of the page loop: after a load that exhausts or ends the category the loop stops; otherwise it goes on with the next page after a processed page and the same page after a retry, and only while answers remain |
| MpScraper.PageStepLogged | mpscraper/mpscraper.py:337-564 | one more load keeps the page log of the category, and the page the loop asks for next follows `NextPage` |
| MpScraper.PagesRunSound | mpscraper/mpscraper.py:336-564 | the page loop keeps the accumulator sound and only extends it |
| MpScraper.PagesRunLogged | mpscraper/mpscraper.py:337-564 | from any point inside the page loop, the rest of the loop logs its loads as `PagesLogged` says |
| MpScraper.CategoryRunCrawled | mpscraper/mpscraper.py:336-564 | from page 1, the page loop of a category satisfies `CategoryCrawled` |
| MpScraper.ExhaustedInPrefix | mpscraper/mpscraper.py:393-399 | a category seen to run out of results stays so as the log grows |
| MpScraper.CrawlCategories | mpscraper/mpscraper.py:336-566 | the category loop yields the crawl `CrawlOf` of its inputs and `Concluded` holds: sound accumulator, paginated and answered loads; complete with the cap reached or every category out of results, partial after an ending load, and raised only on a driver failure |
| MpScraper.CategoriesRunConcluded | mpscraper/mpscraper.py:336-566 | from any category on, with the earlier ones out of results below the cap, the rest of the loop ends `Concluded` |
| MpScraper.CrawlOfConcluded | mpscraper/mpscraper.py:336-566 | the crawl of every call, as a function of the site, ends `Concluded` |
| MpScraper.CategoriesRunAtCap | mpscraper/mpscraper.py:336-338 | once the cap is reached the remaining categories load nothing and the crawl is complete with the listings so far |
| MpScraper.JobFor | mpscraper/mpscraper.py:308-313 | the crawl works with the effective limit, in no-cap mode exactly when that limit equals the count |
| MpScraper.GetListings | mpscraper/mpscraper.py:300-566 | a count failure propagates; a subcategory failure becomes `ListingsError` with no listings (an interrupt propagates); otherwise the categories are the subcategories or the parent alone and the crawl is `CrawlOf` that job, `Concluded`; every returned or carried list is within a positive limit and empty for a negative one |
| MpScraper.SoundListings | mpscraper/mpscraper.py:305-523 | the listings are within the effective limit, pairwise distinct, none known to the caller, none sponsored, all of the requested parent; `item_ids` is the caller's copy plus their ids |
| MpScraper.ListingsOfCrawledCategories | mpscraper/mpscraper.py:420-502 | every listing's child category id is that of a crawled category |
| MpScraper.CrawledCategory | mpscraper/mpscraper.py:420-502 | a crawled listing carries the parent's id and one crawled category's id |
| MpScraper.AcceptedAreCrawled | mpscraper/mpscraper.py:401-523 | every accepted listing was made from a search result of a crawled category whose details were read |
| MpScraper.EventsSoundAll | mpscraper/mpscraper.py:401-524 | every event in the log followed its rule given the events before it |
| MpScraper.CapAccounting | mpscraper/mpscraper.py:411-475 | `max_listings` is the effective limit less one per failed detail fetch and, in no-cap mode only, one per known id; every event is of a search result of a crawled category; a failed fetch is the one of its own result and a site error or missing element; known ids are the caller's or accepted earlier; skipped ads start with `a` |
| MpScraper.EventOfItem | mpscraper/mpscraper.py:405-475 | each logged event is decided by its own search result: the result is on a crawled category's pages, skipped as sponsored exactly when its id starts with `a`, skipped as known exactly when not sponsored and known, a failed fetch exactly when fresh and the fetch skips it, with that fault, and accepted exactly when fresh and its details are read |
| MpScraper.ShrinkCountMonotone | mpscraper/mpscraper.py:411-475 | the decrements only accumulate: `max_listings` never grows |
| MpScraper.ExactlyTheLimit | mpscraper/mpscraper.py:338-403 | without lost items, a complete crawl returns exactly the effective limit unless every category was read until a load whose answer had no results |
| MpScraper.ExactlyTheLimitOnSite | mpscraper/mpscraper.py:300-524 | when the first page of the first category holds at least the limit of acceptable results with distinct new ids, the crawl is complete with exactly the limit |
| MpScraper.PaginatedSteps | mpscraper/mpscraper.py:337-550 | the page log starts at page 1 and each load follows the step rule |
| MpScraper.PaginationRules | mpscraper/mpscraper.py:337-564 | the crawl gives up only on its last load; an empty page ends its category; each category starts at page 1; the page number goes up exactly after a processed page and stays exactly after a retry; retries come only from the five retryable faults |
| MpScraper.PageNumbering | mpscraper/mpscraper.py:336-526 | categories are crawled one after another, and each load asks for one more than the number of processed pages of its category before it |
| Utils.FormatTextMeaning | mpscraper/utils.py:57-65 | no whitespace at either end and no two whitespace characters in a row; the same words as the input, in order |
| Utils.FormatTextIdempotent | mpscraper/utils.py:57-65 | collapsing twice is collapsing once |
| Utils.FormatTextCons | mpscraper/utils.py:61 | a word with a whitespace run after it collapses to the word and one space |
| Utils.FormatTextOfFive | mpscraper/utils.py:61 | five words separated by any whitespace runs collapse to the words joined by single spaces |
| Utils.FormatTextExample | tests/test_mpscraper.py:125-135 | `"Text    with            too much   spacing"` collapses to `"Text with too much spacing"` |
| Utils.DiffHoursWholeSeconds | mpscraper/utils.py:21-26 | `days * 24 + seconds / 3600` equals the elapsed whole seconds (sub-second part dropped) over 3600 |
| Utils.DiffHoursOfOffset | mpscraper/utils.py:21-26 | an offset of a whole number of seconds comes back exactly |
| Utils.DiffHoursTestOffsets | tests/test_mpscraper.py:137-144 | the offsets 0.5, 1.0, 2.5, 3.99, 4.33 and 5.00 hours come back exactly |
| Utils.DiffHoursSign | mpscraper/utils.py:23-26 | the difference is negative exactly when `last` precedes `first` |
| Utils.DiffHoursMonotone | mpscraper/utils.py:23-26 | a later `last` never gives a smaller difference |
| Utils.ItemIdsMembership | mpscraper/utils.py:36-37 | an id is in the id set exactly when some row has it |
| Utils.DistinctIdsAppend | mpscraper/__main__.py:181-185 | the ids stay distinct after appending a row exactly when its id is new |
| Utils.DedupeKeepsIds | mpscraper/utils.py:36-41 | every input `item_id` survives |
| Utils.DedupeDistinct | mpscraper/utils.py:36-38 | the surviving rows have pairwise distinct ids |
| Utils.DedupeKeepsLast | mpscraper/utils.py:36-38 | each surviving row is the last input row with its id |
| Utils.DedupeIsSubsequence | mpscraper/utils.py:36-38 | the surviving rows keep their relative order |
| Utils.DedupeInLastOrder | mpscraper/utils.py:36-38 | the surviving rows are, in order, the rows at the positions where an id occurs for the last time: `[A, B, A]` keeps `B` then the second `A` |
| Utils.DedupeOfDistinct | mpscraper/utils.py:36-41 | rows with distinct ids are left as they are |
| Utils.DedupeIdempotent | mpscraper/utils.py:36-41 | deduplicating twice is deduplicating once |
| Utils.DedupeSize | mpscraper/utils.py:36-38 | exactly one row per distinct id survives |
| Text.WordsOfJoin | mpscraper/utils.py:61 | `" ".join(ws).split() == ws` for words `ws` |
| Text.JoinNormalized | mpscraper/utils.py:61 | words joined by single spaces are collapsed text |
| Text.SplitOnJoin | mpscraper/mpscraper.py:267 | `sep.join(s.split(sep)) == s` |
| Text.SplitOnAbsent | mpscraper/mpscraper.py:266-269 | text without the separator splits into itself |
| Text.IntToStringParses | mpscraper/mpscraper.py:124 | `int(str(n)) == n` |
| Text.IntToStringInjective | mpscraper/mpscraper.py:100 | `str` tells integers apart |
| SetOrder.ToSeq | mpscraper/mpscraper.py:319 | a list of the set's elements, each exactly once |
| ScraperMain.BoolWord | mpscraper/__main__.py:138 | yes for the yes-spellings, no for the no-spellings, `ValueError` exactly for the rest |
| ScraperMain.ParseDecimalExtendsParseInt | mpscraper/__main__.py:142 | `float(s)` agrees with `int(s)` on every string `int` reads |
| ScraperMain.ResolveArgs | mpscraper/__main__.py:130-154 | a set, non-empty variable is parsed and wins, otherwise the flag is used; the result fails exactly when a set variable does not parse; `data_dir` and the browser paths come from the flags |
| ScraperMain.ResolveArgsWithoutEnvironment | mpscraper/__main__.py:130-154 | with no variable set the arguments are the flags |
| ScraperMain.EnvironmentWins | mpscraper/__main__.py:137-143 | a set variable decides its value whatever the flags say |
| ScraperMain.HeadlessAsWrittenIgnoresValue | mpscraper/__main__.py:138 | as written, any set `MP_HEADLESS` turns headless mode on |
| ScraperMain.HeadlessAsWrittenMisreads | mpscraper/__main__.py:138 | as written, every value the corrected reading takes as "no" turns headless mode on |
| ScraperMain.HeadlessFalseAsWritten | mpscraper/__main__.py:138 | as written, `MP_HEADLESS=false` with the flag off runs headless |
| ScraperMain.HeadlessFalseCorrected | mpscraper/__main__.py:138 | the corrected reading of `MP_HEADLESS=false` is off |
| ScraperMain.BuildKnownIds | mpscraper/__main__.py:178-185 | the known-id set is exactly the ids of the loaded rows, and `has_duplicates` holds exactly when some id repeats |
| ScraperMain.StaleIdsMembership | mpscraper/__main__.py:194-200 | an id is stale exactly when some row with it was crawled `recrawl_hours` or more before now |
| ScraperMain.PruneStale | mpscraper/__main__.py:192-200 | the recrawl loop leaves the known ids less the stale ones, and cannot hit the `KeyError` on a deduplicated dataset whose ids it holds |
| ScraperMain.RecrawledIffStale | mpscraper/__main__.py:194-200 | a row's id is left out of the known set exactly when it is stale; an item exactly at the threshold is recrawled |
| ScraperMain.PruneStaleAsWritten | mpscraper/__main__.py:193-199 | as written, the recrawl loop succeeds only on an empty dataset |
| ScraperMain.PruneStaleCounterexample | mpscraper/__main__.py:193-199 | a one-row dataset makes the written loop raise, where `PruneStale` cannot fail |
| ScraperMain.LoadDataset | mpscraper/__main__.py:173-200 | the rows are the loaded dataset, deduplicated and rewritten once when it had duplicates; the known ids are its ids less the stale ones |
| ScraperMain.ChainedFirst | mpscraper/__main__.py:221-244 | the first call gets the overall limit, and a second call follows only a first that continued, with what it left |
| ScraperMain.RemainingAccount | mpscraper/__main__.py:221-240 | each call's limit is the overall limit less everything kept before it |
| ScraperMain.LimitZeroOneCall | mpscraper/__main__.py:221-244 | with `limit <= 0` the loop stops after the first parent category |
| ScraperMain.TotalWithinLimit | mpscraper/__main__.py:221-258 | with a positive limit the run keeps no more listings than the limit, partial ones included |
| ScraperMain.KeptHasEveryCall | mpscraper/__main__.py:245-258 | what any call returned or carried in its exception is in the merged dataset |
| ScraperMain.CrawlParent | mpscraper/__main__.py:233-237 | one call of `get_listings` with the given parent, limit and known ids, kept within its limit |
| ScraperMain.ProgressStep | mpscraper/__main__.py:232-258 | a call that does not crash the run keeps the loop state, with `remaining_limit` and `stop` updated |
| ScraperMain.ProgressCrash | mpscraper/__main__.py:261-263 | a call that crashes the run leaves the kept listings as they were |
| ScraperMain.CrawlParents | mpscraper/__main__.py:220-263 | the merged rows are the loaded rows plus everything kept, in call order; the calls follow the `remaining_limit`/`stop` chain; the loop stops early only after a call that did not continue; a crash is a non-interrupt exception of the last call |
| ScraperMain.FinalSaveDeduped | mpscraper/__main__.py:265-270 | the file saved at the end has one row per id of the merged dataset, the last one |
| ScraperMain.SaveMerged | mpscraper/__main__.py:265-272 | the merged rows are saved deduplicated, and nothing is saved when they are empty |
| ScraperMain.CrawlDiscovered | mpscraper/__main__.py:216-272 | zero parent categories raise `CategoriesError` before any crawl; otherwise the parents are crawled in some order and the result saved |
| ScraperMain.CrawlSite | mpscraper/__main__.py:216-272 | discovery, then the parent loop, then the final save, as `SiteCrawled` states |
| ScraperMain.Run | mpscraper/__main__.py:173-272 | the duplicate rewrite comes first; a missing Chromium or ChromeDriver stops the run before any crawl; otherwise the site is crawled with the known ids and the loaded rows |

## Left out

- **Browser and parsing.** The Selenium driver, the waits, BeautifulSoup lookups,
  `json.loads` and `execute_script` are not modelled. Their outcomes are `Site` values: a
  fault where a load or a wait raises, a missing element, or the text and attributes that were
  read. An element's first child is taken as text; a first child that is itself a tag is not
  distinguished.
- **Number parsing.** `int()` and `float()` are modelled on ASCII digits, an optional sign and
  surrounding whitespace. Underscores, Unicode digits, exponents, `inf` and `nan` are not
  modelled.
- **String case.** `str.lower()` is modelled on ASCII letters only.
- **Floating point.** `recrawl_hours` and `seconds / 3600` are exact `real`s, not IEEE doubles.
- **Timestamps.** Instants are integer microseconds. The ISO-8601 text of `get_utc_now` and
  `fromisoformat` are not modelled.
- **The crawl clock.** One `now` stands for every `get_utc_now()` of a `get_listings` call.
- **Unread JSON fields.** A missing `extraExtraLargeUrl`, `countryAbbreviation` or other JSON
  key of a search result is not modelled. The `KeyError` it raises would end the crawl with
  `ListingsError`. Search results are given with those fields already read.
- MpScraper.RateLimitOnlyDelays: the unbounded `ForbiddenError` retry loop of the detail
  fetch is modelled by its outcome: a finite number of rate-limit answers, then the first other
  answer. A fetch that is rate-limited for ever is not modelled.
- **Page-level retries.** The page-level retries are bounded by the finite answer list of each
  category. Loads past its end read as an empty page, which ends the category. A site that fails
  for ever is not modelled.
- **I/O and the interface.** CSV reading and writing, `os.path.isfile` and directory creation
  are out: the dataset is a `seq<Listing>`, and the files written are returned as a list. Also
  out are `logging`, `tqdm`, `sleep`, the virtual display and the SIGTERM handler, which only
  turns the signal into `KeyboardInterrupt`, an abstract `Interrupt` fault here.
- **Set order.** Python iterates a `set` (the subcategories, the parent categories) in an
  unspecified order. The model takes some order and proves its properties for any.
- **`existing_item_ids`.** The caller's set is a value, so the copy at mpscraper.py:305 cannot
  alias it. The model does not show that the source copies it: a value cannot be mutated.
- **Missing `item_id` column.** A dataset file without an `item_id` column is not modelled:
  every row has an id.
- ScraperMain.ResolveArgs: reads `MP_HEADLESS` with the corrected `ParseBool` of the first
  Finding, not with `bool()` as mpscraper/__main__.py:138 does. As a result, `false`, `0` or `no`
  turn headless off, and a word outside the yes/no table is a `ValueError` (`Unexpected`) that the
  source never raises. The reading as written is `HeadlessAsWritten`; `EnvironmentWins` holds of
  both.
- ScraperMain.ResolveArgs: the `--headless` flag is `type=bool` in argparse, so any
  non-empty flag text means on. The model takes the flag value already parsed.
- ScraperMain.LoadDataset: prunes stale ids with the corrected `PruneStale` of the second
  Finding. As written, mpscraper/__main__.py:193-199 raises on the first row of any non-empty
  dataset; that loop is `PruneStaleAsWritten`.
- ScraperMain.Run: takes its known ids from `LoadDataset`, so it also uses the corrected
  recrawl rule. As written, a run with a non-empty dataset raises out of the recrawl loop and
  crawls nothing.
- **Unused source.** `driver.py`, `display.py`, the `close` method and the `Listing`
  conversions to pandas rows are not part of this model.

## Findings

| source | as written | input that shows it | evidently intended | confidence | as-written member | corrected member |
|---|---|---|---|---|---|---|
| mpscraper/__main__.py:138 | `bool(env_headless)` is true for every non-empty string | `MP_HEADLESS=false` with the flag off runs headless | read the value as a yes/no word such as `false`, `0` or `no` | not executed | ScraperMain.HeadlessAsWritten, ScraperMain.HeadlessFalseAsWritten | ScraperMain.ParseBool, ScraperMain.HeadlessFalseCorrected |
| mpscraper/__main__.py:193-199 | `get_utc_now()` returns a `str`, so `diff_hours(crawled_datetime, now_datetime)` subtracts a `datetime` from a `str` and raises `TypeError` | any existing dataset with at least one row | compare two `datetime`s and recrawl the rows at least `recrawl_hours` old | not executed | ScraperMain.PruneStaleAsWritten, ScraperMain.PruneStaleCounterexample | ScraperMain.PruneStale, ScraperMain.RecrawledIffStale |
