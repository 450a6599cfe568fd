/**
 * What the browser shows the scraper, as plain values. Each value stands for the outcome of loading
 * one page and running the HTML/JSON lookups on it (driver.py, BeautifulSoup, `execute_script`),
 * reduced to the fields the crawl logic reads and the exception it raises when they are absent.
 */
module Site {
  import opened Wrappers
  import opened Types

  /** `location` of a search result. */
  datatype Location = Location(countryCode: string, cityName: Option<string>)

  /** The `listing` part of `window.__CONFIG__` on a listing page. */
  datatype ListingConfig = ListingConfig(
    adType: string,
    priceType: string,
    priceCents: int,
    viewCount: int,
    favoritedCount: int,
    since: string)

  /** One `Attributes-item` block: its label text (`name`) and its value text, each possibly absent. */
  datatype Attribute = Attribute(name: Option<string>, value: Option<string>)

  /** A loaded listing page: the description text (absent: no description element), the attribute
      blocks, and the configuration object (absent: the script returned nothing usable). */
  datatype DetailPage = DetailPage(
    description: Option<string>,
    attributes: seq<Attribute>,
    config: Option<ListingConfig>)

  /** A failure other than rate limiting. */
  type Refusal = f: Fault | f != Forbidden witness SiteError

  /** The first answer to a listing-page load that is not a rate limit. */
  datatype DetailAnswer = Loaded(page: DetailPage) | LoadFailed(fault: Refusal)

  /** Loading a listing page: `rateLimited` ForbiddenError answers, then `answer`. */
  datatype DetailFetch = DetailFetch(rateLimited: nat, answer: DetailAnswer)

  /** One entry of the search result list of a result page (`__NEXT_DATA__` listings), together with
      what loading its own page will give. */
  datatype RawItem = RawItem(
    itemId: string,
    categoryId: int,
    title: string,
    vipUrl: string,
    pictures: seq<string>,
    verticals: seq<string>,
    location: Option<Location>,
    sellerId: Option<string>,
    detail: DetailFetch)

  /** One attempt to load and parse a search result page. */
  datatype PageAttempt = Results(items: seq<RawItem>) | PageFailed(fault: Fault)

  /** The category page as `listings_count` reads it. */
  datatype CountPage =
    | CountFailed(fault: Fault)  // loading or waiting raised
    | NoLabel                    // no `offeredSince-Altijd` label
    | NoCounter                  // the label has no counter span
    | Counter(text: string)      // the counter's stripped text

  /** An `<option>` of the category select box: its first child as text (`None` when it has no
      children) and its `value`, if any. */
  datatype OptionElem = OptionElem(name: Option<string>, value: Option<string>)

  /** A `category-name` link: its first child as text (`None` when it has no children) and its
      `href`, if any. */
  datatype Anchor = Anchor(name: Option<string>, href: Option<string>)

  /** The category page as `__get_subcategories` reads it. */
  datatype SubcategoryPage =
    | NoCategoryList               // waiting for the category list timed out
    | SubcategoryFailed(fault: Fault)
    | SubcategoryHtml(select: Option<seq<OptionElem>>, hasList: bool, anchors: seq<Anchor>)

  /** A `CategoriesBlock-listItem` of the home page: without a navigation link, or with one whose
      `href` may be absent. */
  datatype HomeEntry = NoLink | Link(href: Option<string>)

  datatype HomePage = HomeFailed(fault: Fault) | Home(entries: seq<HomeEntry>)

  /** The site: the home page, and per category its count page, its subcategory page and the
      answers to the successive search-page loads of a crawl of it. Loads beyond the end of
      `searchPages` return an empty result page. */
  datatype World = World(
    home: HomePage,
    countPage: Category -> CountPage,
    subcategoryPage: Category -> SubcategoryPage,
    searchPages: Category -> seq<PageAttempt>)
}
