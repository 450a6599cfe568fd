/**
 * The records of mpscraper/listing.py, the `Category` tuple of mpscraper/mpscraper.py and the
 * exception kinds of mpscraper/exceptions.py (together with the library exceptions the crawl
 * loops catch by class).
 */
module Types {

  /** A marketplace category: its numeric id and its URL. */
  datatype Category = Category(id: int, url: string)

  /** What one listing page adds to a search result. */
  datatype ListingDetails = ListingDetails(
    description: string,
    adType: string,
    types: set<string>,
    services: set<string>,
    priceType: string,
    priceCents: int,
    viewCount: int,
    favoritedCount: int,
    listedTimestamp: string)

  /** A stored listing, one row of the dataset file. `crawledAt` is the crawl instant in
      microseconds; the ISO-8601 text the file holds is not modelled. */
  datatype Listing = Listing(
    itemId: string,
    sellerId: string,
    parentCategoryId: int,
    childCategoryId: int,
    categoryVerticals: seq<string>,
    adType: string,
    title: string,
    description: string,
    priceType: string,
    priceCents: int,
    types: set<string>,
    services: set<string>,
    listingUrl: string,
    imageUrls: seq<string>,
    cityName: string,
    countryCode: string,
    listedTimestamp: string,
    crawledAt: int,
    viewCount: int,
    favoritedCount: int)

  /** The exceptions that the crawl code distinguishes by class. */
  datatype Fault =
    | Forbidden       // ForbiddenError: the site rate-limits or blocks the session
    | SiteError       // MPError (and NotFoundError): the site shows an error message
    | ElementMissing  // ElementNotFound: an expected HTML element is absent
    | Timeout         // selenium TimeoutException
    | Disconnected    // WebDriverException whose message holds ERR_INTERNET_DISCONNECTED
    | DriverFailure   // any other WebDriverException
    | Interrupt       // KeyboardInterrupt (SIGTERM is turned into one)
    | Unexpected      // any other exception: KeyError, ValueError, IndexError, ...

  /** Why `get_listings` gave up while keeping the listings gathered so far. */
  datatype Abort =
    | Interrupted                                   // ListingsInterrupt
    | UnexpectedCategoryId(got: int, expected: int) // ListingsError caused by UnexpectedCategoryId
    | Failed(fault: Fault)                          // ListingsError caused by another exception
}
