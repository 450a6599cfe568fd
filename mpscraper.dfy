/**
 * mpscraper/mpscraper.py: the URL and text helpers of the scraper, category discovery, the
 * listing-page reader and the crawl of `get_listings`. Pages come from a `Site.World`.
 */
module MpScraper {
  import opened Wrappers
  import opened Text
  import opened Types
  import opened Site
  import opened Utils
  import SetOrder

  const BaseUrl: string := "https://marktplaats.nl"
  const RequestOpts: string := "#sortBy:SORT_INDEX|sortOrder:DECREASING"
  /** Item ids of sponsored advertisements start with this character. */
  const AdPrefix: char := 'a'
  const AllCategoriesId: int := 0
  const TypeKey: string := "type"
  const ServiceKey: string := "service"

  // ---- __get_url_with_options ----

  /** The URL with a `/` appended unless it already ends with one. */
  function WithSlash(url: string): (r: string)
    requires url != []
    ensures |r| > 0 && r[|r| - 1] == '/'
    ensures StartsWith(r, url) && |r| <= |url| + 1
    ensures r == url <==> url[|url| - 1] == '/'
  {
    if url[|url| - 1] != '/' then url + "/" else url
  }

  /** `__get_url_with_options`: the page URL of a category with the fixed sort options. An empty
      `category_url` makes `category_url[-1]` raise `IndexError`, modelled as `None`. */
  function UrlWithOptions(url: string, page: int): (r: Option<string>)
    ensures r.None? <==> url == []
    ensures r.Some? ==> r.value == WithSlash(url) + "p/" + IntToString(page) + "/" + RequestOpts
  {
    if url == [] then None else Some(WithSlash(url) + "p/" + IntToString(page) + "/" + RequestOpts)
  }

  /** Equal texts with the same first and last part agree in between. */
  lemma SameMiddle(head: string, a: string, b: string, tail: string)
    requires head + a + tail == head + b + tail
    ensures a == b
  {
    var u := head + a + tail;
    assert |a| == |b|;
    assert a == u[|head|..|head| + |a|];
    assert b == (head + b + tail)[|head|..|head| + |b|];
  }

  /** Different page numbers give different page URLs. */
  lemma PageUrlInjective(dir: string, opts: string, m: int, n: int)
    requires dir + "p/" + IntToString(m) + "/" + opts == dir + "p/" + IntToString(n) + "/" + opts
    ensures m == n
  {
    var a, b := IntToString(m), IntToString(n);
    assert dir + "p/" + a + "/" + opts == (dir + "p/") + a + ("/" + opts);
    assert dir + "p/" + b + "/" + opts == (dir + "p/") + b + ("/" + opts);
    SameMiddle(dir + "p/", a, b, "/" + opts);
    IntToStringInjective(m, n);
  }

  /** Different page numbers of one category give different URLs. */
  lemma UrlWithOptionsInjective(url: string, m: int, n: int)
    requires UrlWithOptions(url, m).Some? && UrlWithOptions(url, m) == UrlWithOptions(url, n)
    ensures m == n
  {
    PageUrlInjective(WithSlash(url), RequestOpts, m, n);
  }

  // ---- href decoding in get_parent_categories ----

  /** `href.split("/")`: the id is the third piece, the slug the fourth; a missing piece
      (`IndexError`) or a non-numeric id (`ValueError`) fails. */
  function DecodeCategoryHref(baseUrl: string, href: string): Result<Category, Fault> {
    var parts := SplitOn(href, "/");
    if |parts| < 4 then Failure(Unexpected)
    else match ParseInt(parts[2])
      case None => Failure(Unexpected)
      case Some(id) => Success(Category(id, baseUrl + "/l/" + parts[3]))
  }

  /** A link decodes exactly when it has a fourth `/`-piece and its third piece is a number; the
      category is that number and the fourth piece under `/l/`. Every failure is `Unexpected`. */
  lemma DecodeCategoryHrefMeaning(baseUrl: string, href: string)
    ensures DecodeCategoryHref(baseUrl, href).Success? <==>
      |SplitOn(href, "/")| >= 4 && ParseInt(SplitOn(href, "/")[2]).Some?
    ensures DecodeCategoryHref(baseUrl, href).Success? ==>
      Some(DecodeCategoryHref(baseUrl, href).value.id) == ParseInt(SplitOn(href, "/")[2]) &&
      DecodeCategoryHref(baseUrl, href).value.url == baseUrl + "/l/" + SplitOn(href, "/")[3]
    ensures DecodeCategoryHref(baseUrl, href).Failure? ==> DecodeCategoryHref(baseUrl, href).error == Unexpected
  {
  }

  lemma IntToStringHasNoSlash(n: int)
    ensures !Contains(IntToString(n), "/")
  {
    var s := IntToString(n);
    assert forall i :: 0 <= i < |s| ==> s[i] != '/' by {
      if n < 0 {
        assert s == "-" + NatToString(-n);
        forall i | 0 <= i < |s| ensures s[i] != '/' {
          if i > 0 {
            assert s[i] == NatToString(-n)[i - 1];
          }
        }
      }
    }
    ContainsChar(s, '/');
  }

  /** The pieces of `<sep><section><sep><digits><sep><slug><rest>` at the places the decoder reads. */
  lemma HrefPieces(sep: string, section: string, digits: string, slug: string, rest: string)
    requires |sep| == 1 && !Contains(section, sep) && !Contains(digits, sep) && !Contains(slug, sep)
    requires rest == [] || rest[0] == sep[0]
    ensures var pieces := SplitOn(sep + (section + (sep + (digits + (sep + (slug + rest))))), sep);
      |pieces| >= 4 && pieces[2] == digits && pieces[3] == slug
  {
    var afterSlug := slug + rest;
    var afterId := digits + (sep + afterSlug);
    var afterSection := section + (sep + afterId);
    var p3 := SplitOn(afterSlug, sep);
    SplitOnFirstPiece(sep, slug, rest);
    var p2 := SplitOn(afterId, sep);
    SplitOnFirst(digits, sep, afterSlug);
    var p1 := SplitOn(afterSection, sep);
    SplitOnFirst(section, sep, afterId);
    var p0 := SplitOn(sep + afterSection, sep);
    SplitOnLead(sep, afterSection);
    assert p0 == [""] + ([section] + ([digits] + p3));
  }

  /** A link of the form `/<section>/<id>/<slug>` (optionally followed by more path) decodes to
      that id and the base URL's `/l/<slug>` page. */
  lemma DecodeCategoryHrefOf(baseUrl: string, section: string, id: int, slug: string, rest: string)
    requires !Contains(section, "/") && !Contains(slug, "/")
    requires rest == [] || rest[0] == '/'
    ensures DecodeCategoryHref(baseUrl, "/" + (section + ("/" + (IntToString(id) + ("/" + (slug + rest))))))
         == Success(Category(id, baseUrl + "/l/" + slug))
  {
    IntToStringHasNoSlash(id);
    HrefPieces("/", section, IntToString(id), slug, rest);
    IntToStringParses(id);
  }

  // ---- the discovery loops: categories up to the first failure ----

  /** What a discovery loop does with one element: pass it over, keep the category it names, or
      stop with an error. */
  datatype Pick = Skip | Keep(category: Category) | Fail(fault: Fault)

  /** The categories the elements name, in a loop that stops at the first element that fails. */
  function Gather<T>(xs: seq<T>, pick: T -> Pick): Result<set<Category>, Fault> {
    if xs == [] then Success({})
    else
      match Gather(xs[..|xs| - 1], pick)
      case Failure(f) => Failure(f)
      case Success(found) =>
        match pick(xs[|xs| - 1])
        case Skip => Success(found)
        case Keep(c) => Success(found + {c})
        case Fail(f) => Failure(f)
  }

  /** Once an element fails, the loop fails with that error whatever follows. */
  lemma {:induction false} GatherFailureStays<T>(xs: seq<T>, pick: T -> Pick, i: nat)
    requires i <= |xs| && Gather(xs[..i], pick).Failure?
    ensures Gather(xs, pick) == Gather(xs[..i], pick)
    decreases |xs| - i
  {
    if i < |xs| {
      assert xs[..i + 1][..i] == xs[..i];
      GatherFailureStays(xs, pick, i + 1);
    } else {
      assert xs[..i] == xs;
    }
  }

  /** One turn of the loop over an element that does not fail. */
  lemma GatherStep<T>(xs: seq<T>, pick: T -> Pick, i: nat, found: set<Category>)
    requires i < |xs| && Gather(xs[..i], pick) == Success(found) && !pick(xs[i]).Fail?
    ensures Gather(xs[..i + 1], pick) ==
      Success(if pick(xs[i]).Keep? then found + {pick(xs[i]).category} else found)
  {
    assert xs[..i + 1][..i] == xs[..i];
  }

  /** One turn of the loop over an element that fails: the loop fails with its error. */
  lemma GatherStop<T>(xs: seq<T>, pick: T -> Pick, i: nat, found: set<Category>)
    requires i < |xs| && Gather(xs[..i], pick) == Success(found) && pick(xs[i]).Fail?
    ensures Gather(xs, pick) == Failure(pick(xs[i]).fault)
  {
    assert xs[..i + 1][..i] == xs[..i];
    GatherFailureStays(xs, pick, i + 1);
  }

  /** The loop succeeds exactly when no element fails. */
  lemma {:induction false} GatherSuccess<T>(xs: seq<T>, pick: T -> Pick)
    ensures Gather(xs, pick).Success? <==> forall k :: 0 <= k < |xs| ==> !pick(xs[k]).Fail?
  {
    if xs != [] {
      var init := xs[..|xs| - 1];
      GatherSuccess(init, pick);
      assert forall k :: 0 <= k < |init| ==> init[k] == xs[k];
    }
  }

  /** A failing loop reports the error of the first element that fails. */
  lemma {:induction false} GatherFirstFailure<T>(xs: seq<T>, pick: T -> Pick)
    requires Gather(xs, pick).Failure?
    ensures exists k :: 0 <= k < |xs| && pick(xs[k]).Fail? && Gather(xs, pick).error == pick(xs[k]).fault &&
                        (forall j :: 0 <= j < k ==> !pick(xs[j]).Fail?)
  {
    var init := xs[..|xs| - 1];
    assert forall k :: 0 <= k < |init| ==> init[k] == xs[k];
    if Gather(init, pick).Failure? {
      GatherFirstFailure(init, pick);
      var k :| 0 <= k < |init| && pick(init[k]).Fail? && Gather(init, pick).error == pick(init[k]).fault &&
        forall j :: 0 <= j < k ==> !pick(init[j]).Fail?;
      assert pick(xs[k]).Fail?;
    } else {
      GatherSuccess(init, pick);
      assert pick(xs[|init|]).Fail?;
    }
  }

  /** A successful loop keeps exactly the categories the elements name. */
  lemma {:induction false} GatherMember<T>(xs: seq<T>, pick: T -> Pick, c: Category)
    requires Gather(xs, pick).Success?
    ensures c in Gather(xs, pick).value <==> exists k :: 0 <= k < |xs| && pick(xs[k]) == Keep(c)
  {
    if xs != [] {
      var init := xs[..|xs| - 1];
      GatherMember(init, pick, c);
      if exists k :: 0 <= k < |xs| && pick(xs[k]) == Keep(c) {
        var k :| 0 <= k < |xs| && pick(xs[k]) == Keep(c);
        if k < |init| {
          assert init[k] == xs[k];
        }
      }
      if exists k :: 0 <= k < |init| && pick(init[k]) == Keep(c) {
        var k :| 0 <= k < |init| && pick(init[k]) == Keep(c);
        assert init[k] == xs[k];
      }
    }
  }

  // ---- get_parent_categories ----

  /** The category one home-page entry names: an entry without its navigation link raises
      `ElementNotFound`, a link without `href` a `KeyError`, otherwise the link is decoded. */
  function EntryCategory(e: HomeEntry, baseUrl: string): (r: Result<Category, Fault>)
    ensures e.NoLink? ==> r == Failure(ElementMissing)
    ensures e.Link? && e.href.None? ==> r == Failure(Unexpected)
    ensures e.Link? && e.href.Some? ==> r == DecodeCategoryHref(baseUrl, e.href.value)
  {
    match e
    case NoLink => Failure(ElementMissing)
    case Link(None) => Failure(Unexpected)
    case Link(Some(href)) => DecodeCategoryHref(baseUrl, href)
  }

  /** Every entry names a parent category or stops the discovery. */
  function EntryPick(e: HomeEntry, baseUrl: string): Pick {
    match EntryCategory(e, baseUrl)
    case Success(c) => Keep(c)
    case Failure(f) => Fail(f)
  }

  /** `get_parent_categories` after the home page is loaded: one category per entry, failing at
      the first entry that cannot be read. */
  function ParentCategoriesOf(entries: seq<HomeEntry>, baseUrl: string): Result<set<Category>, Fault> {
    Gather(entries, e => EntryPick(e, baseUrl))
  }

  /** One turn of the entry loop. */
  method PickEntry(e: HomeEntry, baseUrl: string) returns (p: Pick)
    ensures p == EntryPick(e, baseUrl)
  {
    if e.NoLink? {
      return Fail(ElementMissing);
    } else if e.href.None? {
      return Fail(Unexpected);
    }
    var c := DecodeCategoryHref(baseUrl, e.href.value);
    p := if c.Failure? then Fail(c.error) else Keep(c.value);
  }

  method GetParentCategories(home: HomePage, baseUrl: string) returns (r: Result<set<Category>, Fault>)
    ensures home.HomeFailed? ==> r == Failure(home.fault)
    ensures home.Home? ==> r == ParentCategoriesOf(home.entries, baseUrl)
  {
    if home.HomeFailed? {
      return Failure(home.fault);
    }
    var entries := home.entries;
    ghost var pick := e => EntryPick(e, baseUrl);
    var found: set<Category> := {};
    var i := 0;
    while i < |entries|
      invariant 0 <= i <= |entries|
      invariant Gather(entries[..i], pick) == Success(found)
    {
      var p := PickEntry(entries[i], baseUrl);
      if p.Fail? {
        GatherStop(entries, pick, i, found);
        return Failure(p.fault);
      }
      GatherStep(entries, pick, i, found);
      if p.Keep? {
        found := found + {p.category};
      }
      i := i + 1;
    }
    assert entries[..i] == entries;
    return Success(found);
  }

  /** What one entry contributes: it fails unless it is a link whose `href` decodes, and then it
      keeps the decoded category. */
  lemma EntryPickMeaning(e: HomeEntry, baseUrl: string)
    ensures !EntryPick(e, baseUrl).Fail? <==>
      e.Link? && e.href.Some? && DecodeCategoryHref(baseUrl, e.href.value).Success?
    ensures forall c :: EntryPick(e, baseUrl) == Keep(c) <==>
      e.Link? && e.href.Some? && DecodeCategoryHref(baseUrl, e.href.value) == Success(c)
  {
  }

  /** The parent categories are exactly the decoded links of the home page, and the discovery
      fails exactly when some entry cannot be decoded. */
  lemma ParentCategoriesOfExactly(entries: seq<HomeEntry>, baseUrl: string)
    ensures ParentCategoriesOf(entries, baseUrl).Success? <==>
      forall k :: 0 <= k < |entries| ==>
        (entries[k].Link? && entries[k].href.Some? && DecodeCategoryHref(baseUrl, entries[k].href.value).Success?)
    ensures ParentCategoriesOf(entries, baseUrl).Success? ==>
      forall c :: c in ParentCategoriesOf(entries, baseUrl).value <==>
        exists k :: 0 <= k < |entries| && entries[k].Link? && entries[k].href.Some? &&
          DecodeCategoryHref(baseUrl, entries[k].href.value) == Success(c)
  {
    var pick := e => EntryPick(e, baseUrl);
    forall k | 0 <= k < |entries| {
      EntryPickMeaning(entries[k], baseUrl);
    }
    GatherSuccess(entries, pick);
    if ParentCategoriesOf(entries, baseUrl).Success? {
      forall c ensures c in ParentCategoriesOf(entries, baseUrl).value <==>
        exists k :: 0 <= k < |entries| && entries[k].Link? && entries[k].href.Some? &&
          DecodeCategoryHref(baseUrl, entries[k].href.value) == Success(c)
      {
        GatherMember(entries, pick, c);
      }
    }
  }

  // ---- listings_count ----

  /** The characters `re.sub("[.,()]", "", text)` removes. */
  predicate IsCountPunctuation(c: char) {
    c == '.' || c == ',' || c == '(' || c == ')'
  }

  /** `re.sub("[.,()]", "", text)`. */
  function RemoveCountPunctuation(s: string): (r: string)
    ensures |r| <= |s|
    ensures forall i :: 0 <= i < |r| ==> !IsCountPunctuation(r[i])
  {
    if s == [] then []
    else if IsCountPunctuation(s[0]) then RemoveCountPunctuation(s[1..])
    else [s[0]] + RemoveCountPunctuation(s[1..])
  }

  lemma {:induction false} RemoveCountPunctuationAppend(a: string, b: string)
    ensures RemoveCountPunctuation(a + b) == RemoveCountPunctuation(a) + RemoveCountPunctuation(b)
  {
    if a == [] {
      assert a + b == b;
    } else {
      assert (a + b)[0] == a[0] && (a + b)[1..] == a[1..] + b;
      RemoveCountPunctuationAppend(a[1..], b);
    }
  }

  /** Text without those characters is left as it is. */
  lemma {:induction false} RemoveCountPunctuationNone(s: string)
    requires forall i :: 0 <= i < |s| ==> !IsCountPunctuation(s[i])
    ensures RemoveCountPunctuation(s) == s
  {
    if s != [] {
      RemoveCountPunctuationNone(s[1..]);
      assert [s[0]] + s[1..] == s;
    }
  }

  /** The count text of the "Altijd" filter label, e.g. `(1.234)`, as `int` reads it after the
      punctuation is removed; `None` where `int` raises `ValueError`. */
  function ParseCount(text: string): Option<int> {
    ParseInt(RemoveCountPunctuation(text))
  }

  /** Punctuation around a text is removed with it. */
  lemma RemoveCountPunctuationAround(l: char, x: string, r: char)
    requires IsCountPunctuation(l) && IsCountPunctuation(r)
    ensures RemoveCountPunctuation([l] + x + [r]) == RemoveCountPunctuation(x)
  {
    RemoveCountPunctuationAppend([l], x);
    RemoveCountPunctuationAppend([l] + x, [r]);
    assert [l][1..] == [] && [r][1..] == [];
  }

  /** A number written in parentheses, with any dots or commas between its digit groups, reads back as
      that number. */
  lemma ParseCountOfGroups(n: nat, groups: seq<string>, seps: seq<char>)
    requires |groups| > 0 && |seps| == |groups| - 1
    requires forall k :: 0 <= k < |seps| ==> seps[k] == '.' || seps[k] == ','
    requires Concat(groups) == NatToString(n)
    ensures ParseCount("(" + Interleave(groups, seps) + ")") == Some(n)
  {
    var s := NatToString(n);
    var t := "(" + Interleave(groups, seps) + ")";
    assert RemoveCountPunctuation(t) == s by {
      var x := Interleave(groups, seps);
      assert t == ['('] + x + [')'];
      RemoveCountPunctuationAround('(', x, ')');
      InterleaveRemoval(groups, seps);
      assert forall i :: 0 <= i < |s| ==> !IsCountPunctuation(s[i]) by {
        assert forall i :: 0 <= i < |s| ==> IsDigit(s[i]);
      }
      RemoveCountPunctuationNone(s);
    }
    NatToStringParses(n);
  }

  /** The pieces written one after another. */
  function Concat(pieces: seq<string>): string {
    if pieces == [] then [] else pieces[0] + Concat(pieces[1..])
  }

  /** The pieces with one separator character between each two. */
  function Interleave(pieces: seq<string>, seps: seq<char>): string
    requires |pieces| > 0 && |seps| == |pieces| - 1
  {
    if |pieces| == 1 then pieces[0] else pieces[0] + [seps[0]] + Interleave(pieces[1..], seps[1..])
  }

  lemma {:induction false} InterleaveRemoval(pieces: seq<string>, seps: seq<char>)
    requires |pieces| > 0 && |seps| == |pieces| - 1
    requires forall k :: 0 <= k < |seps| ==> seps[k] == '.' || seps[k] == ','
    ensures RemoveCountPunctuation(Interleave(pieces, seps)) == RemoveCountPunctuation(Concat(pieces))
  {
    if |pieces| == 1 {
      assert Concat(pieces) == pieces[0] + Concat([]);
      assert pieces[0] + [] == pieces[0];
    } else {
      var rest := Interleave(pieces[1..], seps[1..]);
      InterleaveRemoval(pieces[1..], seps[1..]);
      RemoveCountPunctuationAppend(pieces[0] + [seps[0]], rest);
      RemoveCountPunctuationAppend(pieces[0], [seps[0]]);
      assert RemoveCountPunctuation([seps[0]]) == [] by {
        assert [seps[0]][1..] == [];
      }
      RemoveCountPunctuationAppend(pieces[0], Concat(pieces[1..]));
    }
  }

  /** `listings_count` after the category page is loaded: the counter of the "Altijd" label. A
      missing label or counter raises `ElementNotFound`; unreadable text raises `ValueError`. */
  function ListingsCount(page: CountPage): (r: Result<int, Fault>)
    ensures r.Success? <==> page.Counter? && ParseCount(page.text).Some?
    ensures r.Success? ==> Some(r.value) == ParseCount(page.text)
    ensures page.CountFailed? ==> r == Failure(page.fault)
    ensures (page.NoLabel? || page.NoCounter?) ==> r == Failure(ElementMissing)
  {
    match page
    case CountFailed(f) => Failure(f)
    case NoLabel => Failure(ElementMissing)
    case NoCounter => Failure(ElementMissing)
    case Counter(text) =>
      match ParseCount(text)
      case None => Failure(Unexpected)
      case Some(n) => Success(n)
  }

  /** The limit `get_listings` works with: the listing count when the requested limit is 0 or
      larger than the count, otherwise the requested limit. */
  function EffectiveLimit(limit: int, count: int): (r: int)
    ensures r <= count
    ensures r == limit || r == count
    ensures limit != 0 && limit <= count ==> r == limit
    ensures limit == 0 || limit > count ==> r == count
  {
    if limit > count || limit == 0 then count else limit
  }

  // ---- __get_subcategories ----

  /** `category_hrefs`: the `href` of the `category-name` links by link text; links without an
      `href` are passed over and a later link with the same text wins. */
  function AnchorHrefs(anchors: seq<Anchor>): map<string, string> {
    if anchors == [] then map[]
    else
      var m := AnchorHrefs(anchors[..|anchors| - 1]);
      var a := anchors[|anchors| - 1];
      if a.href.Some? && a.name.Some? then m[a.name.value := a.href.value] else m
  }

  /** A link whose text `contents[0]` reads: the ones without an `href` are passed over first. */
  predicate AnchorReadable(a: Anchor) {
    a.href.Some? ==> a.name.Some?
  }

  /** A link with text `name` and an `href`. */
  predicate LinksAs(a: Anchor, name: string) {
    a.name == Some(name) && a.href.Some?
  }

  /** A link text has an entry exactly when some link with that text has an `href`. */
  lemma {:induction false} AnchorHrefsDomain(anchors: seq<Anchor>, name: string)
    ensures name in AnchorHrefs(anchors) <==> exists k :: 0 <= k < |anchors| && LinksAs(anchors[k], name)
  {
    if anchors != [] {
      var init := anchors[..|anchors| - 1];
      AnchorHrefsDomain(init, name);
      if exists k :: 0 <= k < |anchors| && LinksAs(anchors[k], name) {
        var k :| 0 <= k < |anchors| && LinksAs(anchors[k], name);
        if k < |init| {
          assert LinksAs(init[k], name);
        }
      }
      if exists k :: 0 <= k < |init| && LinksAs(init[k], name) {
        var k :| 0 <= k < |init| && LinksAs(init[k], name);
        assert LinksAs(anchors[k], name);
      }
    }
  }

  /** The entry of a link text is the `href` of the last link with that text and an `href`. */
  lemma {:induction false} AnchorHrefsLast(anchors: seq<Anchor>, name: string)
    requires name in AnchorHrefs(anchors)
    ensures exists k :: (0 <= k < |anchors| && LinksAs(anchors[k], name) &&
                         AnchorHrefs(anchors)[name] == anchors[k].href.value &&
                         forall l :: k < l < |anchors| ==> !LinksAs(anchors[l], name))
  {
    var init := anchors[..|anchors| - 1];
    var last := |anchors| - 1;
    if !LinksAs(anchors[last], name) {
      AnchorHrefsLast(init, name);
      var k :| 0 <= k < |init| && LinksAs(init[k], name) && AnchorHrefs(init)[name] == init[k].href.value &&
        forall l :: k < l < |init| ==> !LinksAs(init[l], name);
      assert init[k] == anchors[k];
      assert forall l :: k < l < |anchors| ==> !LinksAs(anchors[l], name) by {
        forall l | k < l < |anchors| ensures !LinksAs(anchors[l], name) {
          if l < last {
            assert init[l] == anchors[l];
          }
        }
      }
    }
  }

  /** The option filter: an option without children raises `IndexError` before anything else is
      read; options without a value, with an empty value, for the parent itself or for "all
      categories" (0) are passed over; a value `int` cannot read raises `ValueError` and a name
      without a link raises `KeyError`; otherwise the option names a subcategory. */
  function OptionPick(opt: OptionElem, parentId: int, hrefs: map<string, string>): Pick {
    match opt.name
    case None => Fail(Unexpected)
    case Some(name) =>
      match opt.value
      case None => Skip
      case Some(v) =>
        if v == "" then Skip
        else match ParseInt(v)
          case None => Fail(Unexpected)
          case Some(id) =>
            if id == parentId || id == AllCategoriesId then Skip
            else if name !in hrefs then Fail(Unexpected)
            else Keep(Category(id, BaseUrl + hrefs[name]))
  }

  /** An option names a subcategory exactly when it has a text, a non-empty numeric value other
      than the parent's id and 0, and its text has a link; the subcategory is that id and link. An
      option fails exactly when it has no text, or its non-empty value is not a number, or names
      another category without a link; every failure is `Unexpected`. */
  lemma OptionPickMeaning(opt: OptionElem, parentId: int, hrefs: map<string, string>)
    ensures OptionPick(opt, parentId, hrefs).Keep? <==>
      opt.name.Some? && opt.value.Some? && opt.value.value != "" && ParseInt(opt.value.value).Some? &&
      ParseInt(opt.value.value).value != parentId && ParseInt(opt.value.value).value != AllCategoriesId &&
      opt.name.value in hrefs
    ensures OptionPick(opt, parentId, hrefs).Keep? ==>
      Some(OptionPick(opt, parentId, hrefs).category.id) == ParseInt(opt.value.value) &&
      OptionPick(opt, parentId, hrefs).category.url == BaseUrl + hrefs[opt.name.value]
    ensures OptionPick(opt, parentId, hrefs).Fail? <==>
      opt.name.None? ||
      (opt.value.Some? && opt.value.value != "" &&
       (ParseInt(opt.value.value).None? ||
        (ParseInt(opt.value.value).value != parentId && ParseInt(opt.value.value).value != AllCategoriesId &&
         opt.name.value !in hrefs)))
    ensures OptionPick(opt, parentId, hrefs).Fail? ==> OptionPick(opt, parentId, hrefs).fault == Unexpected
  {
  }

  /** The option loop: the subcategories of the options up to the first one that fails. */
  function SubcategoriesOf(opts: seq<OptionElem>, parentId: int, hrefs: map<string, string>): Result<set<Category>, Fault> {
    Gather(opts, o => OptionPick(o, parentId, hrefs))
  }

  /** The option loop fails exactly when some option fails; otherwise it keeps exactly the
      subcategories the options name. */
  lemma SubcategoriesOfExactly(opts: seq<OptionElem>, parentId: int, hrefs: map<string, string>)
    ensures SubcategoriesOf(opts, parentId, hrefs).Success? <==>
      forall k :: 0 <= k < |opts| ==> !OptionPick(opts[k], parentId, hrefs).Fail?
    ensures SubcategoriesOf(opts, parentId, hrefs).Success? ==>
      forall c :: c in SubcategoriesOf(opts, parentId, hrefs).value <==>
        exists k :: 0 <= k < |opts| && OptionPick(opts[k], parentId, hrefs) == Keep(c)
  {
    var pick := o => OptionPick(o, parentId, hrefs);
    GatherSuccess(opts, pick);
    if SubcategoriesOf(opts, parentId, hrefs).Success? {
      forall c ensures c in SubcategoriesOf(opts, parentId, hrefs).value <==>
        exists k :: 0 <= k < |opts| && OptionPick(opts[k], parentId, hrefs) == Keep(c)
      {
        GatherMember(opts, pick, c);
      }
    }
  }

  /** No subcategory is the parent itself or "all categories". */
  lemma SubcategoriesExcludeParent(opts: seq<OptionElem>, parentId: int, hrefs: map<string, string>)
    requires SubcategoriesOf(opts, parentId, hrefs).Success?
    ensures forall c :: c in SubcategoriesOf(opts, parentId, hrefs).value ==>
      c.id != parentId && c.id != AllCategoriesId
  {
    forall c | c in SubcategoriesOf(opts, parentId, hrefs).value
      ensures c.id != parentId && c.id != AllCategoriesId
    {
      GatherMember(opts, o => OptionPick(o, parentId, hrefs), c);
      var k :| 0 <= k < |opts| && OptionPick(opts[k], parentId, hrefs) == Keep(c);
      OptionPickMeaning(opts[k], parentId, hrefs);
    }
  }

  /** One turn of the option loop. */
  method PickOption(opt: OptionElem, parentId: int, hrefs: map<string, string>) returns (p: Pick)
    ensures p == OptionPick(opt, parentId, hrefs)
  {
    if opt.name.None? {
      return Fail(Unexpected);
    }
    var name := opt.name.value;
    p := Skip;
    if opt.value.Some? && opt.value.value != "" {
      var id := ParseInt(opt.value.value);
      if id.None? {
        p := Fail(Unexpected);
      } else if id.value != parentId && id.value != AllCategoriesId {
        if name !in hrefs {
          p := Fail(Unexpected);
        } else {
          p := Keep(Category(id.value, BaseUrl + hrefs[name]));
        }
      }
    }
  }

  /** `__get_subcategories` after the parent's page is loaded. */
  function SubcategoriesFrom(page: SubcategoryPage, parent: Category): Result<set<Category>, Fault> {
    match page
    case NoCategoryList => Success({})
    case SubcategoryFailed(f) => Failure(f)
    case SubcategoryHtml(select, hasList, anchors) =>
      if select.None? || !hasList then Failure(ElementMissing)
      else if exists k :: 0 <= k < |anchors| && !AnchorReadable(anchors[k]) then Failure(Unexpected)
      else SubcategoriesOf(select.value, parent.id, AnchorHrefs(anchors))
  }

  /** The link loop: fills `category_hrefs`, or raises `IndexError` at the first link with an
      `href` and no text. */
  method CollectHrefs(anchors: seq<Anchor>) returns (r: Result<map<string, string>, Fault>)
    ensures r.Success? <==> forall k :: 0 <= k < |anchors| ==> AnchorReadable(anchors[k])
    ensures r.Success? ==> r.value == AnchorHrefs(anchors)
    ensures r.Failure? ==> r.error == Unexpected
  {
    var hrefs := map[];
    var i := 0;
    while i < |anchors|
      invariant 0 <= i <= |anchors|
      invariant forall k :: 0 <= k < i ==> AnchorReadable(anchors[k])
      invariant hrefs == AnchorHrefs(anchors[..i])
    {
      assert anchors[..i + 1][..i] == anchors[..i];
      if anchors[i].href.Some? {
        if anchors[i].name.None? {
          return Failure(Unexpected);
        }
        hrefs := hrefs[anchors[i].name.value := anchors[i].href.value];
      }
      i := i + 1;
    }
    assert anchors[..i] == anchors;
    return Success(hrefs);
  }

  /** The option loop: fills `subcategories`, or raises at the first option that fails. */
  method CollectSubcategories(opts: seq<OptionElem>, parentId: int, hrefs: map<string, string>)
    returns (r: Result<set<Category>, Fault>)
    ensures r == SubcategoriesOf(opts, parentId, hrefs)
  {
    ghost var pick := o => OptionPick(o, parentId, hrefs);
    var found: set<Category> := {};
    var j := 0;
    while j < |opts|
      invariant 0 <= j <= |opts|
      invariant Gather(opts[..j], pick) == Success(found)
    {
      var p := PickOption(opts[j], parentId, hrefs);
      if p.Fail? {
        GatherStop(opts, pick, j, found);
        return Failure(p.fault);
      }
      GatherStep(opts, pick, j, found);
      if p.Keep? {
        found := found + {p.category};
      }
      j := j + 1;
    }
    assert opts[..j] == opts;
    return Success(found);
  }

  method GetSubcategories(page: SubcategoryPage, parent: Category) returns (r: Result<set<Category>, Fault>)
    ensures r == SubcategoriesFrom(page, parent)
  {
    match page
    case NoCategoryList =>
      return Success({});
    case SubcategoryFailed(f) =>
      return Failure(f);
    case SubcategoryHtml(select, hasList, anchors) =>
      if select.None? || !hasList {
        return Failure(ElementMissing);
      }
      var hrefs := CollectHrefs(anchors);
      if hrefs.Failure? {
        return Failure(hrefs.error);
      }
      r := CollectSubcategories(select.value, parent.id, hrefs.value);
  }

  // ---- __get_listing_details ----

  /** The values of one attribute: the pieces of `split(", ")` when the text holds `", "`, the
      whole text otherwise. */
  function AttributeValues(text: string): set<string> {
    if Contains(text, ", ") then set p | p in SplitOn(text, ", ") else {text}
  }

  /** The `", "` test is redundant: the values are always the pieces of `split(", ")`, which join
      back to the text. */
  lemma AttributeValuesAreSplit(text: string)
    ensures AttributeValues(text) == set p | p in SplitOn(text, ", ")
    ensures text in AttributeValues(text) || Contains(text, ", ")
    ensures Join(SplitOn(text, ", "), ", ") == text
  {
    if !Contains(text, ", ") {
      SplitOnAbsent(text, ", ");
    }
    SplitOnJoin(text, ", ");
  }

  /** The union of `f` over the elements. */
  function UnionOver<T>(xs: seq<T>, f: T -> set<string>): set<string> {
    if xs == [] then {} else UnionOver(xs[..|xs| - 1], f) + f(xs[|xs| - 1])
  }

  lemma UnionOverStep<T>(xs: seq<T>, f: T -> set<string>, i: nat)
    requires i < |xs|
    ensures UnionOver(xs[..i + 1], f) == UnionOver(xs[..i], f) + f(xs[i])
  {
    assert xs[..i + 1][..i] == xs[..i];
  }

  /** A value is in the union exactly when some element contributes it. */
  lemma {:induction false} UnionOverMember<T>(xs: seq<T>, f: T -> set<string>, v: string)
    ensures v in UnionOver(xs, f) <==> exists k :: 0 <= k < |xs| && v in f(xs[k])
  {
    if xs != [] {
      var init := xs[..|xs| - 1];
      UnionOverMember(init, f, v);
      if exists k :: 0 <= k < |xs| && v in f(xs[k]) {
        var k :| 0 <= k < |xs| && v in f(xs[k]);
        if k < |init| {
          assert init[k] == xs[k];
        }
      }
      if exists k :: 0 <= k < |init| && v in f(init[k]) {
        var k :| 0 <= k < |init| && v in f(init[k]);
        assert init[k] == xs[k];
      }
    }
  }

  /** A block labelled `k` (any case of `k`). A block whose label or value is missing has no label. */
  predicate Labelled(a: Attribute, k: string) {
    a.name.Some? && a.value.Some? && Lower(a.name.value) == k
  }

  /** What one block adds to the set of label `k`. */
  function LabelledValues(a: Attribute, k: string): set<string> {
    if Labelled(a, k) then AttributeValues(a.value.value) else {}
  }

  /** The `type` and `service` value sets of the attribute blocks. */
  function AttributeSets(attrs: seq<Attribute>): (set<string>, set<string>) {
    (UnionOver(attrs, a => LabelledValues(a, TypeKey)), UnionOver(attrs, a => LabelledValues(a, ServiceKey)))
  }

  /** A value is a type (a service) exactly when some block labelled `type` (`service`) lists it. */
  lemma AttributeSetsExactly(attrs: seq<Attribute>, v: string)
    ensures v in AttributeSets(attrs).0 <==>
      exists k :: 0 <= k < |attrs| && Labelled(attrs[k], TypeKey) && v in AttributeValues(attrs[k].value.value)
    ensures v in AttributeSets(attrs).1 <==>
      exists k :: 0 <= k < |attrs| && Labelled(attrs[k], ServiceKey) && v in AttributeValues(attrs[k].value.value)
  {
    UnionOverMember(attrs, a => LabelledValues(a, TypeKey), v);
    UnionOverMember(attrs, a => LabelledValues(a, ServiceKey), v);
  }

  /** The attribute loop of `__get_listing_details`. */
  method CollectAttributes(attrs: seq<Attribute>) returns (types: set<string>, services: set<string>)
    ensures (types, services) == AttributeSets(attrs)
  {
    ghost var typeValues := a => LabelledValues(a, TypeKey);
    ghost var serviceValues := a => LabelledValues(a, ServiceKey);
    types, services := {}, {};
    var i := 0;
    while i < |attrs|
      invariant 0 <= i <= |attrs|
      invariant types == UnionOver(attrs[..i], typeValues)
      invariant services == UnionOver(attrs[..i], serviceValues)
    {
      UnionOverStep(attrs, typeValues, i);
      UnionOverStep(attrs, serviceValues, i);
      var a := attrs[i];
      if a.name.Some? && a.value.Some? {
        var key := Lower(a.name.value);
        var values := AttributeValues(a.value.value);
        if key == TypeKey {
          types := types + values;
        } else if key == ServiceKey {
          services := services + values;
        }
      }
      i := i + 1;
    }
    assert attrs[..i] == attrs;
  }

  /** `__get_listing_details` after the listing page is loaded: a missing description raises
      `ElementNotFound`; a missing configuration object fails on its first subscript. */
  function ListingDetailsOf(page: DetailPage): Result<ListingDetails, Fault> {
    if page.description.None? then Failure(ElementMissing)
    else if page.config.None? then Failure(Unexpected)
    else
      var (types, services) := AttributeSets(page.attributes);
      var c := page.config.value;
      Success(ListingDetails(page.description.value, c.adType, types, services,
                             c.priceType, c.priceCents, c.viewCount, c.favoritedCount, c.since))
  }

  method GetListingDetails(page: DetailPage) returns (r: Result<ListingDetails, Fault>)
    ensures r == ListingDetailsOf(page)
    ensures r.Success? ==> r.value.description == page.description.value
    ensures r.Failure? <==> page.description.None? || page.config.None?
  {
    if page.description.None? {
      return Failure(ElementMissing);
    }
    var types, services := CollectAttributes(page.attributes);
    if page.config.None? {
      return Failure(Unexpected);
    }
    var c := page.config.value;
    return Success(ListingDetails(page.description.value, c.adType, types, services,
                                  c.priceType, c.priceCents, c.viewCount, c.favoritedCount, c.since));
  }

  /** How the detail fetch of one item ends. */
  datatype DetailOutcome =
    | Got(details: ListingDetails)
    | Skipped(fault: Fault)    // MPError or ElementNotFound: the item is passed over
    | Escalated(fault: Fault)  // any other exception leaves the item loop

  /** The detail fetch: rate-limit answers are retried on the same item, site errors and missing
      elements skip the item, everything else escapes to the page level. */
  function DetailOutcomeOf(fetch: DetailFetch): (r: DetailOutcome)
    ensures r.Skipped? ==> r.fault == SiteError || r.fault == ElementMissing
    ensures r.Escalated? ==> r.fault !in {Forbidden, SiteError, ElementMissing}
    ensures fetch.answer.Loaded? && ListingDetailsOf(fetch.answer.page).Success? ==>
      r == Got(ListingDetailsOf(fetch.answer.page).value)
  {
    match fetch.answer
    case LoadFailed(f) =>
      if f == SiteError || f == ElementMissing then Skipped(f) else Escalated(f)
    case Loaded(page) =>
      match ListingDetailsOf(page)
      case Success(d) => Got(d)
      case Failure(f) => if f == SiteError || f == ElementMissing then Skipped(f) else Escalated(f)
  }

  /** Rate limiting only delays the fetch: it does not change its outcome. */
  lemma RateLimitOnlyDelays(n: nat, answer: DetailAnswer)
    ensures DetailOutcomeOf(DetailFetch(n, answer)) == DetailOutcomeOf(DetailFetch(0, answer))
  {
  }

  method FetchDetail(fetch: DetailFetch) returns (r: DetailOutcome)
    ensures r == DetailOutcomeOf(fetch)
  {
    match fetch.answer
    case LoadFailed(f) =>
      r := if f == SiteError || f == ElementMissing then Skipped(f) else Escalated(f);
    case Loaded(page) =>
      var d := GetListingDetails(page);
      match d
      case Success(details) =>
        r := Got(details);
      case Failure(f) =>
        r := if f == SiteError || f == ElementMissing then Skipped(f) else Escalated(f);
  }

  // ---- get_listings ----

  /** The `Listing` record built from a search result, its details and the crawl instant. Absent
      location, city, verticals and seller default to empty values. */
  function MakeListing(parent: Category, item: RawItem, d: ListingDetails, now: int): (l: Listing)
    ensures l.itemId == item.itemId && l.parentCategoryId == parent.id && l.childCategoryId == item.categoryId
    ensures l.listingUrl == BaseUrl + item.vipUrl && l.crawledAt == now
  {
    var country := if item.location.Some? then item.location.value.countryCode else "";
    var city := if item.location.Some? && item.location.value.cityName.Some? then item.location.value.cityName.value else "";
    var seller := if item.sellerId.Some? then item.sellerId.value else "";
    Listing(item.itemId, seller, parent.id, item.categoryId, item.verticals, d.adType,
            FormatText(item.title), FormatText(d.description), d.priceType, d.priceCents,
            d.types, d.services, BaseUrl + item.vipUrl, item.pictures, city, country,
            d.listedTimestamp, now, d.viewCount, d.favoritedCount)
  }

  /** The title and the description of a listing are whitespace-collapsed, with the words of the
      search result's title and of the detail page's description. */
  lemma MakeListingText(parent: Category, item: RawItem, d: ListingDetails, now: int)
    ensures var l := MakeListing(parent, item, d, now);
      && Normalized(l.title) && Words(l.title) == Words(item.title)
      && Normalized(l.description) && Words(l.description) == Words(d.description)
  {
    FormatTextMeaning(item.title);
    FormatTextMeaning(d.description);
  }

  /** What the handlers around one page load do with an exception. */
  datatype Verdict = Retry | Stop(cause: Abort) | Escape

  /** The `except` clauses of the page loop: rate limits, site errors, missing elements, timeouts
      and a lost connection retry the same page; other driver failures propagate unchanged; an
      interrupt becomes `ListingsInterrupt` and anything else `ListingsError`. */
  function PageVerdict(f: Fault): (v: Verdict)
    ensures v.Retry? <==> f in {Forbidden, SiteError, ElementMissing, Timeout, Disconnected}
    ensures v.Escape? <==> f == DriverFailure
    ensures v == Stop(Interrupted) <==> f == Interrupt
    ensures v.Stop? && f != Interrupt ==> v.cause == Failed(f)
  {
    match f
    case Forbidden => Retry
    case SiteError => Retry
    case ElementMissing => Retry
    case Timeout => Retry
    case Disconnected => Retry
    case DriverFailure => Escape
    case Interrupt => Stop(Interrupted)
    case Unexpected => Stop(Failed(Unexpected))
  }

  /** How `get_listings` ends: with its list, with `ListingsError`/`ListingsInterrupt` carrying the
      list gathered so far, or with another exception that carries nothing. */
  datatype Crawl =
    | Complete(listings: seq<Listing>)
    | Partial(listings: seq<Listing>, cause: Abort)
    | Raised(fault: Fault)

  /** What the item loop did with one search result. */
  datatype ItemEvent =
    | SkippedAd(item: RawItem)
    | SkippedKnown(item: RawItem, shrunk: bool)  // `shrunk`: `max_listings` was decremented
    | DetailFailed(item: RawItem, fault: Fault)
    | Accepted(item: RawItem, listing: Listing)

  /** The listings the events accepted, in order. */
  function AcceptedListings(events: seq<ItemEvent>): seq<Listing> {
    if events == [] then []
    else
      var e := events[|events| - 1];
      AcceptedListings(events[..|events| - 1]) + (if e.Accepted? then [e.listing] else [])
  }

  /** Whether an event decremented `max_listings`. */
  predicate Shrinks(e: ItemEvent) {
    (e.SkippedKnown? && e.shrunk) || e.DetailFailed?
  }

  /** The number of decrements of `max_listings` the events made. */
  function ShrinkCount(events: seq<ItemEvent>): nat {
    if events == [] then 0
    else ShrinkCount(events[..|events| - 1]) + (if Shrinks(events[|events| - 1]) then 1 else 0)
  }

  /** What one page load came to. */
  datatype VisitResult =
    | Advanced          // the page was processed, the next page follows
    | Retried(fault: Fault)  // an exception was handled by loading the same page again
    | Exhausted         // the page had no results: the category is done
    | Ended             // the crawl gave up

  /** One load of result page `page` of category number `category`, which got the `attempt`-th of
      that category's answers. */
  datatype Visit = Visit(category: nat, page: int, attempt: nat, result: VisitResult)

  /** Two successive page loads: within a category the next answer is read, and the page number
      advances after a processed page and stays after a retried one; a new category is a later
      one and starts at page 1 with its first answer. */
  predicate Step(v: Visit, w: Visit) {
    if w.category == v.category then
      w.attempt == v.attempt + 1 &&
      ((v.result.Advanced? && w.page == v.page + 1) || (v.result.Retried? && w.page == v.page))
    else
      v.category < w.category && w.page == 1 && w.attempt == 0 && !v.result.Ended?
  }

  /** The pagination discipline of `get_listings` over all its page loads: the first load is of
      page 1 with the first answer, successive loads follow `Step`, and a retry answers only a
      retryable exception. */
  ghost predicate Paginated(visits: seq<Visit>) {
    if visits == [] then true
    else
      var v := visits[|visits| - 1];
      (v.result.Retried? ==> PageVerdict(v.result.fault).Retry?) &&
      if |visits| == 1 then v.page == 1 && v.attempt == 0
      else Paginated(visits[..|visits| - 1]) && Step(visits[|visits| - 2], v)
  }

  /** Category number `ci` ran out of results. */
  ghost predicate ExhaustedIn(visits: seq<Visit>, ci: nat) {
    exists i :: 0 <= i < |visits| && visits[i] == Visit(ci, visits[i].page, visits[i].attempt, Exhausted)
  }

  /** The fixed inputs of one `get_listings` call: the site, the parent category, the categories
      crawled, the caller's known ids, the effective limit, whether no cap was asked for, and the
      crawl instant. */
  datatype Job = Job(
    world: World,
    parent: Category,
    cats: seq<Category>,
    existing: set<string>,
    lim: int,
    noCap: bool,
    now: int)

  /** The answer to the `attempt`-th load of a result page of category number `ci`: `None` beyond
      the category's answers, which reads as an empty page. */
  function Answer(job: Job, ci: nat, attempt: nat): Option<PageAttempt>
    requires ci < |job.cats|
  {
    var script := job.world.searchPages(job.cats[ci]);
    if attempt < |script| then Some(script[attempt]) else None
  }

  /** The ids `item_ids` holds after the events `before`: the caller's and the accepted ones. */
  function Known(job: Job, before: seq<ItemEvent>): set<string> {
    job.existing + ItemIds(AcceptedListings(before))
  }

  /** A search result that gets past the sponsored and the known-id checks. */
  predicate Fresh(item: RawItem, known: set<string>) {
    item.itemId != [] && item.itemId[0] != AdPrefix && item.itemId !in known
  }

  /** How the item loop of one result page ends. */
  datatype PageEnd =
    | Done                                  // every result read, or the limit reached
    | Raise(fault: Fault)                   // an exception left the loop
    | Mismatch(got: int, expected: int)     // `UnexpectedCategoryId`

  /** One turn of the item loop: the event it logs, or how it leaves the loop. */
  datatype ItemStep = Logged(event: ItemEvent) | Halted(end: PageEnd)

  /** One turn of the item loop over `item`, on a result page of the category with id `catId`,
      with the ids `known` so far. `item_id[0]` of an empty id raises `IndexError`. */
  function Turn(job: Job, catId: int, known: set<string>, item: RawItem): ItemStep
  {
    if item.itemId == [] then Halted(Raise(Unexpected))
    else if item.itemId[0] == AdPrefix then Logged(SkippedAd(item))
    else if item.itemId in known then Logged(SkippedKnown(item, job.noCap))
    else if item.categoryId != catId then Halted(Mismatch(item.categoryId, catId))
    else
      match DetailOutcomeOf(item.detail)
      case Escalated(f) => Halted(Raise(f))
      case Skipped(f) => Logged(DetailFailed(item, f))
      case Got(d) => Logged(Accepted(item, MakeListing(job.parent, item, d, job.now)))
  }

  /** The turn of a search result, case by case: a sponsored id is skipped, a known one is
      skipped (shrinking the cap exactly when no cap was asked for), a fresh one of another
      category raises `UnexpectedCategoryId`, and a fresh one of this category is accepted when
      its details were read, passed over when their fetch failed with a site error or a missing
      element, and leaves the loop with any other exception. */
  lemma TurnMeaning(job: Job, catId: int, known: set<string>, item: RawItem)
    ensures var s := Turn(job, catId, known, item);
      && (s.Logged? ==> s.event.item == item)
      && (s.Halted? ==> !s.end.Done?)
      && (s == Logged(SkippedAd(item)) <==> item.itemId != [] && item.itemId[0] == AdPrefix)
      && (s == Logged(SkippedKnown(item, job.noCap)) <==>
          item.itemId != [] && item.itemId[0] != AdPrefix && item.itemId in known)
      && (s == Halted(Mismatch(item.categoryId, catId)) <==> Fresh(item, known) && item.categoryId != catId)
      && (s.Logged? && s.event.DetailFailed? <==>
          Fresh(item, known) && item.categoryId == catId && DetailOutcomeOf(item.detail).Skipped?)
      && (s.Logged? && s.event.DetailFailed? ==> s.event.fault == DetailOutcomeOf(item.detail).fault)
      && (s.Logged? && s.event.Accepted? <==>
          Fresh(item, known) && item.categoryId == catId && DetailOutcomeOf(item.detail).Got?)
      && (s.Logged? && s.event.Accepted? ==>
          s.event.listing == MakeListing(job.parent, item, DetailOutcomeOf(item.detail).details, job.now))
      && (s.Halted? && s.end.Raise? <==>
          item.itemId == [] || (Fresh(item, known) && item.categoryId == catId && DetailOutcomeOf(item.detail).Escalated?))
      && (s.Halted? && s.end.Raise? ==>
          s.end.fault == if item.itemId == [] then Unexpected else DetailOutcomeOf(item.detail).fault)
  {
  }

  /** A search result that appears on some load of the given result pages. */
  ghost predicate InScript(item: RawItem, script: seq<PageAttempt>) {
    exists a :: 0 <= a < |script| && script[a].Results? && item in script[a].items
  }

  /** `l` is the listing made from a search result of `cat` whose category id is that of `cat`
      and whose detail fetch succeeded. */
  ghost predicate Yields(job: Job, cat: Category, item: RawItem, l: Listing) {
    item.categoryId == cat.id && l.childCategoryId == cat.id && DetailOutcomeOf(item.detail).Got? &&
    l == MakeListing(job.parent, item, DetailOutcomeOf(item.detail).details, job.now)
  }

  /** `l` comes from some result page of `cat`. */
  ghost predicate FromCategory(job: Job, cat: Category, l: Listing) {
    exists item :: InScript(item, job.world.searchPages(cat)) && Yields(job, cat, item, l)
  }

  /** `l` is the listing `get_listings` makes from a search result of some crawled category. */
  ghost predicate Crawled(job: Job, l: Listing) {
    exists ci :: 0 <= ci < |job.cats| && FromCategory(job, job.cats[ci], l)
  }

  /** What every returned listing satisfies. */
  ghost predicate Admitted(job: Job, l: Listing) {
    l.itemId !in job.existing && l.itemId != [] && l.itemId[0] != AdPrefix &&
    l.parentCategoryId == job.parent.id && l.crawledAt == job.now
  }

  /** Each event is the turn of its search result, taken on a result page of a crawled category
      with the ids known before it. */
  ghost predicate EventOk(job: Job, before: seq<ItemEvent>, e: ItemEvent) {
    exists ci :: 0 <= ci < |job.cats| && InScript(e.item, job.world.searchPages(job.cats[ci])) &&
      Turn(job, job.cats[ci].id, Known(job, before), e.item) == Logged(e)
  }

  /** The largest number of listings a call may return. */
  function Bound(lim: int): nat {
    if lim < 0 then 0 else lim
  }

  /** The accumulator of `get_listings`: `listings`, `item_ids`, `max_listings`, and the log of
      item events. */
  datatype Tally = Tally(
    listings: seq<Listing>,
    ids: set<string>,
    cap: int,
    events: seq<ItemEvent>)

  /** The listings are the accepted ones, admitted, distinct, within the bound, and `item_ids`
      is the caller's set with their ids added. */
  ghost predicate ListingsSound(job: Job, t: Tally) {
    t.ids == job.existing + ItemIds(t.listings) &&
    DistinctIds(t.listings) &&
    |t.listings| <= Bound(job.lim) &&
    (forall k :: 0 <= k < |t.listings| ==> Admitted(job, t.listings[k])) &&
    t.listings == AcceptedListings(t.events)
  }

  /** Every event followed its rule, given the events before it. */
  ghost predicate EventsSound(job: Job, events: seq<ItemEvent>) {
    events == [] ||
    (EventsSound(job, events[..|events| - 1]) && EventOk(job, events[..|events| - 1], events[|events| - 1]))
  }

  /** The invariant of the accumulator: sound listings, sound events, and `max_listings` is the
      effective limit less the decrements the events made. */
  ghost predicate Sound(job: Job, t: Tally) {
    ListingsSound(job, t) && EventsSound(job, t.events) && t.cap == job.lim - ShrinkCount(t.events)
  }

  /** The accumulator after one more item event. */
  function Record(t: Tally, e: ItemEvent): Tally {
    Tally(t.listings + (if e.Accepted? then [e.listing] else []),
          t.ids + (if e.Accepted? then {e.listing.itemId} else {}),
          t.cap - (if Shrinks(e) then 1 else 0),
          t.events + [e])
  }

  lemma EventsSoundAppend(job: Job, events: seq<ItemEvent>, e: ItemEvent)
    requires EventsSound(job, events) && EventOk(job, events, e)
    ensures EventsSound(job, events + [e])
  {
    assert (events + [e])[..|events|] == events;
  }

  /** The recursive form of `EventsSound` read position by position. */
  lemma {:induction false} EventsSoundAll(job: Job, events: seq<ItemEvent>)
    requires EventsSound(job, events)
    ensures forall i :: 0 <= i < |events| ==> EventOk(job, events[..i], events[i])
  {
    if events != [] {
      var init := events[..|events| - 1];
      EventsSoundAll(job, init);
      assert events == init + [events[|events| - 1]];
      PrefixRuleAll((before: seq<ItemEvent>, e: ItemEvent) => EventOk(job, before, e), init, events[|events| - 1]);
    }
  }

  /** A rule that holds of each element of `init` given the ones before it, and of `x` given
      `init`, holds of every element of `init + [x]` given the ones before it. */
  lemma PrefixRuleAll<T>(ok: (seq<T>, T) -> bool, init: seq<T>, x: T)
    requires forall i :: 0 <= i < |init| ==> ok(init[..i], init[i])
    requires ok(init, x)
    ensures forall i :: 0 <= i < |init + [x]| ==> ok((init + [x])[..i], (init + [x])[i])
  {
    forall i | 0 <= i < |init + [x]| ensures ok((init + [x])[..i], (init + [x])[i]) {
      if i < |init| {
        assert (init + [x])[..i] == init[..i] && (init + [x])[i] == init[i];
      } else {
        assert (init + [x])[..i] == init;
      }
    }
  }

  lemma AcceptedAppend(events: seq<ItemEvent>, e: ItemEvent)
    ensures AcceptedListings(events + [e]) == AcceptedListings(events) + (if e.Accepted? then [e.listing] else [])
    ensures ShrinkCount(events + [e]) == ShrinkCount(events) + (if Shrinks(e) then 1 else 0)
  {
    assert (events + [e])[..|events|] == events;
  }

  lemma AdmittedAppend(job: Job, ls: seq<Listing>, l: Listing)
    requires forall k :: 0 <= k < |ls| ==> Admitted(job, ls[k])
    requires Admitted(job, l)
    ensures forall k :: 0 <= k < |ls + [l]| ==> Admitted(job, (ls + [l])[k])
  {
    forall k | 0 <= k < |ls + [l]| ensures Admitted(job, (ls + [l])[k]) {
      if k < |ls| {
        assert (ls + [l])[k] == ls[k];
      }
    }
  }

  lemma ListingsSoundAccept(job: Job, t: Tally, item: RawItem, l: Listing)
    requires ListingsSound(job, t) && Admitted(job, l) && l.itemId !in t.ids
    requires |t.listings| < Bound(job.lim)
    ensures ListingsSound(job, Record(t, Accepted(item, l)))
  {
    AcceptedAppend(t.events, Accepted(item, l));
    DistinctIdsAppend(t.listings, l);
    AdmittedAppend(job, t.listings, l);
  }

  /** The turn of an accepted search result makes an admitted listing with a new id. */
  lemma AcceptedIsAdmitted(job: Job, catId: int, known: set<string>, item: RawItem, l: Listing)
    requires job.existing <= known && Turn(job, catId, known, item) == Logged(Accepted(item, l))
    ensures Admitted(job, l) && l.itemId !in known && Yields(job, Category(catId, ""), item, l)
  {
    TurnMeaning(job, catId, known, item);
  }

  lemma ListingsSoundRecord(job: Job, t: Tally, e: ItemEvent)
    requires ListingsSound(job, t) && EventOk(job, t.events, e)
    requires e.Accepted? ==> |t.listings| < Bound(job.lim)
    ensures ListingsSound(job, Record(t, e))
  {
    if e.Accepted? {
      var ci :| 0 <= ci < |job.cats| && InScript(e.item, job.world.searchPages(job.cats[ci])) &&
        Turn(job, job.cats[ci].id, Known(job, t.events), e.item) == Logged(e);
      AcceptedIsAdmitted(job, job.cats[ci].id, Known(job, t.events), e.item, e.listing);
      ListingsSoundAccept(job, t, e.item, e.listing);
    } else {
      AcceptedAppend(t.events, e);
      assert t.listings + [] == t.listings;
      assert t.ids + {} == t.ids;
    }
  }

  /** An event that follows its rule keeps the accumulator sound. */
  lemma SoundRecord(job: Job, t: Tally, e: ItemEvent)
    requires Sound(job, t) && EventOk(job, t.events, e)
    requires e.Accepted? ==> |t.listings| < Bound(job.lim)
    ensures Sound(job, Record(t, e))
  {
    ListingsSoundRecord(job, t, e);
    EventsSoundAppend(job, t.events, e);
    AcceptedAppend(t.events, e);
  }

  /** The accumulator has not lost listings and its cap has not grown. */
  ghost predicate Extends(t0: Tally, t: Tally) {
    |t0.listings| <= |t.listings| && t.cap <= t0.cap
  }

  /** The item loop from result number `j` on, as a function of the accumulator: stop at the
      limit or after the last result, otherwise take the turn of result `j`, which logs its event
      or leaves the loop. */
  function ItemsRun(job: Job, catId: int, items: seq<RawItem>, j: nat, t: Tally): (Tally, PageEnd)
    requires j <= |items|
    decreases |items| - j
  {
    if j == |items| || |t.listings| == job.lim then (t, Done)
    else
      match Turn(job, catId, t.ids, items[j])
      case Halted(end) => (t, end)
      case Logged(e) => ItemsRun(job, catId, items, j + 1, Record(t, e))
  }

  /** One turn of the item loop as `get_listings` takes it: the checks on the id, the known ids
      and the category, then the detail fetch of a fresh result of the page's category. */
  method TakeTurn(job: Job, catId: int, known: set<string>, item: RawItem) returns (s: ItemStep)
    ensures s == Turn(job, catId, known, item)
  {
    if item.itemId == [] {
      s := Halted(Raise(Unexpected));
    } else if item.itemId[0] == AdPrefix {
      s := Logged(SkippedAd(item));
    } else if item.itemId in known {
      s := Logged(SkippedKnown(item, job.noCap));
    } else if item.categoryId != catId {
      s := Halted(Mismatch(item.categoryId, catId));
    } else {
      var outcome := FetchDetail(item.detail);
      if outcome.Escalated? {
        s := Halted(Raise(outcome.fault));
      } else if outcome.Skipped? {
        s := Logged(DetailFailed(item, outcome.fault));
      } else {
        s := Logged(Accepted(item, MakeListing(job.parent, item, outcome.details, job.now)));
      }
    }
  }

  /** The item loop keeps any property of the accumulator that each logged turn keeps. */
  lemma {:induction false} ItemsRunKeeps(job: Job, catId: int, items: seq<RawItem>, j: nat, t: Tally,
                                         inv: Tally -> bool)
    requires j <= |items| && inv(t)
    requires forall u: Tally, k {:trigger Turn(job, catId, u.ids, items[k])} :: (j <= k < |items| && inv(u) && |u.listings| != job.lim &&
      Turn(job, catId, u.ids, items[k]).Logged?) ==> inv(Record(u, Turn(job, catId, u.ids, items[k]).event))
    ensures inv(ItemsRun(job, catId, items, j, t).0)
    decreases |items| - j
  {
    if j < |items| && |t.listings| != job.lim {
      var s := Turn(job, catId, t.ids, items[j]);
      if s.Logged? {
        assert inv(Record(t, s.event));
        ItemsRunKeeps(job, catId, items, j + 1, Record(t, s.event), inv);
        assert ItemsRun(job, catId, items, j, t) == ItemsRun(job, catId, items, j + 1, Record(t, s.event));
      } else {
        assert ItemsRun(job, catId, items, j, t) == (t, s.end);
      }
    } else {
      assert ItemsRun(job, catId, items, j, t) == (t, Done);
    }
  }

  /** A logged turn on a result of category number `ci` keeps the accumulator sound, only
      grows it and stays within the limit. */
  lemma TurnKeepsSound(job: Job, ci: nat, item: RawItem, t0: Tally, u: Tally)
    requires ci < |job.cats| && InScript(item, job.world.searchPages(job.cats[ci]))
    requires Sound(job, u) && Extends(t0, u) && |u.listings| <= job.lim && |u.listings| != job.lim
    requires Turn(job, job.cats[ci].id, u.ids, item).Logged?
    ensures var u1 := Record(u, Turn(job, job.cats[ci].id, u.ids, item).event);
      Sound(job, u1) && Extends(t0, u1) && |u1.listings| <= job.lim
  {
    var e := Turn(job, job.cats[ci].id, u.ids, item).event;
    assert EventOk(job, u.events, e) by {
      assert Known(job, u.events) == u.ids;
    }
    SoundRecord(job, u, e);
  }

  /** The item loop keeps the accumulator sound and only grows it, on results that appear on
      result pages of category number `ci`. */
  lemma ItemsRunSound(job: Job, ci: nat, items: seq<RawItem>, j: nat, t: Tally)
    requires ci < |job.cats| && j <= |items|
    requires forall k :: 0 <= k < |items| ==> InScript(items[k], job.world.searchPages(job.cats[ci]))
    requires Sound(job, t) && |t.listings| <= job.lim
    ensures var r := ItemsRun(job, job.cats[ci].id, items, j, t);
      Sound(job, r.0) && Extends(t, r.0) && |r.0.listings| <= job.lim
  {
    var catId := job.cats[ci].id;
    var inv := (u: Tally) => Sound(job, u) && Extends(t, u) && |u.listings| <= job.lim;
    forall u: Tally, k | (j <= k < |items| && inv(u) && |u.listings| != job.lim &&
      Turn(job, catId, u.ids, items[k]).Logged?)
      ensures inv(Record(u, Turn(job, catId, u.ids, items[k]).event))
    {
      TurnKeepsSound(job, ci, items[k], t, u);
    }
    ItemsRunKeeps(job, catId, items, j, t, inv);
  }

  /** How the item loop leaves a page: a mismatch names the page's category id and another id,
      and an exception it lets out is not one the loop passes over. */
  lemma {:induction false} ItemsRunEnd(job: Job, catId: int, items: seq<RawItem>, j: nat, t: Tally)
    requires j <= |items|
    ensures var r := ItemsRun(job, catId, items, j, t);
      && (r.1.Mismatch? ==> r.1.expected == catId && r.1.got != r.1.expected)
      && (r.1.Raise? ==> r.1.fault !in {Forbidden, SiteError, ElementMissing})
    decreases |items| - j
  {
    if j < |items| && |t.listings| != job.lim {
      TurnMeaning(job, catId, t.ids, items[j]);
      var s := Turn(job, catId, t.ids, items[j]);
      if s.Logged? {
        ItemsRunEnd(job, catId, items, j + 1, Record(t, s.event));
      }
    }
  }

  /** The `for res_listing in res_listings` loop of `get_listings` over the results of the
      `a`-th answer of category number `ci`. */
  method ProcessItems(job: Job, ci: nat, ghost a: nat, items: seq<RawItem>, t0: Tally) returns (t: Tally, end: PageEnd)
    requires ci < |job.cats| && Answer(job, ci, a) == Some(Results(items))
    requires Sound(job, t0) && |t0.listings| < t0.cap
    ensures (t, end) == ItemsRun(job, job.cats[ci].id, items, 0, t0)
    ensures Sound(job, t) && Extends(t0, t)
    ensures end.Mismatch? ==> end.expected == job.cats[ci].id && end.got != end.expected
    ensures end.Raise? ==> end.fault !in {Forbidden, SiteError, ElementMissing}
  {
    var cat := job.cats[ci];
    t := t0;
    end := Done;
    var j := 0;
    while j < |items|
      invariant 0 <= j <= |items|
      invariant ItemsRun(job, cat.id, items, j, t) == ItemsRun(job, cat.id, items, 0, t0)
      invariant end == Done
    {
      if |t.listings| == job.lim {
        break;
      }
      var item := items[j];
      var s := TakeTurn(job, cat.id, t.ids, item);
      if s.Halted? {
        end := s.end;
        break;
      }
      t := Record(t, s.event);
      j := j + 1;
    }
    assert forall k :: 0 <= k < |items| ==> InScript(items[k], job.world.searchPages(cat)) by {
      forall k | 0 <= k < |items| ensures InScript(items[k], job.world.searchPages(cat)) {
        assert items[k] in job.world.searchPages(cat)[a].items;
      }
    }
    ItemsRunSound(job, ci, items, 0, t0);
    ItemsRunEnd(job, cat.id, items, 0, t0);
  }

  /** How the page loop of one category ends. */
  datatype CategoryEnd =
    | Finished                 // the cap was reached or the category ran out of results
    | Aborted(cause: Abort)    // `ListingsError` or `ListingsInterrupt`
    | Escaped(fault: Fault)    // an exception `get_listings` does not wrap

  /** The page loop of category number `ci` may start: no crawl has ended, and every earlier page
      load was of an earlier category. */
  ghost predicate CanEnter(visits: seq<Visit>, ci: nat) {
    visits == [] || (visits[|visits| - 1].category < ci && !visits[|visits| - 1].result.Ended?)
  }

  /** The page number and answer the next load uses: page 1 and the first answer for a fresh
      category, otherwise the next answer, of the next page after a processed one and of the same
      page after a retry. */
  ghost predicate NextPage(visits: seq<Visit>, from: nat, ci: nat, page: int, attempt: nat) {
    if |visits| <= from then page == 1 && attempt == 0
    else
      var v := visits[|visits| - 1];
      v.category == ci && attempt == v.attempt + 1 &&
      ((v.result.Advanced? && page == v.page + 1) || (v.result.Retried? && page == v.page))
  }

  lemma PaginatedAppend(visits: seq<Visit>, from: nat, ci: nat, page: int, attempt: nat, r: VisitResult)
    requires from <= |visits| && Paginated(visits) && CanEnter(visits[..from], ci)
    requires NextPage(visits, from, ci, page, attempt)
    requires r.Retried? ==> PageVerdict(r.fault).Retry?
    ensures Paginated(visits + [Visit(ci, page, attempt, r)])
  {
    var all := visits + [Visit(ci, page, attempt, r)];
    assert all[..|visits|] == visits;
    if |visits| > 0 {
      if |visits| == from {
        assert visits[..from] == visits;
      }
      assert all[|all| - 2] == visits[|visits| - 1];
      assert Step(visits[|visits| - 1], Visit(ci, page, attempt, r));
    }
  }

  /** A page load agrees with the answer it got: it ran out of results exactly when the answer is
      missing or empty and the URL could be built, it was processed only when the answer held
      results, and it was retried only after the answer failed with that fault or its results
      raised it. */
  ghost predicate AnswerFits(job: Job, v: Visit)
    requires v.category < |job.cats|
  {
    var answer := Answer(job, v.category, v.attempt);
    (v.result.Exhausted? <==>
      job.cats[v.category].url != [] && (answer.None? || answer == Some(Results([])))) &&
    (v.result.Advanced? ==> answer.Some? && answer.value.Results? && answer.value.items != []) &&
    (v.result.Retried? ==>
      answer.Some? && (answer.value == PageFailed(v.result.fault) || (answer.value.Results? && answer.value.items != [])))
  }

  /** Every page load was of a crawled category and agrees with its answer. */
  ghost predicate Answered(job: Job, visits: seq<Visit>) {
    forall i :: 0 <= i < |visits| ==> visits[i].category < |job.cats| && AnswerFits(job, visits[i])
  }

  lemma AnsweredAppend(job: Job, visits: seq<Visit>, v: Visit)
    requires Answered(job, visits) && v.category < |job.cats| && AnswerFits(job, v)
    ensures Answered(job, visits + [v])
  {
    forall i | 0 <= i < |visits + [v]|
      ensures (visits + [v])[i].category < |job.cats| && AnswerFits(job, (visits + [v])[i])
    {
      if i < |visits| {
        assert (visits + [v])[i] == visits[i];
      }
    }
  }

  /** The handlers around one page: what the page load comes to and whether the category loop
      goes on. `UnexpectedCategoryId` is an ordinary exception there and becomes `ListingsError`. */
  function Handle(pageEnd: PageEnd): (r: (VisitResult, CategoryEnd))
    ensures r.1.Finished? <==> !r.0.Ended?
    ensures pageEnd.Done? <==> r.0 == Advanced
    ensures r.0.Retried? ==> pageEnd == Raise(r.0.fault) && PageVerdict(r.0.fault).Retry?
    ensures !r.0.Exhausted?
    ensures pageEnd.Mismatch? ==> r.1 == Aborted(UnexpectedCategoryId(pageEnd.got, pageEnd.expected))
    ensures pageEnd.Raise? ==>
      (PageVerdict(pageEnd.fault).Retry? <==> r.0.Retried?) &&
      (PageVerdict(pageEnd.fault).Stop? <==> r.1.Aborted?) &&
      (PageVerdict(pageEnd.fault).Escape? <==> r.1 == Escaped(pageEnd.fault))
    ensures r.1.Aborted? && r.1.cause.UnexpectedCategoryId? ==> pageEnd.Mismatch?
    ensures r.1.Aborted? && pageEnd.Raise? ==> r.1.cause == PageVerdict(pageEnd.fault).cause
  {
    match pageEnd
    case Done => (Advanced, Finished)
    case Mismatch(got, expected) => (Ended, Aborted(UnexpectedCategoryId(got, expected)))
    case Raise(f) =>
      match PageVerdict(f)
      case Retry => (Retried(f), Finished)
      case Stop(cause) => (Ended, Aborted(cause))
      case Escape => (Ended, Escaped(f))
  }

  /** One pass of the page loop as a function of the accumulator: build the URL of page `page`
      of category number `ci`, read its answer (missing or without results: the category ran out),
      run the item loop on its results, and classify the outcome. */
  function PageRun(job: Job, ci: nat, page: int, answer: Option<PageAttempt>, t: Tally): (Tally, VisitResult, CategoryEnd)
    requires ci < |job.cats|
  {
    if job.cats[ci].url == [] then  // `UrlWithOptions` is `None`: `IndexError`
      var h := Handle(Raise(Unexpected)); (t, h.0, h.1)
    else if answer.None? || answer == Some(Results([])) then (t, Exhausted, Finished)
    else if answer.value.PageFailed? then
      var h := Handle(Raise(answer.value.fault)); (t, h.0, h.1)
    else
      var run := ItemsRun(job, job.cats[ci].id, answer.value.items, 0, t);
      var h := Handle(run.1); (run.0, h.0, h.1)
  }

  /** One pass of the page loop keeps the accumulator sound and only grows it. */
  lemma PageRunSound(job: Job, ci: nat, page: int, a: nat, t: Tally)
    requires ci < |job.cats|
    requires Sound(job, t) && |t.listings| < t.cap
    ensures var r := PageRun(job, ci, page, Answer(job, ci, a), t); Sound(job, r.0) && Extends(t, r.0)
  {
    var answer := Answer(job, ci, a);
    if job.cats[ci].url != [] && answer.Some? && answer != Some(Results([])) &&
       answer.value.Results? {
      var items := answer.value.items;
      var script := job.world.searchPages(job.cats[ci]);
      assert forall j :: 0 <= j < |items| ==> InScript(items[j], script) by {
        forall j | 0 <= j < |items| ensures InScript(items[j], script) {
          assert items[j] in script[a].items;
        }
      }
      ItemsRunSound(job, ci, items, 0, t);
    }
  }

  /** The outcome of one pass of the page loop agrees with the answer, the crawl goes on
      exactly when the pass was not final, a retry is one the handlers allow, a page without a
      URL ends the crawl with `ListingsError`, and an abort or escape carries its cause. */
  lemma PageRunFits(job: Job, ci: nat, page: int, a: nat, t: Tally)
    requires ci < |job.cats|
    ensures var r := PageRun(job, ci, page, Answer(job, ci, a), t);
      && AnswerFits(job, Visit(ci, page, a, r.1))
      && (r.2.Finished? <==> !r.1.Ended?)
      && (r.1.Retried? ==> PageVerdict(r.1.fault).Retry?)
      && (job.cats[ci].url == [] ==> r.1 == Ended && r.2 == Aborted(Failed(Unexpected)))
      && (r.2.Aborted? && r.2.cause.UnexpectedCategoryId? ==>
          r.2.cause.expected == job.cats[ci].id && r.2.cause.got != r.2.cause.expected)
      && (r.2.Escaped? ==> r.2.fault == DriverFailure)
  {
    var answer := Answer(job, ci, a);
    if answer.Some? && answer.value.Results? {
      ItemsRunEnd(job, job.cats[ci].id, answer.value.items, 0, t);
    }
  }

  /** One pass of the page loop on page `page` of category number `ci`, which gets the `a`-th
      answer of the category. */
  method CrawlPage(job: Job, ci: nat, page: int, answer: Option<PageAttempt>, ghost a: nat, t0: Tally)
    returns (t: Tally, result: VisitResult, end: CategoryEnd)
    requires ci < |job.cats| && answer == Answer(job, ci, a)
    requires Sound(job, t0) && |t0.listings| < t0.cap
    ensures (t, result, end) == PageRun(job, ci, page, answer, t0)
    ensures Sound(job, t) && Extends(t0, t)
    ensures AnswerFits(job, Visit(ci, page, a, result))
    ensures end.Finished? <==> !result.Ended?
    ensures result.Retried? ==> PageVerdict(result.fault).Retry?
    ensures UrlWithOptions(job.cats[ci].url, page).None? ==> result == Ended && end == Aborted(Failed(Unexpected))
    ensures end.Aborted? && end.cause.UnexpectedCategoryId? ==>
      end.cause.expected == job.cats[ci].id && end.cause.got != end.cause.expected
    ensures end.Escaped? ==> end.fault == DriverFailure
  {
    PageRunSound(job, ci, page, a, t0);
    PageRunFits(job, ci, page, a, t0);
    t := t0;
    var cat := job.cats[ci];
    var url := UrlWithOptions(cat.url, page);
    var pageEnd: PageEnd;
    if url.None? {
      pageEnd := Raise(Unexpected);
    } else if answer.None? || answer == Some(Results([])) {
      return t, Exhausted, Finished;
    } else if answer.value.PageFailed? {
      pageEnd := Raise(answer.value.fault);
    } else {
      t, pageEnd := ProcessItems(job, ci, a, answer.value.items, t);
    }
    var handled := Handle(pageEnd);
    result, end := handled.0, handled.1;
  }

  /** The page loop of category number `ci` as a function: while the accumulator is below the
      cap, load page `page` with the `attempt`-th answer, log the load, and go on unless the
      category ran out or the crawl gave up. Past its answers a category reads as empty, so the
      loop ends. */
  function PagesRun(job: Job, ci: nat, page: int, attempt: nat, t: Tally, visits: seq<Visit>): (Tally, seq<Visit>, CategoryEnd)
    requires ci < |job.cats|
    decreases |job.world.searchPages(job.cats[ci])| - attempt
  {
    if |t.listings| >= t.cap then (t, visits, Finished)
    else
      var run := PageRun(job, ci, page, Answer(job, ci, attempt), t);
      var more := visits + [Visit(ci, page, attempt, run.1)];
      if run.1.Exhausted? || !run.2.Finished? then (run.0, more, run.2)
      else PagesRun(job, ci, if run.1.Advanced? then page + 1 else page, attempt + 1, run.0, more)
  }

  /** What the page loop of category number `ci` guarantees about its page loads: they extend
      the earlier ones, stay paginated and agree with their answers, the crawl may move on
      exactly when the loop finished, a category left below the cap ran out of results, and an
      abort or escape carries its cause. */
  ghost predicate PagesLogged(job: Job, ci: nat, visits0: seq<Visit>, t: Tally, visits: seq<Visit>, end: CategoryEnd)
    requires ci < |job.cats|
  {
    Paginated(visits) && Answered(job, visits) &&
    (|visits0| <= |visits| && visits[..|visits0|] == visits0) &&
    (|visits| > 0 ==> visits[|visits| - 1].category <= ci) &&
    (end.Finished? <==> CanEnter(visits, ci + 1)) &&
    (end.Finished? && |t.listings| < t.cap ==> ExhaustedIn(visits, ci)) &&
    (!end.Finished? ==> |visits| > 0 && visits[|visits| - 1].result.Ended?) &&
    (end.Aborted? && end.cause.UnexpectedCategoryId? ==>
      end.cause.expected == job.cats[ci].id && end.cause.got != end.cause.expected) &&
    (end.Escaped? ==> end.fault == DriverFailure)
  }

  /** What the page loop of category number `ci` guarantees: the accumulator stays sound and only
      grows, and the page loads are logged as `PagesLogged` says. */
  ghost predicate CategoryCrawled(job: Job, ci: nat, t0: Tally, visits0: seq<Visit>, t: Tally, visits: seq<Visit>, end: CategoryEnd)
    requires ci < |job.cats|
  {
    Sound(job, t) && Extends(t0, t) && PagesLogged(job, ci, visits0, t, visits, end)
  }

  /** The page loads inside the page loop of category number `ci`: paginated, answered, and
      extending `visits0` by loads of this category only. */
  ghost predicate InPages(job: Job, ci: nat, visits0: seq<Visit>, visits: seq<Visit>) {
    Paginated(visits) && Answered(job, visits) && CanEnter(visits0, ci) &&
    |visits0| <= |visits| && visits[..|visits0|] == visits0 &&
    (|visits| > |visits0| ==> visits[|visits| - 1].category == ci)
  }

  /** The page loop stops at the cap with every load so far processed or retried. */
  lemma CrawledAtCap(job: Job, ci: nat, visits0: seq<Visit>, t: Tally, visits: seq<Visit>, page: int, attempt: nat)
    requires ci < |job.cats| && InPages(job, ci, visits0, visits)
    requires NextPage(visits, |visits0|, ci, page, attempt) && |t.listings| >= t.cap
    ensures PagesLogged(job, ci, visits0, t, visits, Finished)
  {
    if |visits| == |visits0| {
      assert visits == visits0;
    }
  }

  /** One more load of page `page` with the `attempt`-th answer: the loop state is kept, and when
      the load ends the loop the category's loads are logged. */
  lemma CrawledPage(job: Job, ci: nat, visits0: seq<Visit>, t: Tally, visits: seq<Visit>, page: int,
                    attempt: nat, result: VisitResult, end: CategoryEnd)
    requires ci < |job.cats| && InPages(job, ci, visits0, visits)
    requires NextPage(visits, |visits0|, ci, page, attempt) && AnswerFits(job, Visit(ci, page, attempt, result))
    requires result.Retried? ==> PageVerdict(result.fault).Retry?
    requires end.Finished? <==> !result.Ended?
    requires end.Aborted? && end.cause.UnexpectedCategoryId? ==>
      end.cause.expected == job.cats[ci].id && end.cause.got != end.cause.expected
    requires end.Escaped? ==> end.fault == DriverFailure
    ensures InPages(job, ci, visits0, visits + [Visit(ci, page, attempt, result)])
    ensures result.Exhausted? || !end.Finished? ==>
      PagesLogged(job, ci, visits0, t, visits + [Visit(ci, page, attempt, result)], end)
  {
    var v := Visit(ci, page, attempt, result);
    var all := visits + [v];
    PaginatedAppend(visits, |visits0|, ci, page, attempt, result);
    AnsweredAppend(job, visits, v);
    assert all[..|visits|] == visits;
    assert all[..|visits0|] == visits[..|visits0|];
    if result.Exhausted? {
      assert all[|visits|] == Visit(ci, all[|visits|].page, all[|visits|].attempt, Exhausted);
    }
  }

  /** One pass of the page loop of category number `ci` below the cap keeps the page loads in
      order, and logs them when it is the last pass. */
  lemma PageStepLogged(job: Job, ci: nat, visits0: seq<Visit>, page: int, attempt: nat, t: Tally, visits: seq<Visit>)
    requires ci < |job.cats| && InPages(job, ci, visits0, visits)
    requires NextPage(visits, |visits0|, ci, page, attempt)
    ensures var run := PageRun(job, ci, page, Answer(job, ci, attempt), t);
      var more := visits + [Visit(ci, page, attempt, run.1)];
      && InPages(job, ci, visits0, more)
      && (run.1.Exhausted? || !run.2.Finished? ==> PagesLogged(job, ci, visits0, run.0, more, run.2))
      && (!run.1.Exhausted? && run.2.Finished? ==>
          NextPage(more, |visits0|, ci, if run.1.Advanced? then page + 1 else page, attempt + 1))
  {
    var run := PageRun(job, ci, page, Answer(job, ci, attempt), t);
    PageRunFits(job, ci, page, attempt, t);
    CrawledPage(job, ci, visits0, run.0, visits, page, attempt, run.1, run.2);
  }

  /** One pass of the page loop below the cap, then the rest of the loop unless the pass ended
      it; a pass that does not end the loop had an answer. */
  lemma PagesRunStep(job: Job, ci: nat, page: int, attempt: nat, t: Tally, visits: seq<Visit>)
    requires ci < |job.cats| && |t.listings| < t.cap
    ensures var run := PageRun(job, ci, page, Answer(job, ci, attempt), t);
      var more := visits + [Visit(ci, page, attempt, run.1)];
      && (PagesRun(job, ci, page, attempt, t, visits) ==
          if run.1.Exhausted? || !run.2.Finished? then (run.0, more, run.2)
          else PagesRun(job, ci, if run.1.Advanced? then page + 1 else page, attempt + 1, run.0, more))
      && (!run.1.Exhausted? && run.2.Finished? ==> attempt < |job.world.searchPages(job.cats[ci])|)
  {
  }

  /** The page loop keeps any property of the accumulator that each page load below the cap
      keeps. */
  lemma {:induction false} PagesRunKeeps(job: Job, ci: nat, page: int, attempt: nat, t: Tally, visits: seq<Visit>,
                                         inv: Tally -> bool)
    requires ci < |job.cats| && inv(t)
    requires forall u: Tally, p, a {:trigger PageRun(job, ci, p, Answer(job, ci, a), u)} ::
      inv(u) && |u.listings| < u.cap ==> inv(PageRun(job, ci, p, Answer(job, ci, a), u).0)
    ensures inv(PagesRun(job, ci, page, attempt, t, visits).0)
    decreases |job.world.searchPages(job.cats[ci])| - attempt
  {
    if |t.listings| < t.cap {
      PagesRunStep(job, ci, page, attempt, t, visits);
      var run := PageRun(job, ci, page, Answer(job, ci, attempt), t);
      var more := visits + [Visit(ci, page, attempt, run.1)];
      assert inv(run.0);
      if !run.1.Exhausted? && run.2.Finished? {
        PagesRunKeeps(job, ci, if run.1.Advanced? then page + 1 else page, attempt + 1, run.0, more, inv);
      } else {
        assert PagesRun(job, ci, page, attempt, t, visits) == (run.0, more, run.2);
      }
    } else {
      assert PagesRun(job, ci, page, attempt, t, visits) == (t, visits, Finished);
    }
  }

  /** The page loop of category number `ci` keeps the accumulator sound and only grows it. */
  lemma PagesRunSound(job: Job, ci: nat, page: int, attempt: nat, t: Tally, visits: seq<Visit>)
    requires ci < |job.cats| && Sound(job, t)
    ensures var r := PagesRun(job, ci, page, attempt, t, visits); Sound(job, r.0) && Extends(t, r.0)
  {
    var inv := (u: Tally) => Sound(job, u) && Extends(t, u);
    forall u: Tally, p, a | inv(u) && |u.listings| < u.cap
      ensures inv(PageRun(job, ci, p, Answer(job, ci, a), u).0)
    {
      PageRunSound(job, ci, p, a, u);
    }
    PagesRunKeeps(job, ci, page, attempt, t, visits, inv);
  }

  /** The page loop of category number `ci`, run from any state inside it, logs its page loads
      as `PagesLogged` says. */
  lemma {:induction false} PagesRunLogged(job: Job, ci: nat, visits0: seq<Visit>, page: int, attempt: nat,
                                          t: Tally, visits: seq<Visit>, r: (Tally, seq<Visit>, CategoryEnd))
    requires ci < |job.cats| && InPages(job, ci, visits0, visits)
    requires NextPage(visits, |visits0|, ci, page, attempt)
    requires r == PagesRun(job, ci, page, attempt, t, visits)
    ensures PagesLogged(job, ci, visits0, r.0, r.1, r.2)
    decreases |job.world.searchPages(job.cats[ci])| - attempt
  {
    if |t.listings| >= t.cap {
      CrawledAtCap(job, ci, visits0, t, visits, page, attempt);
      assert r == (t, visits, Finished);
    } else {
      PageStepLogged(job, ci, visits0, page, attempt, t, visits);
      PagesRunStep(job, ci, page, attempt, t, visits);
      var run := PageRun(job, ci, page, Answer(job, ci, attempt), t);
      var more := visits + [Visit(ci, page, attempt, run.1)];
      if !run.1.Exhausted? && run.2.Finished? {
        PagesRunLogged(job, ci, visits0, if run.1.Advanced? then page + 1 else page, attempt + 1, run.0, more, r);
      } else {
        assert r == (run.0, more, run.2);
      }
    }
  }

  /** The page loop of category number `ci`, entered from the page loads `visits0`, crawls the
      category as `CategoryCrawled` says. */
  lemma CategoryRunCrawled(job: Job, ci: nat, t0: Tally, visits0: seq<Visit>)
    requires ci < |job.cats|
    requires Sound(job, t0) && Paginated(visits0) && Answered(job, visits0) && CanEnter(visits0, ci)
    ensures var r := PagesRun(job, ci, 1, 0, t0, visits0); CategoryCrawled(job, ci, t0, visits0, r.0, r.1, r.2)
  {
    assert visits0[..|visits0|] == visits0;
    PagesRunSound(job, ci, 1, 0, t0, visits0);
    PagesRunLogged(job, ci, visits0, 1, 0, t0, visits0, PagesRun(job, ci, 1, 0, t0, visits0));
  }

  /** `while len(listings) < max_listings` for category number `ci`: page after page, starting at
      page 1, until the cap is reached, the category runs out of results or the crawl gives up. */
  method CrawlCategory(job: Job, ci: nat, t0: Tally, visits0: seq<Visit>) returns (t: Tally, visits: seq<Visit>, end: CategoryEnd)
    requires ci < |job.cats|
    requires Sound(job, t0) && Paginated(visits0) && Answered(job, visits0) && CanEnter(visits0, ci)
    ensures (t, visits, end) == PagesRun(job, ci, 1, 0, t0, visits0)
    ensures CategoryCrawled(job, ci, t0, visits0, t, visits, end)
  {
    CategoryRunCrawled(job, ci, t0, visits0);
    t, visits := t0, visits0;
    end := Finished;
    var page := 1;
    var attempt := 0;
    while |t.listings| < t.cap
      invariant Sound(job, t)
      invariant PagesRun(job, ci, page, attempt, t, visits) == PagesRun(job, ci, 1, 0, t0, visits0)
      invariant end == Finished
      decreases |job.world.searchPages(job.cats[ci])| - attempt
    {
      PagesRunStep(job, ci, page, attempt, t, visits);
      var answer := Answer(job, ci, attempt);
      var result;
      t, result, end := CrawlPage(job, ci, page, answer, attempt, t);
      visits := visits + [Visit(ci, page, attempt, result)];
      if result.Exhausted? || !end.Finished? {
        return;
      }
      attempt := attempt + 1;
      if result.Advanced? {
        page := page + 1;
      }
    }
  }

  lemma ExhaustedInPrefix(a: seq<Visit>, b: seq<Visit>, ci: nat)
    requires |a| <= |b| && b[..|a|] == a && ExhaustedIn(a, ci)
    ensures ExhaustedIn(b, ci)
  {
    var i :| 0 <= i < |a| && a[i] == Visit(ci, a[i].page, a[i].attempt, Exhausted);
    assert b[i] == a[i];
  }

  /** The categories `get_listings` crawls: the subcategories in some order, or the parent alone
      when it has none. */
  ghost predicate CategoriesFor(parent: Category, subs: set<Category>, cats: seq<Category>) {
    if subs == {} then cats == [parent]
    else |cats| == |subs| && forall c :: c in cats <==> c in subs
  }

  /** The fixed inputs of a call whose listing count could be read. */
  function JobFor(world: World, parent: Category, limit: int, existing: set<string>, now: int, cats: seq<Category>): (job: Job)
    requires ListingsCount(world.countPage(parent)).Success?
    ensures job.lim == EffectiveLimit(limit, ListingsCount(world.countPage(parent)).value)
    ensures job.noCap <==> job.lim == ListingsCount(world.countPage(parent)).value
  {
    var count := ListingsCount(world.countPage(parent)).value;
    var lim := EffectiveLimit(limit, count);
    Job(world, parent, cats, existing, lim, lim == count, now)
  }

  /** The crawl of the categories from category number `ci` on, as a function: each category's
      page loop in turn, until one aborts or escapes. */
  function CategoriesRun(job: Job, ci: nat, t: Tally, visits: seq<Visit>): (Crawl, Tally, seq<Visit>)
    requires ci <= |job.cats|
    decreases |job.cats| - ci
  {
    if ci == |job.cats| then (Complete(t.listings), t, visits)
    else
      var run := PagesRun(job, ci, 1, 0, t, visits);
      match run.2
      case Aborted(cause) => (Partial(run.0.listings, cause), run.0, run.1)
      case Escaped(f) => (Raised(f), run.0, run.1)
      case Finished => CategoriesRun(job, ci + 1, run.0, run.1)
  }

  /** The accumulator `get_listings` starts from: no listings, the caller's ids, the cap at the
      effective limit. */
  function Start(job: Job): Tally {
    Tally([], job.existing, job.lim, [])
  }

  /** The whole crawl of a call, determined by its inputs: the outcome, the final accumulator and
      the page loads. */
  function CrawlOf(job: Job): (Crawl, Tally, seq<Visit>) {
    CategoriesRun(job, 0, Start(job), [])
  }

  /** What the crawl of the categories guarantees about its outcome, its final accumulator and
      its page loads. */
  ghost predicate Concluded(job: Job, r: Crawl, t: Tally, visits: seq<Visit>) {
    Sound(job, t) && Paginated(visits) && Answered(job, visits) &&
    (r.Complete? ==>
      r.listings == t.listings &&
      (|t.listings| >= t.cap || forall ci :: 0 <= ci < |job.cats| ==> ExhaustedIn(visits, ci))) &&
    (r.Partial? ==> r.listings == t.listings && |visits| > 0 && visits[|visits| - 1].result.Ended?) &&
    (r.Partial? && r.cause.UnexpectedCategoryId? ==>
      r.cause.got != r.cause.expected && exists ci :: 0 <= ci < |job.cats| && job.cats[ci].id == r.cause.expected) &&
    (r.Raised? ==> r.fault == DriverFailure)
  }

  /** A category whose page loop aborted or escaped concludes the crawl. */
  lemma EndedConcluded(job: Job, ci: nat, t0: Tally, visits0: seq<Visit>, t: Tally, visits: seq<Visit>,
                       end: CategoryEnd)
    requires ci < |job.cats| && CategoryCrawled(job, ci, t0, visits0, t, visits, end) && !end.Finished?
    ensures Concluded(job, if end.Aborted? then Partial(t.listings, end.cause) else Raised(end.fault), t, visits)
  {
  }

  /** A category whose page loop finished hands the next category a crawl it may enter. */
  lemma FinishedCrawled(job: Job, ci: nat, t0: Tally, visits0: seq<Visit>, t: Tally, visits: seq<Visit>)
    requires ci < |job.cats| && CategoryCrawled(job, ci, t0, visits0, t, visits, Finished)
    requires |t0.listings| < t0.cap ==> forall c :: 0 <= c < ci ==> ExhaustedIn(visits0, c)
    ensures Sound(job, t) && Paginated(visits) && Answered(job, visits) && CanEnter(visits, ci + 1)
    ensures |t.listings| < t.cap ==> forall c :: 0 <= c < ci + 1 ==> ExhaustedIn(visits, c)
  {
    if |t.listings| < t.cap {
      forall c | 0 <= c < ci ensures ExhaustedIn(visits, c) {
        ExhaustedInPrefix(visits0, visits, c);
      }
    }
  }

  /** The loop over the categories, entered at category number `ci` with the categories before
      it crawled, concludes as `Concluded` says. */
  lemma {:induction false} CategoriesRunConcluded(job: Job, ci: nat, t: Tally, visits: seq<Visit>,
                                                  r: (Crawl, Tally, seq<Visit>))
    requires ci <= |job.cats| && r == CategoriesRun(job, ci, t, visits)
    requires Sound(job, t) && Paginated(visits) && Answered(job, visits) && CanEnter(visits, ci)
    requires |t.listings| < t.cap ==> forall c :: 0 <= c < ci ==> ExhaustedIn(visits, c)
    ensures Concluded(job, r.0, r.1, r.2)
    decreases |job.cats| - ci
  {
    if ci < |job.cats| {
      var run := PagesRun(job, ci, 1, 0, t, visits);
      CategoryRunCrawled(job, ci, t, visits);
      if run.2.Finished? {
        FinishedCrawled(job, ci, t, visits, run.0, run.1);
        assert r == CategoriesRun(job, ci + 1, run.0, run.1);
        CategoriesRunConcluded(job, ci + 1, run.0, run.1, r);
      } else {
        EndedConcluded(job, ci, t, visits, run.0, run.1, run.2);
        assert r == (if run.2.Aborted? then Partial(run.0.listings, run.2.cause) else Raised(run.2.fault), run.0, run.1);
      }
    } else {
      assert r == (Complete(t.listings), t, visits);
    }
  }

  /** The crawl of a call concludes. */
  lemma CrawlOfConcluded(job: Job, r: Crawl, t: Tally, visits: seq<Visit>)
    requires (r, t, visits) == CrawlOf(job)
    ensures Concluded(job, r, t, visits)
  {
    CategoriesRunConcluded(job, 0, Start(job), [], CrawlOf(job));
  }

  /** The state of the category loop before category number `ci`: the loop state the page loop
      needs, and the rest of the crawl still to come to `CrawlOf(job)`. */
  ghost predicate CrawlingFrom(job: Job, ci: nat, t: Tally, visits: seq<Visit>) {
    ci <= |job.cats| && Sound(job, t) && Paginated(visits) && Answered(job, visits) && CanEnter(visits, ci) &&
    CategoriesRun(job, ci, t, visits) == CrawlOf(job)
  }

  /** One turn of the category loop: a finished page loop hands the state to the next category,
      and an aborted or escaped one fixes the outcome of the crawl. */
  lemma CrawlingStep(job: Job, ci: nat, t: Tally, visits: seq<Visit>)
    requires CrawlingFrom(job, ci, t, visits) && ci < |job.cats|
    ensures var run := PagesRun(job, ci, 1, 0, t, visits);
      && (run.2.Finished? ==> CrawlingFrom(job, ci + 1, run.0, run.1))
      && (run.2.Aborted? ==> CrawlOf(job) == (Partial(run.0.listings, run.2.cause), run.0, run.1))
      && (run.2.Escaped? ==> CrawlOf(job) == (Raised(run.2.fault), run.0, run.1))
  {
    CategoryRunCrawled(job, ci, t, visits);
  }

  /** `for category_id, category_url in categories`, starting from empty results and the cap at
      the effective limit. */
  method CrawlCategories(job: Job) returns (r: Crawl, t: Tally, visits: seq<Visit>)
    ensures (r, t, visits) == CrawlOf(job)
    ensures Concluded(job, r, t, visits)
  {
    t, visits := Start(job), [];
    r := Complete([]);
    var ci := 0;
    while ci < |job.cats|
      invariant CrawlingFrom(job, ci, t, visits)
    {
      CrawlingStep(job, ci, t, visits);
      var end;
      t, visits, end := CrawlCategory(job, ci, t, visits);
      if end.Aborted? {
        r := Partial(t.listings, end.cause);
        break;
      } else if end.Escaped? {
        r := Raised(end.fault);
        break;
      }
      ci := ci + 1;
    }
    if ci == |job.cats| {
      r := Complete(t.listings);
    }
    CrawlOfConcluded(job, r, t, visits);
  }

  /** `get_listings(parent_category, limit, existing_item_ids)` against the site `world`, with
      crawl instant `now`. Besides the outcome it gives the categories crawled, the final
      accumulator (`listings`, `item_ids`, `max_listings`, item events) and the page loads. */
  method GetListings(world: World, parent: Category, limit: int, existing: set<string>, now: int)
    returns (r: Crawl, cats: seq<Category>, t: Tally, visits: seq<Visit>)
    ensures ListingsCount(world.countPage(parent)).Failure? ==>
      r == Raised(ListingsCount(world.countPage(parent)).error)
    ensures ListingsCount(world.countPage(parent)).Success? &&
            SubcategoriesFrom(world.subcategoryPage(parent), parent).Failure? ==>
      (var f := SubcategoriesFrom(world.subcategoryPage(parent), parent).error;
       r == if f == Interrupt then Raised(Interrupt) else Partial([], Failed(f)))
    ensures ListingsCount(world.countPage(parent)).Success? &&
            SubcategoriesFrom(world.subcategoryPage(parent), parent).Success? ==>
      CategoriesFor(parent, SubcategoriesFrom(world.subcategoryPage(parent), parent).value, cats) &&
      (r, t, visits) == CrawlOf(JobFor(world, parent, limit, existing, now, cats)) &&
      Concluded(JobFor(world, parent, limit, existing, now, cats), r, t, visits)
    ensures (r.Complete? || r.Partial?) && limit > 0 ==> |r.listings| <= limit
    ensures (r.Complete? || r.Partial?) && limit < 0 ==> r.listings == []
  {
    cats, visits := [], [];
    t := Tally([], existing, 0, []);
    var counted := ListingsCount(world.countPage(parent));
    if counted.Failure? {
      return Raised(counted.error), cats, t, visits;
    }
    var lim := EffectiveLimit(limit, counted.value);
    var subs := GetSubcategories(world.subcategoryPage(parent), parent);
    if subs.Failure? {
      r := if subs.error == Interrupt then Raised(Interrupt) else Partial([], Failed(subs.error));
      return;
    }
    if |subs.value| > 0 {
      cats := SetOrder.ToSeq(subs.value);
    } else {
      cats := [parent];
    }
    var job := Job(world, parent, cats, existing, lim, lim == counted.value, now);
    assert job == JobFor(world, parent, limit, existing, now, cats);
    r, t, visits := CrawlCategories(job);
    SoundListings(job, t);
  }

  // ---- what the invariants of get_listings give ----

  /** An event that follows its rule and accepts a listing made it from a search result of a
      crawled category. */
  lemma AcceptedEventCrawled(job: Job, before: seq<ItemEvent>, e: ItemEvent)
    requires EventOk(job, before, e) && e.Accepted?
    ensures Crawled(job, e.listing)
  {
    var ci :| 0 <= ci < |job.cats| && InScript(e.item, job.world.searchPages(job.cats[ci])) &&
      Turn(job, job.cats[ci].id, Known(job, before), e.item) == Logged(e);
    TurnMeaning(job, job.cats[ci].id, Known(job, before), e.item);
    assert Yields(job, job.cats[ci], e.item, e.listing);
    assert FromCategory(job, job.cats[ci], e.listing);
  }

  /** Every accepted listing was made from a search result of a crawled category. */
  lemma {:induction false} AcceptedAreCrawled(job: Job, events: seq<ItemEvent>)
    requires EventsSound(job, events)
    ensures forall k :: 0 <= k < |AcceptedListings(events)| ==> Crawled(job, AcceptedListings(events)[k])
  {
    if events != [] {
      var init := events[..|events| - 1];
      var e := events[|events| - 1];
      AcceptedAreCrawled(job, init);
      var ls := AcceptedListings(events);
      forall k | 0 <= k < |ls| ensures Crawled(job, ls[k]) {
        if k < |AcceptedListings(init)| {
          assert ls[k] == AcceptedListings(init)[k];
        } else {
          assert ls[k] == e.listing;
          AcceptedEventCrawled(job, init, e);
        }
      }
    }
  }

  /** A crawled listing's child category is one of the crawled categories, and its parent
      category the requested parent. */
  lemma CrawledCategory(job: Job, l: Listing)
    requires Crawled(job, l)
    ensures exists ci :: 0 <= ci < |job.cats| && l.childCategoryId == job.cats[ci].id
    ensures l.parentCategoryId == job.parent.id
  {
    var ci :| 0 <= ci < |job.cats| && FromCategory(job, job.cats[ci], l);
  }

  /** The returned listings: at most the effective limit (none when it is not positive), pairwise
      distinct ids, none of them known to the caller, none a sponsored advertisement, all of the
      requested parent and stamped with the crawl instant; `item_ids` ends as the caller's ids
      together with theirs. */
  lemma SoundListings(job: Job, t: Tally)
    requires Sound(job, t)
    ensures |t.listings| <= Bound(job.lim) && (job.lim <= 0 ==> t.listings == [])
    ensures forall i, j :: 0 <= i < j < |t.listings| ==> t.listings[i].itemId != t.listings[j].itemId
    ensures forall k :: 0 <= k < |t.listings| ==>
      t.listings[k].itemId !in job.existing && t.listings[k].itemId != [] &&
      t.listings[k].itemId[0] != AdPrefix && t.listings[k].parentCategoryId == job.parent.id &&
      t.listings[k].crawledAt == job.now
    ensures t.ids == job.existing + ItemIds(t.listings)
  {
    assert forall k :: 0 <= k < |t.listings| ==> Admitted(job, t.listings[k]);
  }

  /** Every returned listing's child category is one of the crawled categories. */
  lemma ListingsOfCrawledCategories(job: Job, t: Tally)
    requires Sound(job, t)
    ensures forall k :: 0 <= k < |t.listings| ==>
      exists ci :: 0 <= ci < |job.cats| && t.listings[k].childCategoryId == job.cats[ci].id
  {
    AcceptedAreCrawled(job, t.events);
    var ls := t.listings;
    assert ls == AcceptedListings(t.events);
    forall k | 0 <= k < |ls|
      ensures exists ci :: 0 <= ci < |job.cats| && ls[k].childCategoryId == job.cats[ci].id
    {
      CrawledCategory(job, ls[k]);
    }
  }

  /** What one logged event says about its search result: it is on a result page of a crawled
      category, and its kind is decided by the result and the ids known before it. */
  lemma EventOfItem(job: Job, before: seq<ItemEvent>, e: ItemEvent)
    requires EventOk(job, before, e)
    ensures e.item.itemId != []
    ensures exists ci :: 0 <= ci < |job.cats| && InScript(e.item, job.world.searchPages(job.cats[ci]))
    ensures e.SkippedAd? <==> e.item.itemId[0] == AdPrefix
    ensures e.SkippedKnown? <==> e.item.itemId[0] != AdPrefix && e.item.itemId in Known(job, before)
    ensures e.SkippedKnown? ==> (Shrinks(e) <==> job.noCap)
    ensures e.DetailFailed? <==> Fresh(e.item, Known(job, before)) && DetailOutcomeOf(e.item.detail).Skipped?
    ensures e.DetailFailed? ==> DetailOutcomeOf(e.item.detail) == Skipped(e.fault)
    ensures e.Accepted? <==> Fresh(e.item, Known(job, before)) && DetailOutcomeOf(e.item.detail).Got?
  {
    var ci :| 0 <= ci < |job.cats| && InScript(e.item, job.world.searchPages(job.cats[ci])) &&
      Turn(job, job.cats[ci].id, Known(job, before), e.item) == Logged(e);
    TurnMeaning(job, job.cats[ci].id, Known(job, before), e.item);
  }

  /** `max_listings` starts at the effective limit and loses one for every search result whose
      detail fetch failed with a site error or a missing element, and for every known id exactly
      when no cap was asked for; a known id is one the caller passed in or one accepted earlier
      in the crawl; every logged search result comes from a result page of a crawled category. */
  lemma CapAccounting(job: Job, t: Tally)
    requires Sound(job, t)
    ensures t.cap == job.lim - ShrinkCount(t.events) && t.cap <= job.lim
    ensures forall i :: 0 <= i < |t.events| ==>
      exists ci :: 0 <= ci < |job.cats| && InScript(t.events[i].item, job.world.searchPages(job.cats[ci]))
    ensures forall i :: 0 <= i < |t.events| && t.events[i].SkippedKnown? ==>
      ((Shrinks(t.events[i]) <==> job.noCap) &&
       t.events[i].item.itemId in job.existing + ItemIds(AcceptedListings(t.events[..i])))
    ensures forall i :: 0 <= i < |t.events| && t.events[i].DetailFailed? ==>
      (Shrinks(t.events[i]) && DetailOutcomeOf(t.events[i].item.detail) == Skipped(t.events[i].fault) &&
       t.events[i].fault in {SiteError, ElementMissing})
    ensures forall i :: 0 <= i < |t.events| && t.events[i].SkippedAd? ==>
      t.events[i].item.itemId != [] && t.events[i].item.itemId[0] == AdPrefix
  {
    EventsSoundAll(job, t.events);
    forall i | 0 <= i < |t.events| ensures
      (exists ci :: 0 <= ci < |job.cats| && InScript(t.events[i].item, job.world.searchPages(job.cats[ci]))) &&
      (t.events[i].SkippedKnown? ==>
        (Shrinks(t.events[i]) <==> job.noCap) &&
        t.events[i].item.itemId in job.existing + ItemIds(AcceptedListings(t.events[..i]))) &&
      (t.events[i].DetailFailed? ==>
        DetailOutcomeOf(t.events[i].item.detail) == Skipped(t.events[i].fault) &&
        t.events[i].fault in {SiteError, ElementMissing}) &&
      (t.events[i].SkippedAd? ==> t.events[i].item.itemId != [] && t.events[i].item.itemId[0] == AdPrefix)
    {
      EventOfItem(job, t.events[..i], t.events[i]);
    }
  }

  /** The count of decrements never goes down as events are added: `max_listings` never grows. */
  lemma {:induction false} ShrinkCountMonotone(events: seq<ItemEvent>, n: nat)
    requires n <= |events|
    ensures ShrinkCount(events[..n]) <= ShrinkCount(events)
    decreases |events| - n
  {
    if n < |events| {
      ShrinkCountMonotone(events[..|events| - 1], n);
      assert events[..|events| - 1][..n] == events[..n];
    } else {
      assert events[..n] == events;
    }
  }

  /** Category `ci` was read until a load that found no search results: a page load the
      catalogue ran out, on an attempt past its last answer or whose answer was empty. */
  ghost predicate RanOut(job: Job, visits: seq<Visit>, ci: nat)
    requires ci < |job.cats|
  {
    exists i :: 0 <= i < |visits| && visits[i].category == ci && visits[i].result == Exhausted &&
      (Answer(job, ci, visits[i].attempt).None? || Answer(job, ci, visits[i].attempt) == Some(Results([])))
  }

  /** When no listing was lost to a known id or a failed fetch, a complete crawl returns exactly
      the effective limit, unless every category was read until an answer with no results. */
  lemma ExactlyTheLimit(job: Job, ls: seq<Listing>, t: Tally, visits: seq<Visit>)
    requires Concluded(job, Complete(ls), t, visits) && ShrinkCount(t.events) == 0
    ensures |ls| == Bound(job.lim) || forall ci :: 0 <= ci < |job.cats| ==> RanOut(job, visits, ci)
  {
    if |t.listings| < t.cap {
      forall ci | 0 <= ci < |job.cats| ensures RanOut(job, visits, ci) {
        assert ExhaustedIn(visits, ci);
        var i :| 0 <= i < |visits| && visits[i] == Visit(ci, visits[i].page, visits[i].attempt, Exhausted);
        assert AnswerFits(job, visits[i]);
      }
    }
  }

  /** One pass of the item loop of category `catId` after the events `before`: nothing once the
      listings reached the limit, otherwise the turn of the result with the ids known then. */
  function StepOf(job: Job, catId: int): (step: (seq<ItemEvent>, RawItem) -> Option<ItemStep>)
    ensures forall before, item ::
      step(before, item) == if |AcceptedListings(before)| == job.lim then None else Some(Turn(job, catId, Known(job, before), item))
  {
    (before: seq<ItemEvent>, item: RawItem) =>
      if |AcceptedListings(before)| == job.lim then None else Some(Turn(job, catId, Known(job, before), item))
  }

  /** The item loop, started at result `from` after the events `before`, logs one event per
      search result, in order, each the one `step` gives for its result after the events before
      it; it stops after the last result, where `step` gives nothing, or at the first result whose
      turn leaves the loop. */
  ghost predicate PageTrace(step: (seq<ItemEvent>, RawItem) -> Option<ItemStep>, items: seq<RawItem>, from: nat,
                            before: seq<ItemEvent>, after: seq<ItemEvent>, end: PageEnd)
    requires from <= |items|
  {
    // event `j` of `after` comes from result `j + shift`
    var shift := from - |before|;
    |before| <= |after| <= |items| - shift && after[..|before|] == before &&
    (forall j {:trigger after[j]} :: |before| <= j < |after| ==> step(after[..j], items[j + shift]) == Some(Logged(after[j]))) &&
    (end.Done? ==> |after| == |items| - shift || step(after, items[|after| + shift]).None?) &&
    (!end.Done? ==> |after| < |items| - shift && step(after, items[|after| + shift]) == Some(Halted(end)))
  }

  /** `item_ids` stays the caller's ids and the accepted ones as events are logged. */
  lemma KnownRecord(job: Job, t: Tally, e: ItemEvent)
    requires t.ids == Known(job, t.events) && t.listings == AcceptedListings(t.events)
    ensures var t1 := Record(t, e); t1.ids == Known(job, t1.events) && t1.listings == AcceptedListings(t1.events)
  {
    var t1 := Record(t, e);
    AcceptedAppend(t.events, e);
    assert t1.listings == AcceptedListings(t1.events);
    if e.Accepted? {
      DistinctIdsAppend(t.listings, e.listing);
      assert ItemIds(t1.listings) == ItemIds(t.listings) + {e.listing.itemId};
      assert t1.ids == t.ids + {e.listing.itemId};
    } else {
      assert t1.listings == t.listings && t1.ids == t.ids;
    }
  }

  /** A result for which `step` logs event `e` extends a trace of the results after it. */
  lemma TraceStep(step: (seq<ItemEvent>, RawItem) -> Option<ItemStep>, items: seq<RawItem>, from: nat,
                  before: seq<ItemEvent>, e: ItemEvent, after: seq<ItemEvent>, end: PageEnd)
    requires from < |items| && step(before, items[from]) == Some(Logged(e))
    requires PageTrace(step, items, from + 1, before + [e], after, end)
    ensures PageTrace(step, items, from, before, after, end)
  {
    var n := |before|;
    assert (from + 1) - |before + [e]| == from - n;
    assert after[..n] == before by {
      assert after[..n + 1] == before + [e];
      assert after[..n] == after[..n + 1][..n];
    }
    assert after[n] == e by {
      assert after[n] == (before + [e])[n];
    }
  }

  /** The item loop processes the results of a page in order: `ItemsRun` is traced by
      `PageTrace`. */
  lemma {:induction false} ItemsRunTrace(job: Job, catId: int, items: seq<RawItem>, from: nat, t: Tally)
    requires from <= |items|
    requires t.ids == Known(job, t.events) && t.listings == AcceptedListings(t.events)
    requires |t.listings| <= job.lim
    ensures var run := ItemsRun(job, catId, items, from, t);
      PageTrace(StepOf(job, catId), items, from, t.events, run.0.events, run.1)
    decreases |items| - from
  {
    assert t.events[..|t.events|] == t.events;
    var run := ItemsRun(job, catId, items, from, t);
    if from < |items| && |t.listings| != job.lim {
      var s := Turn(job, catId, t.ids, items[from]);
      if s.Logged? {
        var t1 := Record(t, s.event);
        KnownRecord(job, t, s.event);
        ItemsRunTrace(job, catId, items, from + 1, t1);
        assert run == ItemsRun(job, catId, items, from + 1, t1);
        TraceStep(StepOf(job, catId), items, from, t.events, s.event, run.0.events, run.1);
      } else {
        assert run == (t, s.end);
      }
    } else {
      assert run == (t, Done);
    }
  }

  /** A search result that the item loop accepts whenever its id is not yet known. */
  predicate Acceptable(catId: int, item: RawItem) {
    item.itemId != [] && item.itemId[0] != AdPrefix && item.categoryId == catId && DetailOutcomeOf(item.detail).Got?
  }

  /** On a page of results that would all be accepted, with distinct new ids, the item loop
      accepts them one after another until the limit, and the cap stays. */
  lemma {:induction false} ItemsRunFills(job: Job, catId: int, items: seq<RawItem>, from: nat, t: Tally)
    requires from <= |items|
    requires forall j :: from <= j < |items| ==> Acceptable(catId, items[j]) && items[j].itemId !in t.ids
    requires forall i, j :: from <= i < j < |items| ==> items[i].itemId != items[j].itemId
    requires |t.listings| <= job.lim
    ensures ItemsRun(job, catId, items, from, t).1 == Done
    ensures |ItemsRun(job, catId, items, from, t).0.listings| ==
      if |items| - from < job.lim - |t.listings| then |t.listings| + (|items| - from) else job.lim
    ensures ItemsRun(job, catId, items, from, t).0.cap == t.cap
    decreases |items| - from
  {
    if from < |items| && |t.listings| != job.lim {
      var item := items[from];
      var l := MakeListing(job.parent, item, DetailOutcomeOf(item.detail).details, job.now);
      TurnMeaning(job, catId, t.ids, item);
      assert Turn(job, catId, t.ids, item) == Logged(Accepted(item, l));
      ItemsRunFills(job, catId, items, from + 1, Record(t, Accepted(item, l)));
    }
  }

  /** Once the cap is reached the categories left add no page load and change nothing. */
  lemma {:induction false} CategoriesRunAtCap(job: Job, ci: nat, t: Tally, visits: seq<Visit>)
    requires ci <= |job.cats| && |t.listings| >= t.cap
    ensures CategoriesRun(job, ci, t, visits) == (Complete(t.listings), t, visits)
    decreases |job.cats| - ci
  {
    if ci < |job.cats| {
      CategoriesRunAtCap(job, ci + 1, t, visits);
    }
  }

  /** When the first answer of the first category holds at least the limit of results that would
      all be accepted, with distinct ids the caller does not know, the crawl completes with
      exactly the limit. */
  lemma ExactlyTheLimitOnSite(job: Job, items: seq<RawItem>)
    requires |job.cats| > 0 && job.cats[0].url != [] && job.lim > 0
    requires Answer(job, 0, 0) == Some(Results(items)) && |items| >= job.lim
    requires forall j :: 0 <= j < |items| ==> Acceptable(job.cats[0].id, items[j]) && items[j].itemId !in job.existing
    requires forall i, j :: 0 <= i < j < |items| ==> items[i].itemId != items[j].itemId
    ensures CrawlOf(job).0.Complete? && |CrawlOf(job).0.listings| == job.lim
  {
    var t0 := Start(job);
    ItemsRunFills(job, job.cats[0].id, items, 0, t0);
    var run := ItemsRun(job, job.cats[0].id, items, 0, t0);
    assert PageRun(job, 0, 1, Answer(job, 0, 0), t0) == (run.0, Advanced, Finished);
    var v := [Visit(0, 1, 0, Advanced)];
    PagesRunStep(job, 0, 1, 0, t0, []);
    assert [] + [Visit(0, 1, 0, Advanced)] == v;
    assert |t0.listings| < t0.cap;
    assert PagesRun(job, 0, 1, 0, t0, []) == PagesRun(job, 0, 2, 1, run.0, v);
    assert PagesRun(job, 0, 2, 1, run.0, v) == (run.0, v, Finished);
    CategoriesRunAtCap(job, 1, run.0, v);
  }

  /** `Paginated` read position by position. */
  lemma {:induction false} PaginatedSteps(visits: seq<Visit>)
    requires Paginated(visits)
    ensures |visits| > 0 ==> visits[0].page == 1 && visits[0].attempt == 0
    ensures forall i :: 0 <= i < |visits| - 1 ==> Step(visits[i], visits[i + 1])
    ensures forall i :: 0 <= i < |visits| && visits[i].result.Retried? ==> PageVerdict(visits[i].result.fault).Retry?
  {
    if |visits| > 1 {
      var init := visits[..|visits| - 1];
      PaginatedSteps(init);
      assert forall i :: 0 <= i < |init| ==> init[i] == visits[i];
    }
  }

  /** The pagination rules of `get_listings`: the crawl gives up only on its last page load; an
      empty page ends its category; every category starts at page 1 with its first answer; within
      a category each load reads the next answer, and the page number goes up by one exactly after
      a processed page and stays after a retry, which only a rate limit, a site error, a missing
      element, a timeout or a lost connection causes. */
  lemma PaginationRules(visits: seq<Visit>)
    requires Paginated(visits)
    ensures forall i :: 0 <= i < |visits| - 1 ==> !visits[i].result.Ended?
    ensures forall i :: 0 <= i < |visits| - 1 && visits[i].result.Exhausted? ==>
      visits[i].category < visits[i + 1].category
    ensures forall i :: 0 <= i < |visits| && (i == 0 || visits[i - 1].category != visits[i].category) ==>
      visits[i].page == 1 && visits[i].attempt == 0
    ensures forall i :: 0 <= i < |visits| - 1 && visits[i + 1].category == visits[i].category ==>
      visits[i + 1].attempt == visits[i].attempt + 1 &&
      (visits[i].result.Advanced? <==> visits[i + 1].page == visits[i].page + 1) &&
      (visits[i].result.Retried? <==> visits[i + 1].page == visits[i].page)
    ensures forall i :: 0 <= i < |visits| && visits[i].result.Retried? ==>
      visits[i].result.fault in {Forbidden, SiteError, ElementMissing, Timeout, Disconnected}
  {
    PaginatedSteps(visits);
    forall i | 0 < i < |visits| && visits[i - 1].category != visits[i].category
      ensures visits[i].page == 1 && visits[i].attempt == 0
    {
      assert Step(visits[i - 1], visits[i]);
    }
  }

  /** The number of processed pages of category `c` among `visits`. */
  function Advances(visits: seq<Visit>, c: nat): nat {
    if visits == [] then 0
    else
      var v := visits[|visits| - 1];
      Advances(visits[..|visits| - 1], c) + (if v.category == c && v.result.Advanced? then 1 else 0)
  }

  lemma {:induction false} AdvancesNone(visits: seq<Visit>, c: nat)
    requires forall j :: 0 <= j < |visits| ==> visits[j].category < c
    ensures Advances(visits, c) == 0
  {
    if visits != [] {
      AdvancesNone(visits[..|visits| - 1], c);
    }
  }

  /** Categories are crawled one after another, and the page a load asks for is one more than the
      number of processed pages of its category before it. */
  lemma {:induction false} PageNumbering(visits: seq<Visit>)
    requires Paginated(visits) && visits != []
    ensures forall j :: 0 <= j < |visits| ==> visits[j].category <= visits[|visits| - 1].category
    ensures visits[|visits| - 1].page == 1 + Advances(visits[..|visits| - 1], visits[|visits| - 1].category)
  {
    var n := |visits|;
    var last := visits[n - 1];
    if n == 1 {
      assert visits[..n - 1] == [];
    } else {
      var init := visits[..n - 1];
      var prev := init[n - 2];
      PageNumbering(init);
      assert init[..n - 2] == visits[..n - 2];
      assert Step(prev, last);
      if prev.category != last.category {
        AdvancesNone(init, last.category);
      }
      forall j | 0 <= j < n ensures visits[j].category <= last.category {
        if j < n - 1 {
          assert visits[j] == init[j];
        }
      }
    }
  }
}
