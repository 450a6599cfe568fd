/**
 * The command-line entry point (`mpscraper/__main__.py`): how the configuration is resolved
 * from flags and environment variables, and the run planner of `main`. The planner loads the
 * known ids from the existing dataset, drops the stale ones so they are crawled again, runs
 * `get_listings` once per parent category under a shrinking overall limit, and saves the merged,
 * deduplicated dataset.
 */
module ScraperMain {
  import opened Wrappers
  import opened Text
  import opened Types
  import opened Site
  import opened Utils
  import opened MpScraper
  import opened SetOrder

  // ---- get_args ----

  /** The values `argparse` produced from the command line (or its defaults). */
  datatype Flags = Flags(
    dataDir: string,
    limit: int,
    headless: bool,
    chromiumPath: string,
    driverPath: Option<string>,
    timeout: int,
    recrawlHours: real,
    waitSeconds: int)

  /** `os.getenv` of `MP_LIMIT`, `MP_HEADLESS`, `MP_TIMEOUT_SECONDS`, `MP_RECRAWL_HOURS` and
      `MP_WAIT_SECONDS`; `None` when the variable is not set. */
  datatype Environment = Environment(
    limit: Option<string>,
    headless: Option<string>,
    timeout: Option<string>,
    recrawlHours: Option<string>,
    waitSeconds: Option<string>)

  datatype Args = Args(
    dataDir: string,
    limit: int,
    headless: bool,
    chromiumPath: string,
    chromedriverPath: Option<string>,
    timeoutSeconds: int,
    waitSeconds: int,
    recrawlHours: real)

  /** `if env_x`: the variable is set and not the empty string. */
  predicate IsSet(v: Option<string>) {
    v.Some? && v.value != ""
  }

  /** Index of the first `c` in `s`, or `|s|`. */
  function IndexOf(s: string, c: char): (k: nat)
    ensures k <= |s| && (k < |s| ==> s[k] == c) && forall i :: 0 <= i < k ==> s[i] != c
  {
    if s == [] then 0 else if s[0] == c then 0 else 1 + IndexOf(s[1..], c)
  }

  function Pow10(n: nat): (p: nat)
    ensures p >= 1
  {
    if n == 0 then 1 else 10 * Pow10(n - 1)
  }

  /** The value of the digits after a decimal point. */
  function Fraction(frac: string): real
    requires AllDigits(frac)
  {
    DigitsValue(frac) as real / Pow10(|frac|) as real
  }

  /** An unsigned decimal `ddd`, `ddd.ddd`, `.ddd` or `ddd.`, with at least one digit. */
  function UnsignedDecimal(t: string): Option<real> {
    var k := IndexOf(t, '.');
    var whole, frac := t[..k], if k < |t| then t[k + 1..] else [];
    if |whole| + |frac| > 0 && AllDigits(whole) && AllDigits(frac) then
      Some(DigitsValue(whole) as real + Fraction(frac))
    else None
  }

  /** Python's `float(s)` on plain decimal numerals: optional surrounding whitespace, an optional
      sign, then an unsigned decimal; `None` where the model raises `ValueError`. */
  function ParseDecimal(s: string): Option<real> {
    var t := Strip(s);
    if |t| > 0 && (t[0] == '-' || t[0] == '+') then
      match UnsignedDecimal(t[1..])
      case Some(v) => Some(if t[0] == '-' then -v else v)
      case None => None
    else UnsignedDecimal(t)
  }

  lemma {:induction false} IndexOfAbsent(s: string, c: char)
    requires forall i :: 0 <= i < |s| ==> s[i] != c
    ensures IndexOf(s, c) == |s|
  {
    if s != [] {
      assert forall i :: 0 <= i < |s[1..]| ==> s[1..][i] == s[i + 1];
      IndexOfAbsent(s[1..], c);
    }
  }

  lemma DigitsHaveNoPoint(t: string)
    requires AllDigits(t)
    ensures IndexOf(t, '.') == |t|
  {
    forall i | 0 <= i < |t| ensures t[i] != '.' {
      assert IsDigit(t[i]);
    }
    IndexOfAbsent(t, '.');
  }

  lemma UnsignedDecimalOfDigits(t: string)
    requires |t| > 0 && AllDigits(t)
    ensures UnsignedDecimal(t) == Some(DigitsValue(t) as real)
  {
    DigitsHaveNoPoint(t);
    assert t[..|t|] == t;
    assert Fraction([]) == 0.0;
  }

  /** `float(s)` agrees with `int(s)` on every string `int` accepts. */
  lemma ParseDecimalExtendsParseInt(s: string)
    requires ParseInt(s).Some?
    ensures ParseDecimal(s) == Some(ParseInt(s).value as real)
  {
    var t := Strip(s);
    if |t| > 0 && (t[0] == '-' || t[0] == '+') {
      UnsignedDecimalOfDigits(t[1..]);
    } else {
      UnsignedDecimalOfDigits(t);
    }
  }

  const YesWords: set<string> := {"1", "y", "yes", "t", "true", "on"}
  const NoWords: set<string> := {"0", "n", "no", "f", "false", "off"}

  /** No word reads both ways. */
  lemma YesAndNoDisjoint()
    ensures YesWords * NoWords == {}
  {
  }

  /** The reading of a stripped, lower-cased value: yes, no, or a `ValueError`. */
  function BoolWord(t: string): (r: Option<bool>)
    ensures r == Some(true) <==> t in YesWords
    ensures r == Some(false) <==> t in NoWords
    ensures r.None? <==> t !in YesWords && t !in NoWords
  {
    YesAndNoDisjoint();
    if t in YesWords then Some(true)
    else if t in NoWords then Some(false)
    else None
  }

  /** What `MP_HEADLESS` evidently means: the usual spellings of yes and no, in any letter
      case and with surrounding whitespace; anything else is a `ValueError`. */
  function ParseBool(s: string): Option<bool> {
    BoolWord(Lower(Strip(s)))
  }

  /** Python's `bool(s)` of a string: true exactly when it is not empty. */
  function StrTruth(s: string): bool {
    s != ""
  }

  /** `bool(env_headless) if env_headless else args.headless`, as the source writes it. */
  function HeadlessAsWritten(env: Option<string>, flag: bool): bool {
    if IsSet(env) then StrTruth(env.value) else flag
  }

  /** As written, a set `MP_HEADLESS` always turns headless mode on, whatever it says. */
  lemma HeadlessAsWrittenIgnoresValue(env: Option<string>, flag: bool)
    requires IsSet(env)
    ensures HeadlessAsWritten(env, flag)
  {
  }

  /** As written, every value the corrected reading takes for "no" turns headless mode on, where
      the corrected reading turns it off. */
  lemma HeadlessAsWrittenMisreads(s: string, flag: bool)
    requires ParseBool(s) == Some(false)
    ensures HeadlessAsWritten(Some(s), flag) && EnvOverFlag(Some(s), ParseBool, flag) == Some(false)
  {
    assert |Lower(Strip(s))| > 0;
    assert |s| > 0;
  }

  lemma FalseReadsAsIs(s: string)
    requires s == "false"
    ensures Lower(Strip(s)) == s
  {
    StripUnchanged(s);
    assert Lower(s) == s;
  }

  /** `MP_HEADLESS=false` on a run without `--headless`: the source runs headless... */
  lemma HeadlessFalseAsWritten(s: string)
    requires s == "false"
    ensures HeadlessAsWritten(Some(s), false)
  {
  }

  /** ...where the corrected reading does not. */
  lemma HeadlessFalseCorrected(s: string)
    requires s == "false"
    ensures ParseBool(s) == Some(false) && EnvOverFlag(Some(s), ParseBool, false) == Some(false)
  {
    FalseReadsAsIs(s);
    assert s in NoWords;
  }

  /** `x = parse(env_x) if env_x else args.x`: a set, non-empty environment value wins; `None`
      models the `ValueError` of a value that does not parse. */
  function EnvOverFlag<T>(env: Option<string>, parse: string -> Option<T>, flag: T): Option<T> {
    if IsSet(env) then parse(env.value) else Some(flag)
  }

  /** `get_args` after `parser.parse_args()`, with the headless value read by `ParseBool`.
      A `ValueError` from `int`, `float` or `ParseBool` is `Failure(Unexpected)`. */
  function ResolveArgs(flags: Flags, env: Environment): (r: Result<Args, Fault>)
    ensures r.Failure? <==>
      (IsSet(env.limit) && ParseInt(env.limit.value).None?) ||
      (IsSet(env.headless) && ParseBool(env.headless.value).None?) ||
      (IsSet(env.timeout) && ParseInt(env.timeout.value).None?) ||
      (IsSet(env.recrawlHours) && ParseDecimal(env.recrawlHours.value).None?) ||
      (IsSet(env.waitSeconds) && ParseInt(env.waitSeconds.value).None?)
    ensures r.Failure? ==> r.error == Unexpected
    ensures r.Success? ==>
      var a := r.value;
      && a.dataDir == flags.dataDir && a.chromiumPath == flags.chromiumPath
      && a.chromedriverPath == flags.driverPath
      && (if IsSet(env.limit) then ParseInt(env.limit.value) == Some(a.limit) else a.limit == flags.limit)
      && (if IsSet(env.headless) then ParseBool(env.headless.value) == Some(a.headless)
          else a.headless == flags.headless)
      && (if IsSet(env.timeout) then ParseInt(env.timeout.value) == Some(a.timeoutSeconds)
          else a.timeoutSeconds == flags.timeout)
      && (if IsSet(env.recrawlHours) then ParseDecimal(env.recrawlHours.value) == Some(a.recrawlHours)
          else a.recrawlHours == flags.recrawlHours)
      && (if IsSet(env.waitSeconds) then ParseInt(env.waitSeconds.value) == Some(a.waitSeconds)
          else a.waitSeconds == flags.waitSeconds)
  {
    var limit := EnvOverFlag(env.limit, ParseInt, flags.limit);
    var headless := EnvOverFlag(env.headless, ParseBool, flags.headless);
    var timeout := EnvOverFlag(env.timeout, ParseInt, flags.timeout);
    var recrawl := EnvOverFlag(env.recrawlHours, ParseDecimal, flags.recrawlHours);
    var wait := EnvOverFlag(env.waitSeconds, ParseInt, flags.waitSeconds);
    if limit.None? || headless.None? || timeout.None? || recrawl.None? || wait.None? then
      Failure(Unexpected)
    else
      Success(Args(flags.dataDir, limit.value, headless.value, flags.chromiumPath, flags.driverPath,
                   timeout.value, wait.value, recrawl.value))
  }

  /** The arguments a run uses when no variable is set (or all are empty): the flags. */
  function FromFlags(flags: Flags): Args {
    Args(flags.dataDir, flags.limit, flags.headless, flags.chromiumPath, flags.driverPath,
         flags.timeout, flags.waitSeconds, flags.recrawlHours)
  }

  lemma ResolveArgsWithoutEnvironment(flags: Flags, env: Environment)
    requires !IsSet(env.limit) && !IsSet(env.headless) && !IsSet(env.timeout)
    requires !IsSet(env.recrawlHours) && !IsSet(env.waitSeconds)
    ensures ResolveArgs(flags, env) == Success(FromFlags(flags))
  {
  }

  /** A set variable decides its value: two command lines give the same value whenever the
      variable is set, however their flags differ. */
  lemma EnvironmentWins(f1: Flags, f2: Flags, env: Environment)
    requires ResolveArgs(f1, env).Success? && ResolveArgs(f2, env).Success?
    ensures var a1, a2 := ResolveArgs(f1, env).value, ResolveArgs(f2, env).value;
      && (IsSet(env.limit) ==> a1.limit == a2.limit)
      && (IsSet(env.headless) ==> a1.headless == a2.headless)
      && (IsSet(env.timeout) ==> a1.timeoutSeconds == a2.timeoutSeconds)
      && (IsSet(env.recrawlHours) ==> a1.recrawlHours == a2.recrawlHours)
      && (IsSet(env.waitSeconds) ==> a1.waitSeconds == a2.waitSeconds)
  {
  }

  // ---- main: the known ids ----

  /** The loop over `listings_df["item_id"]` that fills `item_ids` and sets `has_duplicates`. */
  method BuildKnownIds(rows: seq<Listing>) returns (ids: set<string>, hasDuplicates: bool)
    ensures ids == ItemIds(rows)
    ensures hasDuplicates <==> !DistinctIds(rows)
  {
    ids, hasDuplicates := {}, false;
    for i := 0 to |rows|
      invariant ids == ItemIds(rows[..i])
      invariant hasDuplicates <==> !DistinctIds(rows[..i])
    {
      assert rows[..i + 1] == rows[..i] + [rows[i]];
      DistinctIdsAppend(rows[..i], rows[i]);
      if rows[i].itemId !in ids {
        ids := ids + {rows[i].itemId};
      } else {
        hasDuplicates := true;
      }
    }
    assert rows[..|rows|] == rows;
  }

  /** The row was crawled `recrawl_hours` or more before `now`. */
  predicate IsStale(row: Listing, now: int, hours: real) {
    DiffHours(row.crawledAt, now) >= hours
  }

  /** The ids of the stale rows. */
  function StaleIds(rows: seq<Listing>, now: int, hours: real): set<string> {
    if rows == [] then {}
    else
      var last := rows[|rows| - 1];
      StaleIds(rows[..|rows| - 1], now, hours) + (if IsStale(last, now, hours) then {last.itemId} else {})
  }

  lemma {:induction false} StaleIdsMembership(rows: seq<Listing>, now: int, hours: real, id: string)
    ensures id in StaleIds(rows, now, hours) <==>
      exists i :: 0 <= i < |rows| && rows[i].itemId == id && IsStale(rows[i], now, hours)
  {
    if rows != [] {
      var init := rows[..|rows| - 1];
      StaleIdsMembership(init, now, hours, id);
      if id in StaleIds(init, now, hours) {
        var i :| 0 <= i < |init| && init[i].itemId == id && IsStale(init[i], now, hours);
        assert rows[i] == init[i];
      }
      if exists i :: 0 <= i < |rows| && rows[i].itemId == id && IsStale(rows[i], now, hours) {
        var i :| 0 <= i < |rows| && rows[i].itemId == id && IsStale(rows[i], now, hours);
        if i < |init| {
          assert init[i] == rows[i];
        }
      }
    }
  }

  /** The recrawl loop: `item_ids.remove(item_id)` for every stale row. `None` is the `KeyError`
      of removing an id that is not (or no longer) in the set. */
  method PruneStale(rows: seq<Listing>, ids: set<string>, now: int, hours: real)
    returns (r: Option<set<string>>)
    ensures r.Some? ==> r.value == ids - StaleIds(rows, now, hours)
    ensures DistinctIds(rows) && ItemIds(rows) <= ids ==> r.Some?
  {
    var known := ids;
    for i := 0 to |rows|
      invariant known == ids - StaleIds(rows[..i], now, hours)
    {
      assert rows[..i + 1][..i] == rows[..i];
      if IsStale(rows[i], now, hours) {
        if rows[i].itemId !in known {
          if DistinctIds(rows) && ItemIds(rows) <= ids {
            ItemIdsMembership(rows, rows[i].itemId);
            StaleIdsMembership(rows[..i], now, hours, rows[i].itemId);
            assert false;
          }
          return None;
        }
        known := known - {rows[i].itemId};
      }
    }
    assert rows[..|rows|] == rows;
    return Some(known);
  }

  /** On a dataset with distinct ids, a row's id is left out of the known set (and so crawled
      again) exactly when the row is stale; an item exactly at the threshold is recrawled. */
  lemma RecrawledIffStale(rows: seq<Listing>, now: int, hours: real, i: int)
    requires DistinctIds(rows) && 0 <= i < |rows|
    ensures rows[i].itemId !in ItemIds(rows) - StaleIds(rows, now, hours) <==> IsStale(rows[i], now, hours)
    ensures DiffHours(rows[i].crawledAt, now) == hours ==> rows[i].itemId in StaleIds(rows, now, hours)
  {
    ItemIdsMembership(rows, rows[i].itemId);
    StaleIdsMembership(rows, now, hours, rows[i].itemId);
  }

  /** The recrawl loop as the source writes it: `now_datetime` is the string that `get_utc_now`
      returns, so `diff_hours(crawled_datetime, now_datetime)` subtracts a `datetime` from a
      `str` and raises on the first row. */
  function PruneStaleAsWritten(rows: seq<Listing>, ids: set<string>): (r: Option<set<string>>)
    ensures r.Some? <==> rows == []
  {
    if rows == [] then Some(ids) else None
  }

  /** Any dataset with one row: the source raises, the corrected pruning does not. */
  lemma PruneStaleCounterexample(row: Listing, now: int, hours: real)
    ensures PruneStaleAsWritten([row], {row.itemId}).None?
    ensures DistinctIds([row]) && ItemIds([row]) <= {row.itemId}
  {
  }

  /** The rows `main` keeps working on: the dataset as loaded, or deduplicated when it had
      duplicates. */
  ghost function Loaded(rows: seq<Listing>): seq<Listing> {
    if DistinctIds(rows) then rows else RemoveDuplicateListings(rows)
  }

  /** The files written before the crawl: the deduplicated dataset when it had duplicates. */
  ghost function InitialSaves(prior: Option<seq<Listing>>): seq<seq<Listing>> {
    if prior.Some? && !DistinctIds(prior.value) then [RemoveDuplicateListings(prior.value)] else []
  }

  /** The ids passed to every `get_listings` call: the loaded ids less the stale ones. */
  ghost function KnownIds(prior: Option<seq<Listing>>, now: int, hours: real): set<string> {
    if prior.None? then {}
    else ItemIds(prior.value) - StaleIds(Loaded(prior.value), now, hours)
  }

  ghost function StartRows(prior: Option<seq<Listing>>): seq<Listing> {
    if prior.None? then [] else Loaded(prior.value)
  }

  /** Lines 176-200 of `main`: read the dataset (`None`: no file), build the known ids, dedupe
      and rewrite the file if needed, then drop the stale ids. */
  method LoadDataset(prior: Option<seq<Listing>>, now: int, hours: real)
    returns (rows: seq<Listing>, known: set<string>, saves: seq<seq<Listing>>)
    ensures rows == StartRows(prior) && DistinctIds(rows)
    ensures known == KnownIds(prior, now, hours)
    ensures saves == InitialSaves(prior)
  {
    rows, known, saves := [], {}, [];
    if prior.Some? {
      rows := prior.value;
      var hasDuplicates;
      known, hasDuplicates := BuildKnownIds(rows);
      if hasDuplicates {
        rows := RemoveDuplicateListings(rows);
        saves := [rows];
        DedupeDistinct(prior.value);
        DedupeKeepsIds(prior.value);
      }
      var pruned := PruneStale(rows, known, now, hours);
      known := pruned.value;
    }
  }

  // ---- main: the parent-category loop ----

  /** One `get_listings` call of the loop: its arguments and what it returned. */
  datatype Call = Call(parent: Category, limit: int, known: set<string>, result: Crawl)

  /** The listings the loop keeps from a call: those returned, or carried by the exception. */
  function Gathered(c: Crawl): seq<Listing> {
    if c.Raised? then [] else c.listings
  }

  /** `remaining_limit` after the call, had it returned normally. */
  function Remaining(c: Call): int {
    c.limit - |Gathered(c.result)|
  }

  /** The loop goes on after the call: it returned and left `remaining_limit >= 1`. */
  predicate Continues(c: Call) {
    c.result.Complete? && Remaining(c) >= 1
  }

  /** The call kept to the limit it was given, as `get_listings` promises. */
  predicate WithinLimit(c: Call) {
    (c.limit > 0 ==> |Gathered(c.result)| <= c.limit) && (c.limit < 0 ==> Gathered(c.result) == [])
  }

  /** All listings the loop appended, in call order. */
  function Kept(calls: seq<Call>): seq<Listing> {
    if calls == [] then [] else Kept(calls[..|calls| - 1]) + Gathered(calls[|calls| - 1].result)
  }

  /** The calls follow the `remaining_limit` / `stop` bookkeeping: the first gets the limit,
      every later one comes after a call that continued, with what that call left. */
  ghost predicate Chained(calls: seq<Call>, limit: int) {
    if calls == [] then true
    else if |calls| == 1 then calls[0].limit == limit
    else
      var prev, last := calls[|calls| - 2], calls[|calls| - 1];
      Chained(calls[..|calls| - 1], limit) && Continues(prev) && last.limit == Remaining(prev)
  }

  lemma {:induction false} ChainedFirst(calls: seq<Call>, limit: int)
    requires Chained(calls, limit) && calls != []
    ensures calls[0].limit == limit
    ensures |calls| >= 2 ==> Continues(calls[0]) && calls[1].limit == Remaining(calls[0])
  {
    if |calls| > 2 {
      var init := calls[..|calls| - 1];
      ChainedFirst(init, limit);
      assert init[0] == calls[0] && init[1] == calls[1];
    }
  }

  /** The limit each call gets is the overall limit less everything kept before it. */
  lemma {:induction false} RemainingAccount(calls: seq<Call>, limit: int)
    requires Chained(calls, limit) && calls != []
    ensures calls[|calls| - 1].limit == limit - |Kept(calls[..|calls| - 1])|
  {
    if |calls| > 1 {
      var init := calls[..|calls| - 1];
      RemainingAccount(init, limit);
      assert init[..|init| - 1] == calls[..|calls| - 2];
      assert init[|init| - 1] == calls[|calls| - 2];
    }
  }

  /** With `limit <= 0` the loop stops after the first parent category. */
  lemma LimitZeroOneCall(calls: seq<Call>, limit: int)
    requires Chained(calls, limit) && limit <= 0
    ensures |calls| <= 1
  {
    if calls != [] {
      ChainedFirst(calls, limit);
    }
  }

  /** With a positive limit, the run never keeps more listings than the limit, counting the
      partial listings of a failed call. */
  lemma TotalWithinLimit(calls: seq<Call>, limit: int)
    requires Chained(calls, limit) && limit > 0
    requires forall k :: 0 <= k < |calls| ==> WithinLimit(calls[k])
    ensures |Kept(calls)| <= limit
  {
    if calls != [] {
      RemainingAccount(calls, limit);
      assert WithinLimit(calls[|calls| - 1]);
    }
  }

  /** What any call returned, or carried in its exception, is part of the merged dataset. */
  lemma {:induction false} KeptHasEveryCall(calls: seq<Call>, k: int)
    requires 0 <= k < |calls|
    ensures forall l :: l in Gathered(calls[k].result) ==> l in Kept(calls)
  {
    var init := calls[..|calls| - 1];
    if k < |calls| - 1 {
      assert calls[k] == init[k];
      KeptHasEveryCall(init, k);
    }
  }

  /** The file saved at the end holds one row per id of the merged dataset, the last one. */
  lemma FinalSaveDeduped(merged: seq<Listing>)
    requires merged != []
    ensures |FinalSaves(merged)| == 1
    ensures var saved := FinalSaves(merged)[0];
      DistinctIds(saved) && ItemIds(saved) == ItemIds(merged) &&
      forall k :: 0 <= k < |saved| ==>
        saved[k].itemId in ItemIds(merged) && saved[k] == LastWith(merged, saved[k].itemId)
  {
    DedupeDistinct(merged);
    DedupeKeepsIds(merged);
    DedupeKeepsLast(merged);
  }

  /** `get_listings` on one parent category, with the guarantee on its size. */
  method CrawlParent(world: World, parent: Category, limit: int, known: set<string>, now: int)
    returns (c: Call)
    ensures c.parent == parent && c.limit == limit && c.known == known && WithinLimit(c)
  {
    var r, cats, t, visits := GetListings(world, parent, limit, known, now);
    c := Call(parent, limit, known, r);
  }

  /** How `main` ends. */
  datatype Exit =
    | Finished            // the loop ran out of categories or stopped; the dataset is saved if non-empty
    | ChromiumMissing     // NotFoundError for `chromium_path`
    | ChromedriverMissing // NotFoundError for `chromedriver_path`
    | CategoriesMissing   // CategoriesError: no parent categories
    | Crash(fault: Fault) // an exception escaped (re-raised after `mp_scraper.close()`)

  /** The loop state after the calls made so far: the merged rows, the bookkeeping and the
      guarantee of each call. */
  ghost predicate Progress(order: seq<Category>, limit: int, known: set<string>, rows: seq<Listing>,
                           calls: seq<Call>, merged: seq<Listing>, remaining: int, stop: bool)
  {
    && merged == rows + Kept(calls)
    && |calls| <= |order| && Chained(calls, limit)
    && (forall k :: 0 <= k < |calls| ==>
          calls[k].parent == order[k] && calls[k].known == known && WithinLimit(calls[k]))
    && (calls == [] ==> remaining == limit && !stop)
    && (calls != [] ==>
          var last := calls[|calls| - 1];
          (stop <==> !Continues(last)) && (!stop ==> remaining == Remaining(last)) &&
          (!last.result.Raised? || last.result.fault == Interrupt))
  }

  /** `remaining_limit` and `stop` after a call that did not crash the run. */
  function NextRemaining(remaining: int, c: Call): int {
    if c.result.Complete? then remaining - |c.result.listings| else remaining
  }

  function NextStop(remaining: int, c: Call): bool {
    !c.result.Complete? || remaining - |c.result.listings| < 1
  }

  /** One more call keeps the loop state. */
  lemma ProgressStep(order: seq<Category>, limit: int, known: set<string>, rows: seq<Listing>,
                     calls: seq<Call>, merged: seq<Listing>, remaining: int, c: Call)
    requires Progress(order, limit, known, rows, calls, merged, remaining, false) && |calls| < |order|
    requires c.parent == order[|calls|] && c.limit == remaining && c.known == known && WithinLimit(c)
    requires !c.result.Raised? || c.result.fault == Interrupt
    ensures Progress(order, limit, known, rows, calls + [c], merged + Gathered(c.result),
                     NextRemaining(remaining, c), NextStop(remaining, c))
  {
    var next := calls + [c];
    assert next[..|calls|] == calls;
    assert Kept(next) == Kept(calls) + Gathered(c.result);
    assert rows + Kept(next) == merged + Gathered(c.result);
  }

  /** One more call that crashes the run. */
  lemma ProgressCrash(order: seq<Category>, limit: int, known: set<string>, rows: seq<Listing>,
                      calls: seq<Call>, merged: seq<Listing>, remaining: int, c: Call)
    requires Progress(order, limit, known, rows, calls, merged, remaining, false) && |calls| < |order|
    requires c.parent == order[|calls|] && c.limit == remaining && c.known == known && WithinLimit(c)
    requires c.result.Raised?
    ensures merged == rows + Kept(calls + [c])
    ensures |calls + [c]| <= |order| && Chained(calls + [c], limit)
    ensures forall k :: 0 <= k < |calls + [c]| ==>
      (calls + [c])[k].parent == order[k] && (calls + [c])[k].known == known && WithinLimit((calls + [c])[k])
  {
    var next := calls + [c];
    assert next[..|calls|] == calls;
    assert Kept(next) == Kept(calls);
  }

  /** `for parent_category in parent_categories` with `remaining_limit` and `stop`. */
  method CrawlParents(world: World, order: seq<Category>, limit: int, known: set<string>, now: int,
                      rows: seq<Listing>)
    returns (exit: Exit, calls: seq<Call>, merged: seq<Listing>)
    ensures merged == rows + Kept(calls)
    ensures exit.Finished? || (exit.Crash? && exit.fault != Interrupt)
    ensures |calls| <= |order| && Chained(calls, limit)
    ensures forall k :: 0 <= k < |calls| ==>
      calls[k].parent == order[k] && calls[k].known == known && WithinLimit(calls[k])
    ensures exit.Finished? && |calls| < |order| ==> |calls| > 0 && !Continues(calls[|calls| - 1])
    ensures exit.Finished? && |calls| > 0 ==>
      var last := calls[|calls| - 1].result; !last.Raised? || last.fault == Interrupt
    ensures exit.Crash? ==> |calls| > 0 && calls[|calls| - 1].result == Raised(exit.fault)
  {
    calls, merged := [], rows;
    var remaining, stop := limit, false;
    while |calls| < |order| && !stop
      invariant Progress(order, limit, known, rows, calls, merged, remaining, stop)
      decreases |order| - |calls|
    {
      var c := CrawlParent(world, order[|calls|], remaining, known, now);
      if c.result.Raised? && c.result.fault != Interrupt {
        ProgressCrash(order, limit, known, rows, calls, merged, remaining, c);
        return Crash(c.result.fault), calls + [c], merged;
      }
      ProgressStep(order, limit, known, rows, calls, merged, remaining, c);
      calls := calls + [c];
      var got := Gathered(c.result);
      if |got| > 0 {
        merged := merged + got;
      }
      match c.result
      case Complete(ls) =>
        remaining := remaining - |ls|;
        stop := remaining < 1;
      case Partial(_, _) =>
        stop := true;
      case Raised(_) =>
        stop := true;
    }
    return Exit.Finished, calls, merged;
  }

  // ---- main ----

  /** The file written at the end: the merged dataset, deduplicated, unless it is empty. */
  function FinalSaves(merged: seq<Listing>): seq<seq<Listing>> {
    if merged == [] then [] else [RemoveDuplicateListings(merged)]
  }

  /** What lines 214-272 of `main` do on the site: without parent categories the run stops with
      the discovery error or `CategoriesError`; otherwise the loop visits the categories in
      `order`, calling `get_listings` with the known ids under the `remaining_limit` / `stop`
      bookkeeping, and on a normal end saves the merged rows, deduplicated, unless they are empty. */
  ghost predicate SiteCrawled(world: World, limit: int, known: set<string>, rows: seq<Listing>,
                              exit: Exit, order: seq<Category>, calls: seq<Call>, saves: seq<seq<Listing>>)
  {
    CrawledFrom(GetParentCategoriesResult(world), limit, known, rows, exit, order, calls, saves)
  }

  /** The same, given what the parent-category discovery returned. */
  ghost predicate CrawledFrom(discovery: Result<set<Category>, Fault>, limit: int, known: set<string>,
                              rows: seq<Listing>, exit: Exit, order: seq<Category>, calls: seq<Call>,
                              saves: seq<seq<Listing>>)
  {
    match discovery
    case Failure(f) => exit == Crash(f) && calls == [] && saves == []
    case Success(parents) =>
      if parents == {} then exit == CategoriesMissing && calls == [] && saves == []
      else
        && (forall p :: p in order <==> p in parents) && |order| == |parents|
        && |calls| <= |order| && Chained(calls, limit)
        && (forall k :: 0 <= k < |calls| ==>
              calls[k].parent == order[k] && calls[k].known == known && WithinLimit(calls[k]))
        && (exit.Finished? || (exit.Crash? && exit.fault != Interrupt && calls != [] &&
                               calls[|calls| - 1].result == Raised(exit.fault)))
        && (exit.Finished? && |calls| < |order| ==> calls != [] && !Continues(calls[|calls| - 1]))
        && saves == if exit.Finished? then FinalSaves(rows + Kept(calls)) else []
  }

  /** Lines 214-272 of `main`: find the parent categories and crawl them, appending what each
      `get_listings` call keeps to `rows`, then save the deduplicated result unless it is empty. */
  method CrawlSite(world: World, limit: int, known: set<string>, now: int, rows: seq<Listing>)
    returns (exit: Exit, order: seq<Category>, calls: seq<Call>, saves: seq<seq<Listing>>)
    ensures SiteCrawled(world, limit, known, rows, exit, order, calls, saves)
  {
    var parents := GetParentCategories(world.home, BaseUrl);
    exit, order, calls, saves := CrawlDiscovered(world, parents, limit, known, now, rows);
  }

  /** Lines 216-272 of `main`, once `get_parent_categories` has answered. */
  method CrawlDiscovered(world: World, parents: Result<set<Category>, Fault>, limit: int, known: set<string>,
                         now: int, rows: seq<Listing>)
    returns (exit: Exit, order: seq<Category>, calls: seq<Call>, saves: seq<seq<Listing>>)
    ensures CrawledFrom(parents, limit, known, rows, exit, order, calls, saves)
  {
    order, calls, saves := [], [], [];
    if parents.Failure? {
      return Crash(parents.error), order, calls, saves;
    }
    if parents.value == {} {
      return CategoriesMissing, order, calls, saves;
    }
    order := ToSeq(parents.value);
    var merged;
    exit, calls, merged := CrawlParents(world, order, limit, known, now, rows);
    if exit.Finished? {
      saves := SaveMerged(merged);
    }
  }

  /** `if len(listings_df.index) > 0`: dedupe and save, or save nothing. */
  method SaveMerged(merged: seq<Listing>) returns (saves: seq<seq<Listing>>)
    ensures saves == FinalSaves(merged)
  {
    saves := [];
    if |merged| > 0 {
      saves := [RemoveDuplicateListings(merged)];
    }
  }

  /** `main` after `get_args`. `prior` is the dataset file (`None`: there is none); `chromiumFound`
      and `driverFound` answer the `os.path.isfile` checks; `saves` are the files written, in
      order; `order` is the order the loop visits the parent-category set in. The dataset is
      loaded (and rewritten if it had duplicates) before the browser paths are checked. */
  method Run(args: Args, prior: Option<seq<Listing>>, now: int, chromiumFound: bool,
             driverFound: bool, world: World)
    returns (exit: Exit, saves: seq<seq<Listing>>, order: seq<Category>, calls: seq<Call>)
    ensures |saves| >= |InitialSaves(prior)| && saves[..|InitialSaves(prior)|] == InitialSaves(prior)
    ensures !chromiumFound ==> exit == ChromiumMissing && calls == [] && saves == InitialSaves(prior)
    ensures chromiumFound && IsSet(args.chromedriverPath) && !driverFound ==>
      exit == ChromedriverMissing && calls == [] && saves == InitialSaves(prior)
    ensures chromiumFound && (!IsSet(args.chromedriverPath) || driverFound) ==>
      SiteCrawled(world, args.limit, KnownIds(prior, now, args.recrawlHours), StartRows(prior),
                  exit, order, calls, saves[|InitialSaves(prior)|..])
  {
    var rows, known;
    rows, known, saves := LoadDataset(prior, now, args.recrawlHours);
    order, calls := [], [];
    if !chromiumFound {
      return ChromiumMissing, saves, order, calls;
    }
    if IsSet(args.chromedriverPath) && !driverFound {
      return ChromedriverMissing, saves, order, calls;
    }
    var final;
    exit, order, calls, final := CrawlSite(world, args.limit, known, now, rows);
    assert (saves + final)[|saves|..] == final;
    saves := saves + final;
  }

  /** What `mp_scraper.get_parent_categories()` returns on the site. */
  function GetParentCategoriesResult(world: World): Result<set<Category>, Fault> {
    if world.home.HomeFailed? then Failure(world.home.fault) else ParentCategoriesOf(world.home.entries, BaseUrl)
  }
}
