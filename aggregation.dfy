/**
 * The catalog aggregator (backend/aggregator.py). For each configured shop it
 * fetches the catalog page, turns every matched container into a product
 * record, follows the container's subpage link to fill the record's `details`,
 * drops records without a usable name or with an excluded keyword in it, and
 * concatenates the shops' records into the day's result, at most once a day.
 *
 * HTML parsing, selectors, the network, `urljoin`, `urlsplit`, `urlunsplit` and
 * `str.upper` are foreign: they come in as values (`Page`, `Externals`). The
 * functions below say what each step computes; the class `Aggregator` holds the
 * loops of the source and is proved to compute exactly that.
 */
module Aggregation {
  import opened Wrappers
  import opened Strings
  import opened Objects
  import opened PercentEncoding
  import opened Snapshot

  /** What a selector found: the element's `get_text(strip=True)` and its `src` and `href`. */
  datatype Element = Element(text: string, src: Option<string>, href: Option<string>)

  /** One catalog container: `container.select_one(selector)` for each selector; absent means no match. */
  type Container = map<string, Element>

  /** A parsed page: `soup.select(selector)` and `soup.select_one(selector)`. */
  datatype Page = Page(select: map<string, seq<Container>>, selectOne: map<string, Element>)

  /** The five components `urlsplit` returns. */
  datatype UrlParts = UrlParts(scheme: string, netloc: string, path: string, query: string, fragment: string)

  /**
   * The foreign operations. `fetch` is `urlopen` followed by parsing and fails with
   * the transport's message; `join` (`urljoin`) and `split` (`urlsplit`) fail with
   * the `ValueError` they raise on malformed URLs; `upper` is `str.upper` per character.
   */
  datatype Externals = Externals(
    fetch: string -> Result<Page, string>,
    join: (string, string) -> Result<string, string>,
    split: string -> Result<UrlParts, string>,
    unsplit: UrlParts -> string,
    upper: char -> char)

  /**
   * One shop's configuration. The attribute maps are JSON objects, kept as their
   * (attribute, selector) entries in file order; `excluded` is `[]` when the key is absent.
   */
  datatype ShopConfig = ShopConfig(
    shopName: string,
    baseUrl: string,
    catalog: string,
    linkToSubpage: string,
    mainpage: seq<(string, string)>,
    subpage: seq<(string, string)>,
    excluded: seq<string>)

  /** A product record, a JSON object. */
  type Record = Fields

  /** What became of one container inside the `try` of the catalog loop. */
  datatype Outcome = Kept(record: Record) | Skipped | Raised(message: string)

  // ---------------------------------------------------------------- mainpage attributes

  /** `element.get('src')` is truthy. */
  predicate HasSrc(e: Element) {
    e.src.Some? && e.src.value != ""
  }

  /** One pass of the mainpage attribute loop over `product_data`. */
  function MainpageStep(r: Record, c: Container, attr: string, selector: string, base: string,
                        ext: Externals): Result<Record, string>
  {
    if selector !in c then Success(r)
    else if attr == "image" && HasSrc(c[selector]) then
      var u :- ext.join(base, c[selector].src.value);
      Success(Put(r, attr, Str(u)))
    else Success(Put(r, attr, Str(c[selector].text)))
  }

  /** `product_data` after the first `n` mainpage attributes, starting from `{"shop": shop_name}`. */
  function MainpageFields(c: Container, shop: ShopConfig, n: nat, ext: Externals): Result<Record, string>
    requires n <= |shop.mainpage|
  {
    if n == 0 then Success([("shop", Str(shop.shopName))])
    else
      var r :- MainpageFields(c, shop, n - 1, ext);
      MainpageStep(r, c, shop.mainpage[n - 1].0, shop.mainpage[n - 1].1, shop.baseUrl, ext)
  }

  /**
   * The value one mainpage attribute contributes, stated on its own: nothing when
   * its selector matches nothing, the joined URL for an `image` with a `src`, and
   * the element's text otherwise.
   */
  function AttributeValue(c: Container, attr: string, selector: string, base: string,
                          ext: Externals): Option<Json>
  {
    if selector !in c then None
    else if attr == "image" && HasSrc(c[selector]) then
      match ext.join(base, c[selector].src.value)
      case Success(u) => Some(Str(u))
      case Failure(_) => None
    else Some(Str(c[selector].text))
  }

  // ---------------------------------------------------------------- subpage link and details

  /** The path and query percent-encoded; scheme, netloc and fragment as they were. */
  function EncodeParts(p: UrlParts): (q: UrlParts)
    ensures q.scheme == p.scheme && q.netloc == p.netloc && q.fragment == p.fragment
    ensures q.path == QuotePath(p.path) && q.query == QuoteQuery(p.query)
    ensures DecodeUtf8(Unquote(q.path)) == Some(p.path) && DecodeUtf8(Unquote(q.query)) == Some(p.query)
  {
    ComponentRoundTrip(p.path);
    ComponentRoundTrip(p.query);
    p.(path := QuotePath(p.path), query := QuoteQuery(p.query))
  }

  /**
   * The encoded subpage URL of a container, `None` when it has no link element or
   * the link has no `href`; a failure when `urljoin` or `urlsplit` raises.
   */
  function SubpageLink(c: Container, shop: ShopConfig, ext: Externals): Result<Option<string>, string>
  {
    if shop.linkToSubpage !in c then Success(None)
    else
      var href := c[shop.linkToSubpage].href;
      if href.None? || href.value == "" then Success(None)
      else
        var raw :- ext.join(shop.baseUrl, href.value);
        var parts :- ext.split(raw);
        Success(Some(ext.unsplit(EncodeParts(parts))))
  }

  /** `fetch_page`: the transport's failure message gets the prefix `Network error: `. */
  function FetchPage(ext: Externals, url: string): Result<Page, string>
  {
    match ext.fetch(url)
    case Success(p) => Success(p)
    case Failure(e) => Failure("Network error: " + e)
  }

  /** The selector of a subpage attribute found non-empty text. */
  predicate HasText(page: Page, selector: string) {
    selector in page.selectOne && page.selectOne[selector].text != ""
  }

  /** The value `parse_subpage` stores for one subpage attribute: its text, or `None`. */
  function SubpageValue(page: Page, selector: string): Json
  {
    if HasText(page, selector) then Str(page.selectOne[selector].text) else Null
  }

  /** Some subpage attribute found non-empty text: the final `valid_content`. */
  predicate AnyText(page: Page, attrs: seq<(string, string)>) {
    exists i :: 0 <= i < |attrs| && HasText(page, attrs[i].1)
  }

  /** `valid_content` after one more attribute: it was set before, or this one found text. */
  lemma AnyTextStep(page: Page, attrs: seq<(string, string)>, i: nat)
    requires i < |attrs|
    ensures AnyText(page, attrs[..i + 1]) <==> AnyText(page, attrs[..i]) || HasText(page, attrs[i].1)
  {
    assert attrs[..i + 1][..i] == attrs[..i];
    assert attrs[..i + 1][i] == attrs[i];
    if AnyText(page, attrs[..i + 1]) && !HasText(page, attrs[i].1) {
      var j :| 0 <= j < i + 1 && HasText(page, attrs[..i + 1][j].1);
      assert attrs[..i][j] == attrs[..i + 1][j];
    }
  }

  /** `details` after the first `n` subpage attributes. */
  function SubpageFields(page: Page, attrs: seq<(string, string)>, n: nat): Record
    requires n <= |attrs|
  {
    if n == 0 then []
    else Put(SubpageFields(page, attrs, n - 1), attrs[n - 1].0, SubpageValue(page, attrs[n - 1].1))
  }

  /** The `details` that `parse_subpage` builds from a fetched page. */
  function SubpageDetails(page: Page, attrs: seq<(string, string)>, url: string): Record
  {
    var d := SubpageFields(page, attrs, |attrs|);
    if AnyText(page, attrs) then Put(d, "url", Str(url)) else d
  }

  /** `parse_subpage(url, shop_config)`: fetch, then build `details`. */
  function SubpageOutcome(url: string, shop: ShopConfig, ext: Externals): Result<Record, string>
  {
    var page :- FetchPage(ext, url);
    Success(SubpageDetails(page, shop.subpage, url))
  }

  /** The marker the catalog loop stores when the subpage fails. */
  const SubpageError: Record := [("error", Str("Subpage failed to load"))]

  /** `product_data` once `details` is attached, when the container links to a subpage. */
  function WithDetails(fields: Record, link: Option<string>, shop: ShopConfig, ext: Externals): Record
  {
    if link.None? then fields
    else
      var details := match SubpageOutcome(link.value, shop, ext)
                     case Success(d) => d
                     case Failure(_) => SubpageError;
      Put(fields, "details", Obj(details))
  }

  // ---------------------------------------------------------------- name and keyword filter

  /**
   * `product_data.get('name') or product_data.get('details', {}).get('name')`, with
   * `None` for every falsy value; a failure when `details` is not a dictionary.
   */
  function EffectiveName(r: Record): Result<Option<Json>, string>
  {
    var top := Get(r, "name");
    if top.Some? && PyTruthy(top.value) then Success(top)
    else
      var details := Get(r, "details");
      if details.None? then Success(None)
      else if details.value.Obj? then
        var inner := Get(details.value.fields, "name");
        if inner.Some? && PyTruthy(inner.value) then Success(inner) else Success(None)
      else Failure("'str' object has no attribute 'get'")
  }

  /**
   * `if not name or not name.strip(): continue`: the name when the record may stay,
   * `None` when it is skipped, a failure when `strip` is called on a non-string.
   */
  function UsableName(r: Record): (res: Result<Option<string>, string>)
    ensures res.Success? && res.value.Some? ==> Strip(res.value.value) != []
  {
    var name :- EffectiveName(r);
    if name.None? then Success(None)
    else if name.value.Str? then
      if Strip(name.value.s) == [] then Success(None) else Success(Some(name.value.s))
    else Failure("'dict' object has no attribute 'strip'")
  }

  /** `any(kw.upper() in name.upper() for kw in excluded_keywords)`. */
  predicate Excluded(name: string, keywords: seq<string>, upper: char -> char) {
    exists i :: 0 <= i < |keywords| && Contains(MapChars(name, upper), MapChars(keywords[i], upper))
  }

  /** The body of the catalog loop for one container, its exceptions included. */
  function ContainerOutcome(c: Container, shop: ShopConfig, ext: Externals): Outcome
  {
    match MainpageFields(c, shop, |shop.mainpage|, ext)
    case Failure(e) => Raised(e)
    case Success(fields) =>
      match SubpageLink(c, shop, ext)
      case Failure(e) => Raised(e)
      case Success(link) =>
        var r := WithDetails(fields, link, shop, ext);
        match UsableName(r)
        case Failure(e) => Raised(e)
        case Success(name) =>
          if name.None? || Excluded(name.value, shop.excluded, ext.upper) then Skipped else Kept(r)
  }

  function KeptRecords(o: Outcome): seq<Record>
  {
    if o.Kept? then [o.record] else []
  }

  /** The records of a run of containers, in container order. */
  function CollectRecords(cs: seq<Container>, shop: ShopConfig, ext: Externals): (rs: seq<Record>)
    ensures |rs| <= |cs|
    ensures forall r :: r in rs ==> exists i :: 0 <= i < |cs| && ContainerOutcome(cs[i], shop, ext) == Kept(r)
  {
    if cs == [] then []
    else CollectRecords(cs[..|cs| - 1], shop, ext) + KeptRecords(ContainerOutcome(cs[|cs| - 1], shop, ext))
  }

  function Select(page: Page, selector: string): seq<Container>
  {
    if selector in page.select then page.select[selector] else []
  }

  /** `parse_main_page(html, shop_config)`. */
  function MainPageRecords(page: Page, shop: ShopConfig, ext: Externals): (rs: seq<Record>)
    ensures Select(page, shop.catalog) == [] ==> rs == []
    ensures forall r :: r in rs ==> exists c :: c in Select(page, shop.catalog) && ContainerOutcome(c, shop, ext) == Kept(r)
  {
    var cs := Select(page, shop.catalog);
    if |cs| == 0 then [] else CollectRecords(cs, shop, ext)
  }

  // ---------------------------------------------------------------- the run

  /** One shop's share of the run: its catalog fetch, then its records. */
  function ShopRecords(shop: ShopConfig, ext: Externals): Result<seq<Record>, string>
  {
    var page :- FetchPage(ext, shop.baseUrl);
    Success(MainPageRecords(page, shop, ext))
  }

  /** `all_results` after the shop loop, or the exception that escaped it. */
  function Aggregate(shops: seq<(string, ShopConfig)>, ext: Externals): Result<seq<Record>, string>
  {
    if shops == [] then Success([])
    else
      var before :- Aggregate(shops[..|shops| - 1], ext);
      var these :- ShopRecords(shops[|shops| - 1].1, ext);
      Success(before + these)
  }

  /** Python's `os.path.join(a, b)` on POSIX. */
  function JoinPath(a: string, b: string): (r: string)
    ensures IsSuffix(b, r)
  {
    if |b| > 0 && b[0] == '/' then b
    else if a == [] || a[|a| - 1] == '/' then a + b
    else a + "/" + b
  }

  /** `get_result_filename()` for the day `d`. */
  function ResultPath(dir: string, d: Date): string
    requires ValidDate(d)
  {
    JoinPath(dir, ResultName(d))
  }

  /** A result file `save_results` writes. */
  datatype SavedFile = SavedFile(path: string, records: seq<Record>)

  /** What `run` returns, and the file it writes, if any. */
  datatype RunOutcome = RunOutcome(message: string, saved: Option<SavedFile>)

  const SkipMessage: string := "Aggregation skipped: Results for today already exist."

  /**
   * `run()`. The clock is read twice: `checkDate` when looking for today's file,
   * `saveDate` when saving; `existing` is the set of paths that exist.
   */
  function RunSpec(shops: seq<(string, ShopConfig)>, dir: string, checkDate: Date, saveDate: Date,
                   existing: set<string>, ext: Externals): RunOutcome
    requires ValidDate(checkDate) && ValidDate(saveDate)
  {
    if ResultPath(dir, checkDate) in existing then RunOutcome(SkipMessage, None)
    else
      match Aggregate(shops, ext)
      case Failure(e) => RunOutcome("Critical failure: " + e, None)
      case Success(all) =>
        RunOutcome("Completed: " + NatToString(|all|) + " items aggregated",
                   Some(SavedFile(ResultPath(dir, saveDate), all)))
  }

  // ---------------------------------------------------------------- the class

  class Aggregator {
    /** The shops in the order of the configuration file. */
    const config: seq<(string, ShopConfig)>
    const resultsDir: string

    constructor (config: seq<(string, ShopConfig)>, resultsDir: string)
      ensures this.config == config && this.resultsDir == resultsDir
    {
      this.config := config;
      this.resultsDir := resultsDir;
    }

    function ResultFilename(today: Date): (path: string)
      requires ValidDate(today)
      ensures path == ResultPath(resultsDir, today)
      ensures IsSuffix(ResultName(today), path)
    {
      JoinPath(resultsDir, ResultName(today))
    }

    predicate CheckExistingResult(today: Date, existing: set<string>)
      requires ValidDate(today)
    {
      ResultFilename(today) in existing
    }

    method ParseSubpage(url: string, shop: ShopConfig, ext: Externals) returns (details: Result<Record, string>)
      ensures details == SubpageOutcome(url, shop, ext)
    {
      var html := FetchPage(ext, url);
      if html.Failure? {
        return Failure(html.error);
      }
      var page := html.value;
      var d: Record := [];
      var validContent := false;
      var i := 0;
      while i < |shop.subpage|
        invariant 0 <= i <= |shop.subpage|
        invariant d == SubpageFields(page, shop.subpage, i)
        invariant validContent == AnyText(page, shop.subpage[..i])
      {
        AnyTextStep(page, shop.subpage, i);
        var attr := shop.subpage[i].0;
        var selector := shop.subpage[i].1;
        if HasText(page, selector) {
          d := Put(d, attr, Str(page.selectOne[selector].text));
          validContent := true;
        } else {
          d := Put(d, attr, Null);
        }
        i := i + 1;
      }
      assert shop.subpage[..i] == shop.subpage;
      if validContent {
        d := Put(d, "url", Str(url));
      }
      return Success(d);
    }

    /** The body of the `try` in the catalog loop, for one container. */
    method ProcessContainer(container: Container, shop: ShopConfig, ext: Externals) returns (outcome: Outcome)
      ensures outcome == ContainerOutcome(container, shop, ext)
    {
      var productData: Record := [("shop", Str(shop.shopName))];
      var j := 0;
      while j < |shop.mainpage|
        invariant 0 <= j <= |shop.mainpage|
        invariant MainpageFields(container, shop, j, ext) == Success(productData)
      {
        var (attr, selector) := shop.mainpage[j];
        if selector in container {
          var element := container[selector];
          if attr == "image" && element.src.Some? && element.src.value != "" {
            var joined := ext.join(shop.baseUrl, element.src.value);
            if joined.Failure? {
              MainpageFailureStays(container, shop, j + 1, |shop.mainpage|, ext);
              return Raised(joined.error);
            }
            productData := Put(productData, attr, Str(joined.value));
          } else {
            productData := Put(productData, attr, Str(element.text));
          }
        }
        j := j + 1;
      }

      var link := SubpageLink(container, shop, ext);
      if link.Failure? {
        return Raised(link.error);
      }
      if link.value.Some? {
        var details := ParseSubpage(link.value.value, shop, ext);
        if details.Success? {
          productData := Put(productData, "details", Obj(details.value));
        } else {
          productData := Put(productData, "details", Obj(SubpageError));
        }
      }

      var name := UsableName(productData);
      if name.Failure? {
        return Raised(name.error);
      }
      if name.value.None? || Excluded(name.value.value, shop.excluded, ext.upper) {
        return Skipped;
      }
      return Kept(productData);
    }

    method ParseMainPage(page: Page, shop: ShopConfig, ext: Externals) returns (results: seq<Record>)
      ensures results == MainPageRecords(page, shop, ext)
    {
      var containers := Select(page, shop.catalog);
      if |containers| == 0 {
        return [];
      }
      results := [];
      var i := 0;
      while i < |containers|
        invariant 0 <= i <= |containers|
        invariant results == CollectRecords(containers[..i], shop, ext)
      {
        var outcome := ProcessContainer(containers[i], shop, ext);
        CollectStep(containers, i, shop, ext);
        if outcome.Kept? {
          results := results + [outcome.record];
        }
        i := i + 1;
      }
      assert containers[..i] == containers;
    }

    method Run(checkDate: Date, saveDate: Date, existing: set<string>, ext: Externals) returns (outcome: RunOutcome)
      requires ValidDate(checkDate) && ValidDate(saveDate)
      ensures outcome == RunSpec(config, resultsDir, checkDate, saveDate, existing, ext)
    {
      if CheckExistingResult(checkDate, existing) {
        return RunOutcome(SkipMessage, None);
      }
      var allResults: seq<Record> := [];
      var i := 0;
      while i < |config|
        invariant 0 <= i <= |config|
        invariant Aggregate(config[..i], ext) == Success(allResults)
      {
        assert config[..i + 1][..i] == config[..i];
        var html := FetchPage(ext, config[i].1.baseUrl);
        if html.Failure? {
          AggregateFailsFrom(config, i + 1, ext);
          return RunOutcome("Critical failure: " + html.error, None);
        }
        var shopResults := ParseMainPage(html.value, config[i].1, ext);
        allResults := allResults + shopResults;
        i := i + 1;
      }
      assert config[..i] == config;
      return RunOutcome("Completed: " + NatToString(|allResults|) + " items aggregated",
                        Some(SavedFile(ResultFilename(saveDate), allResults)));
    }
  }

  // ---------------------------------------------------------------- record assembly

  /** Each container contributes on its own: the records of two runs of containers concatenate. */
  lemma {:induction false} CollectAppend(a: seq<Container>, b: seq<Container>, shop: ShopConfig, ext: Externals)
    ensures CollectRecords(a + b, shop, ext) == CollectRecords(a, shop, ext) + CollectRecords(b, shop, ext)
    decreases |b|
  {
    if b == [] {
      assert a + b == a;
    } else {
      var init := b[..|b| - 1];
      assert (a + b)[..|a + b| - 1] == a + init;
      assert (a + b)[|a + b| - 1] == b[|b| - 1];
      CollectAppend(a, init, shop, ext);
    }
  }

  /** One container contributes its record if it is kept, and nothing otherwise. */
  lemma CollectStep(cs: seq<Container>, i: nat, shop: ShopConfig, ext: Externals)
    requires i < |cs|
    ensures CollectRecords(cs[..i + 1], shop, ext) ==
            CollectRecords(cs[..i], shop, ext) + KeptRecords(ContainerOutcome(cs[i], shop, ext))
  {
    assert cs[..i + 1][..i] == cs[..i];
  }

  lemma CollectOne(c: Container, shop: ShopConfig, ext: Externals)
    ensures CollectRecords([c], shop, ext) == KeptRecords(ContainerOutcome(c, shop, ext))
  {
    assert [c][..0] == [];
  }

  /** A container that raises is skipped alone: the records before and after it are kept as they are. */
  lemma RaisedSkipsOnlyItself(cs: seq<Container>, i: nat, shop: ShopConfig, ext: Externals)
    requires i < |cs|
    requires ContainerOutcome(cs[i], shop, ext).Raised?
    ensures CollectRecords(cs, shop, ext) == CollectRecords(cs[..i], shop, ext) + CollectRecords(cs[i + 1..], shop, ext)
  {
    assert cs == (cs[..i] + [cs[i]]) + cs[i + 1..];
    CollectAppend(cs[..i] + [cs[i]], cs[i + 1..], shop, ext);
    CollectAppend(cs[..i], [cs[i]], shop, ext);
    CollectOne(cs[i], shop, ext);
  }

  /** A container that is kept contributes exactly its record, in its place. */
  lemma KeptInPlace(cs: seq<Container>, i: nat, shop: ShopConfig, ext: Externals)
    requires i < |cs|
    requires ContainerOutcome(cs[i], shop, ext).Kept?
    ensures CollectRecords(cs, shop, ext) ==
            CollectRecords(cs[..i], shop, ext) + [ContainerOutcome(cs[i], shop, ext).record] + CollectRecords(cs[i + 1..], shop, ext)
  {
    assert cs == (cs[..i] + [cs[i]]) + cs[i + 1..];
    CollectAppend(cs[..i] + [cs[i]], cs[i + 1..], shop, ext);
    CollectAppend(cs[..i], [cs[i]], shop, ext);
    CollectOne(cs[i], shop, ext);
  }

  /** Building `product_data` never touches a key that no mainpage attribute names. */
  lemma {:induction false} MainpageOtherKeys(c: Container, shop: ShopConfig, n: nat, ext: Externals, k: string)
    requires n <= |shop.mainpage|
    requires MainpageFields(c, shop, n, ext).Success?
    requires forall j :: 0 <= j < n ==> shop.mainpage[j].0 != k
    ensures Get(MainpageFields(c, shop, n, ext).value, k) == Get([("shop", Str(shop.shopName))], k)
  {
    if n > 0 {
      MainpageOtherKeys(c, shop, n - 1, ext, k);
    }
  }

  /**
   * Each mainpage attribute ends up as `AttributeValue` says: the joined URL for an
   * `image` with a `src`, the text otherwise, and nothing new when its selector
   * matches nothing.
   */
  lemma {:induction false} MainpageAttribute(c: Container, shop: ShopConfig, n: nat, ext: Externals, i: nat)
    requires i < n <= |shop.mainpage|
    requires DistinctKeys(shop.mainpage)
    requires MainpageFields(c, shop, n, ext).Success?
    ensures var (attr, selector) := shop.mainpage[i];
            var v := AttributeValue(c, attr, selector, shop.baseUrl, ext);
            Get(MainpageFields(c, shop, n, ext).value, attr) ==
              if v.Some? then v else Get([("shop", Str(shop.shopName))], attr)
  {
    if i == n - 1 {
      if shop.mainpage[i].1 !in c {
        MainpageOtherKeys(c, shop, n - 1, ext, shop.mainpage[i].0);
      }
    } else {
      MainpageAttribute(c, shop, n - 1, ext, i);
    }
  }

  /** Attaching `details` changes no other key. */
  lemma WithDetailsOtherKeys(fields: Record, link: Option<string>, shop: ShopConfig, ext: Externals, k: string)
    requires k != "details"
    ensures Get(WithDetails(fields, link, shop, ext), k) == Get(fields, k)
  {
  }

  /**
   * What a kept record carries: `shop` is the configured shop name (unless a mainpage
   * attribute is itself called `shop`), its effective name is non-blank, and no
   * excluded keyword occurs in that name.
   */
  lemma KeptRecord(c: Container, shop: ShopConfig, ext: Externals, r: Record)
    requires ContainerOutcome(c, shop, ext) == Kept(r)
    ensures "shop" !in Keys(shop.mainpage) ==> Get(r, "shop") == Some(Str(shop.shopName))
    ensures UsableName(r).Success? && UsableName(r).value.Some?
    ensures Strip(UsableName(r).value.value) != []
    ensures !Excluded(UsableName(r).value.value, shop.excluded, ext.upper)
  {
    var fields := MainpageFields(c, shop, |shop.mainpage|, ext).value;
    var link := SubpageLink(c, shop, ext).value;
    if "shop" !in Keys(shop.mainpage) {
      MainpageOtherKeys(c, shop, |shop.mainpage|, ext, "shop");
      WithDetailsOtherKeys(fields, link, shop, ext, "shop");
    }
  }

  /** A kept record holds each mainpage attribute other than `details` as `AttributeValue` says. */
  lemma KeptAttribute(c: Container, shop: ShopConfig, ext: Externals, r: Record, i: nat)
    requires ContainerOutcome(c, shop, ext) == Kept(r)
    requires DistinctKeys(shop.mainpage)
    requires i < |shop.mainpage| && shop.mainpage[i].0 != "details"
    ensures var (attr, selector) := shop.mainpage[i];
            var v := AttributeValue(c, attr, selector, shop.baseUrl, ext);
            Get(r, attr) == if v.Some? then v else Get([("shop", Str(shop.shopName))], attr)
  {
    var fields := MainpageFields(c, shop, |shop.mainpage|, ext).value;
    var link := SubpageLink(c, shop, ext).value;
    MainpageAttribute(c, shop, |shop.mainpage|, ext, i);
    WithDetailsOtherKeys(fields, link, shop, ext, shop.mainpage[i].0);
  }

  /** The subpage URL: scheme, host and fragment as `urlsplit` found them, path and query encoded. */
  lemma SubpageLinkEncoded(c: Container, shop: ShopConfig, ext: Externals)
    requires SubpageLink(c, shop, ext).Success? && SubpageLink(c, shop, ext).value.Some?
    ensures exists raw, parts ::
              ext.join(shop.baseUrl, c[shop.linkToSubpage].href.value) == Success(raw) &&
              ext.split(raw) == Success(parts) &&
              SubpageLink(c, shop, ext).value.value == ext.unsplit(EncodeParts(parts))
  {
    var raw := ext.join(shop.baseUrl, c[shop.linkToSubpage].href.value).value;
    var parts := ext.split(raw).value;
    assert ext.split(raw) == Success(parts);
  }

  /** A container without a link element, or whose link has no `href`, gets no `details`. */
  lemma NoLinkNoDetails(c: Container, shop: ShopConfig, ext: Externals)
    requires shop.linkToSubpage !in c || c[shop.linkToSubpage].href.None? || c[shop.linkToSubpage].href.value == ""
    ensures SubpageLink(c, shop, ext) == Success(None)
    ensures forall fields :: WithDetails(fields, None, shop, ext) == fields
  {
  }

  // ---------------------------------------------------------------- subpage details

  /** One entry per subpage attribute, in attribute order, holding what `parse_subpage` stores. */
  function SubpageEntries(page: Page, attrs: seq<(string, string)>): (d: Record)
    ensures |d| == |attrs|
  {
    seq(|attrs|, j requires 0 <= j < |attrs| => (attrs[j].0, SubpageValue(page, attrs[j].1)))
  }

  /** With distinct attribute names the loop builds exactly those entries. */
  lemma {:induction false} SubpageFieldsEntries(page: Page, attrs: seq<(string, string)>, n: nat)
    requires n <= |attrs|
    requires DistinctKeys(attrs)
    ensures SubpageFields(page, attrs, n) == SubpageEntries(page, attrs[..n])
  {
    if n > 0 {
      SubpageFieldsEntries(page, attrs, n - 1);
      var prev := SubpageEntries(page, attrs[..n - 1]);
      var entry := (attrs[n - 1].0, SubpageValue(page, attrs[n - 1].1));
      assert SubpageFields(page, attrs, n) == Put(prev, entry.0, entry.1);
      forall j | 0 <= j < |prev|
        ensures prev[j].0 != entry.0
      {
        assert prev[j].0 == attrs[j].0;
      }
      PutAppends(prev, entry.0, entry.1);
      var whole := SubpageEntries(page, attrs[..n]);
      assert |whole| == |prev + [entry]|;
      forall j | 0 <= j < |whole|
        ensures whole[j] == (prev + [entry])[j]
      {
        if j < n - 1 {
          assert whole[j] == (attrs[j].0, SubpageValue(page, attrs[j].1)) == prev[j];
        }
      }
    }
  }

  /** Each subpage attribute holds its text, or `None` when it has none. */
  lemma {:induction false} SubpageFieldsValue(page: Page, attrs: seq<(string, string)>, n: nat, i: nat)
    requires i < n <= |attrs|
    requires DistinctKeys(attrs)
    ensures Get(SubpageFields(page, attrs, n), attrs[i].0) == Some(SubpageValue(page, attrs[i].1))
  {
    var prev := SubpageFields(page, attrs, n - 1);
    assert SubpageFields(page, attrs, n) == Put(prev, attrs[n - 1].0, SubpageValue(page, attrs[n - 1].1));
    if i < n - 1 {
      SubpageFieldsValue(page, attrs, n - 1, i);
      assert attrs[i].0 != attrs[n - 1].0;
    }
  }

  /** Without any text every stored value is `None`. */
  lemma {:induction false} SubpageFieldsAllNull(page: Page, attrs: seq<(string, string)>, n: nat, k: string)
    requires n <= |attrs|
    requires !AnyText(page, attrs)
    requires Get(SubpageFields(page, attrs, n), k).Some?
    ensures Get(SubpageFields(page, attrs, n), k) == Some(Null)
  {
    if attrs[n - 1].0 != k {
      SubpageFieldsAllNull(page, attrs, n - 1, k);
    }
  }

  /** `details["url"]` is the fetched URL exactly when some attribute found text. */
  lemma SubpageUrlTracked(page: Page, attrs: seq<(string, string)>, url: string)
    ensures Get(SubpageDetails(page, attrs, url), "url") == Some(Str(url)) <==> AnyText(page, attrs)
  {
    if !AnyText(page, attrs) && Get(SubpageDetails(page, attrs, url), "url").Some? {
      SubpageFieldsAllNull(page, attrs, |attrs|, "url");
    }
  }

  /**
   * The whole of `details` when no subpage attribute is called `url`: one entry per
   * attribute in order, then `url` exactly when some attribute found text.
   */
  lemma SubpageDetailsShape(page: Page, attrs: seq<(string, string)>, url: string)
    requires DistinctKeys(attrs)
    requires "url" !in Keys(attrs)
    ensures SubpageDetails(page, attrs, url) ==
            SubpageEntries(page, attrs) + if AnyText(page, attrs) then [("url", Str(url))] else []
  {
    SubpageFieldsEntries(page, attrs, |attrs|);
    assert attrs[..|attrs|] == attrs;
    var d := SubpageEntries(page, attrs);
    if AnyText(page, attrs) {
      assert forall j :: 0 <= j < |d| ==> d[j].0 == Keys(attrs)[j];
      PutAppends(d, "url", Str(url));
    } else {
      assert d + [] == d;
    }
  }

  /** A failed subpage fetch leaves exactly the error marker in `details`, and the item goes on to filtering. */
  lemma SubpageFailureMarked(fields: Record, url: string, shop: ShopConfig, ext: Externals)
    requires ext.fetch(url).Failure?
    ensures SubpageOutcome(url, shop, ext) == Failure("Network error: " + ext.fetch(url).error)
    ensures Get(WithDetails(fields, Some(url), shop, ext), "details") == Some(Obj(SubpageError))
  {
  }

  // ---------------------------------------------------------------- names and keywords

  /** The effective name: the top-level `name` when truthy, otherwise `details.name` when truthy. */
  lemma EffectiveNameFallback(r: Record)
    ensures Get(r, "name").Some? && PyTruthy(Get(r, "name").value) ==> EffectiveName(r) == Success(Get(r, "name"))
    ensures !(Get(r, "name").Some? && PyTruthy(Get(r, "name").value)) && Get(r, "details").Some? && Get(r, "details").value.Obj? ==>
              var inner := Get(Get(r, "details").value.fields, "name");
              EffectiveName(r) == Success(if inner.Some? && PyTruthy(inner.value) then inner else None)
  {
  }

  /** The empty keyword occurs in every name. */
  lemma EmptyKeywordExcludes(name: string, keywords: seq<string>, upper: char -> char)
    requires "" in keywords
    ensures Excluded(name, keywords, upper)
  {
    var i :| 0 <= i < |keywords| && keywords[i] == "";
    EmptyContained(MapChars(name, upper));
    assert MapChars(keywords[i], upper) == "";
  }

  /** No container is kept when `""` is an excluded keyword. */
  lemma NothingKeptWithEmptyKeyword(c: Container, shop: ShopConfig, ext: Externals)
    requires "" in shop.excluded
    ensures !ContainerOutcome(c, shop, ext).Kept?
  {
    var m := MainpageFields(c, shop, |shop.mainpage|, ext);
    var l := SubpageLink(c, shop, ext);
    if m.Success? && l.Success? {
      var u := UsableName(WithDetails(m.value, l.value, shop, ext));
      if u.Success? && u.value.Some? {
        EmptyKeywordExcludes(u.value.value, shop.excluded, ext.upper);
      }
    }
  }

  /** With an empty keyword configured, a catalog page yields no records at all. */
  lemma EmptyKeywordEmptiesPage(page: Page, shop: ShopConfig, ext: Externals)
    requires "" in shop.excluded
    ensures MainPageRecords(page, shop, ext) == []
  {
    var rs := MainPageRecords(page, shop, ext);
    if rs != [] {
      var c :| c in Select(page, shop.catalog) && ContainerOutcome(c, shop, ext) == Kept(rs[0]);
      NothingKeptWithEmptyKeyword(c, shop, ext);
    }
  }

  // ---------------------------------------------------------------- the run

  /** The first failure of two, else both record lists concatenated. */
  function ThenConcat(x: Result<seq<Record>, string>, y: Result<seq<Record>, string>): Result<seq<Record>, string>
  {
    if x.Failure? then x else if y.Failure? then y else Success(x.value + y.value)
  }

  /** Shop results are concatenated in configuration order; the first escaping exception wins. */
  lemma {:induction false} AggregateAppend(a: seq<(string, ShopConfig)>, b: seq<(string, ShopConfig)>, ext: Externals)
    ensures Aggregate(a + b, ext) == ThenConcat(Aggregate(a, ext), Aggregate(b, ext))
    decreases |b|
  {
    if b == [] {
      assert a + b == a;
      if Aggregate(a, ext).Success? {
        assert Aggregate(a, ext).value + [] == Aggregate(a, ext).value;
      }
    } else {
      var init := b[..|b| - 1];
      var last := b[|b| - 1].1;
      assert (a + b)[..|a + b| - 1] == a + init;
      assert (a + b)[|a + b| - 1] == b[|b| - 1];
      AggregateAppend(a, init, ext);
      var left := Aggregate(a, ext);
      var mid := Aggregate(init, ext);
      var these := ShopRecords(last, ext);
      assert Aggregate(b, ext) == ThenConcat(mid, these);
      assert Aggregate(a + b, ext) == ThenConcat(ThenConcat(left, mid), these);
      if left.Success? && mid.Success? && these.Success? {
        assert (left.value + mid.value) + these.value == left.value + (mid.value + these.value);
      }
    }
  }

  /** One shop contributes its catalog's records. */
  lemma AggregateOne(name: string, shop: ShopConfig, ext: Externals)
    ensures Aggregate([(name, shop)], ext) == ShopRecords(shop, ext)
  {
    assert [(name, shop)][..0] == [];
    if ShopRecords(shop, ext).Success? {
      assert [] + ShopRecords(shop, ext).value == ShopRecords(shop, ext).value;
    }
  }

  /** When today's file exists the run reports the skip, saves nothing, and fetches nothing. */
  lemma RunSkipsWhenDone(shops: seq<(string, ShopConfig)>, dir: string, checkDate: Date, saveDate: Date,
                         existing: set<string>, ext: Externals, other: Externals)
    requires ValidDate(checkDate) && ValidDate(saveDate)
    requires ResultPath(dir, checkDate) in existing
    ensures RunSpec(shops, dir, checkDate, saveDate, existing, ext) == RunOutcome(SkipMessage, None)
    ensures RunSpec(shops, dir, checkDate, saveDate, existing, ext) == RunSpec(shops, dir, checkDate, saveDate, existing, other)
  {
  }

  /** A file is saved exactly when the run is not skipped and no exception escapes; it holds all records. */
  lemma RunSaves(shops: seq<(string, ShopConfig)>, dir: string, checkDate: Date, saveDate: Date,
                 existing: set<string>, ext: Externals)
    requires ValidDate(checkDate) && ValidDate(saveDate)
    ensures var o := RunSpec(shops, dir, checkDate, saveDate, existing, ext);
            o.saved.Some? <==> ResultPath(dir, checkDate) !in existing && Aggregate(shops, ext).Success?
    ensures var o := RunSpec(shops, dir, checkDate, saveDate, existing, ext);
            o.saved.Some? ==> o.saved.value == SavedFile(ResultPath(dir, saveDate), Aggregate(shops, ext).value)
  {
  }

  /** An escaping exception is reported as a critical failure with its message. */
  lemma RunCriticalFailure(shops: seq<(string, ShopConfig)>, dir: string, checkDate: Date, saveDate: Date,
                           existing: set<string>, ext: Externals)
    requires ValidDate(checkDate) && ValidDate(saveDate)
    requires ResultPath(dir, checkDate) !in existing && Aggregate(shops, ext).Failure?
    ensures RunSpec(shops, dir, checkDate, saveDate, existing, ext) ==
            RunOutcome("Critical failure: " + Aggregate(shops, ext).error, None)
  {
  }

  /** A completed run reports the number of saved records in decimal. */
  lemma RunReportsCount(shops: seq<(string, ShopConfig)>, dir: string, checkDate: Date, saveDate: Date,
                        existing: set<string>, ext: Externals)
    requires ValidDate(checkDate) && ValidDate(saveDate)
    requires RunSpec(shops, dir, checkDate, saveDate, existing, ext).saved.Some?
    ensures var o := RunSpec(shops, dir, checkDate, saveDate, existing, ext);
            exists count: string ::
              o.message == "Completed: " + count + " items aggregated" &&
              |count| > 0 && (forall k :: 0 <= k < |count| ==> IsDigit(count[k])) &&
              DigitsValue(count) == |o.saved.value.records|
  {
    var n := |Aggregate(shops, ext).value|;
    DecimalRoundTrip(n);
    var count := NatToString(n);
    assert RunSpec(shops, dir, checkDate, saveDate, existing, ext).message == "Completed: " + count + " items aggregated";
  }

  /** After a run that saved on day `d`, every later run checking on day `d` is skipped. */
  lemma RunOncePerDay(shops: seq<(string, ShopConfig)>, dir: string, checkDate: Date, saveDate: Date,
                      existing: set<string>, ext: Externals,
                      later: seq<(string, ShopConfig)>, laterSave: Date, laterExt: Externals)
    requires ValidDate(checkDate) && ValidDate(saveDate) && ValidDate(laterSave)
    requires RunSpec(shops, dir, checkDate, saveDate, existing, ext).saved.Some?
    ensures var f := RunSpec(shops, dir, checkDate, saveDate, existing, ext).saved.value;
            RunSpec(later, dir, saveDate, laterSave, existing + {f.path}, laterExt) == RunOutcome(SkipMessage, None)
  {
  }

  /** Once building `product_data` raises, later attributes do not change the error. */
  lemma {:induction false} MainpageFailureStays(c: Container, shop: ShopConfig, n: nat, m: nat, ext: Externals)
    requires n <= m <= |shop.mainpage|
    requires MainpageFields(c, shop, n, ext).Failure?
    ensures MainpageFields(c, shop, m, ext) == MainpageFields(c, shop, n, ext)
    decreases m
  {
    if m > n {
      MainpageFailureStays(c, shop, n, m - 1, ext);
    }
  }

  /** Once a shop's catalog fetch fails, the run fails with that message whatever follows. */
  lemma {:induction false} AggregateFailsFrom(shops: seq<(string, ShopConfig)>, n: nat, ext: Externals)
    requires 0 < n <= |shops|
    requires Aggregate(shops[..n - 1], ext).Success?
    requires FetchPage(ext, shops[n - 1].1.baseUrl).Failure?
    ensures Aggregate(shops, ext) == Failure(FetchPage(ext, shops[n - 1].1.baseUrl).error)
  {
    if n == |shops| {
      assert shops[..|shops| - 1] == shops[..n - 1];
    } else {
      var init := shops[..|shops| - 1];
      assert init[..n - 1] == shops[..n - 1];
      AggregateFailsFrom(init, n, ext);
    }
  }
}
