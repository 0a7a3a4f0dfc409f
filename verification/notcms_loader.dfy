/**
 * `notcmsLoader().load`: validate the options, fetch the page list of one NotCMS database, then
 * clear the content store and set one entry per page that has an id.
 *
 * The HTTP request and `parseData` are parameters; the content store is a class whose only state
 * is its table of entries.
 */
module NotCms {
  import opened Wrappers

  /** `NotCMSLoaderOptions`; an absent `apiUrl` is `None`. */
  datatype NotCmsLoaderOptions = NotCmsLoaderOptions(
    workspaceId: string, databaseId: string, apiKey: string, apiUrl: Option<string>)

  /**
   * `NotCMSPage`: the named fields, and the remaining fields of the API record. A falsy `id` or
   * `slug` (absent or empty) is the empty string.
   */
  datatype Page = Page(id: string, slug: string, title: string, content: string, extra: map<string, string>)

  /** `StoredData`: the store id, the parsed page and `rendered.html`. */
  datatype StoredData = StoredData(id: string, data: Page, html: string)

  /** The request the loader sends: URL and the two headers. */
  datatype Request = Request(url: string, authorization: string, contentType: string)

  /** The two errors `load` throws. */
  datatype LoadError = ConfigurationError | LoadFailed

  /** The message of each error. */
  function Message(e: LoadError): string
  {
    match e
    case ConfigurationError => "NotCMS Loader configuration error."
    case LoadFailed => "Failed to load data from NotCMS."
  }

  const DefaultApiUrl: string := "https://api.notcms.com"

  // ---------------------------------------------------------------------------
  // Options and request

  /**
   * The destructuring default `apiUrl = 'https://api.notcms.com'`: it applies only when the
   * option is absent, so an empty `apiUrl` is kept.
   */
  function ApiUrl(o: NotCmsLoaderOptions): (r: string)
    ensures o.apiUrl.None? ==> r == DefaultApiUrl
    ensures o.apiUrl.Some? ==> r == o.apiUrl.value
  {
    if o.apiUrl.Some? then o.apiUrl.value else DefaultApiUrl
  }

  /** `workspaceId`, `databaseId` and `apiKey` are all truthy. */
  predicate HasRequiredOptions(o: NotCmsLoaderOptions)
  {
    o.workspaceId != "" && o.databaseId != "" && o.apiKey != ""
  }

  /** `${apiUrl}/v1/ws/${workspaceId}/db/${databaseId}/pages` */
  function Endpoint(o: NotCmsLoaderOptions): string
  {
    ApiUrl(o) + "/v1/ws/" + o.workspaceId + "/db/" + o.databaseId + "/pages"
  }

  /** The GET request for the page list, with the bearer token. */
  function PagesRequest(o: NotCmsLoaderOptions): (r: Request)
    ensures r.url == Endpoint(o) && r.authorization == "Bearer " + o.apiKey
  {
    Request(Endpoint(o), "Bearer " + o.apiKey, "application/json")
  }

  /** With no `apiUrl`, the endpoint is on `https://api.notcms.com`. */
  lemma DefaultEndpoint(o: NotCmsLoaderOptions)
    requires o.apiUrl.None?
    ensures Endpoint(o) == "https://api.notcms.com/v1/ws/" + o.workspaceId + "/db/" + o.databaseId + "/pages"
  {
  }

  // ---------------------------------------------------------------------------
  // One page

  /** `{ ...page, slug: page.slug || page.id }` */
  function WithSlug(p: Page): (r: Page)
    ensures r.id == p.id && r.title == p.title && r.content == p.content && r.extra == p.extra
    ensures p.slug != "" ==> r.slug == p.slug
    ensures p.slug == "" ==> r.slug == p.id
  {
    p.(slug := if p.slug != "" then p.slug else p.id)
  }

  /** A page that is stored (it has an id) always gets a slug, and the fallback is idempotent. */
  lemma WithSlugProperties(p: Page)
    ensures p.id != "" ==> WithSlug(p).slug != ""
    ensures WithSlug(WithSlug(p)) == WithSlug(p)
  {
  }

  /** What `parseData` is asked to parse for a page, and what it returns. */
  type Parser = (string, Page) -> Result<Page, string>

  /** `parseData` succeeds on the page at this position, or the page is skipped. */
  predicate ParsesOrSkipped(p: Page, parse: Parser)
  {
    p.id == "" || parse(p.id, WithSlug(p)).Success?
  }

  /** The entry stored for a page with an id whose parse succeeded. */
  function Entry(p: Page, parse: Parser): StoredData
    requires p.id != "" && parse(p.id, WithSlug(p)).Success?
  {
    StoredData(p.id, parse(p.id, WithSlug(p)).value, "")
  }

  // ---------------------------------------------------------------------------
  // The loop, as a function of the table before it

  /**
   * The `for … of` loop over the pages from table `m`: pages without an id are skipped, the
   * others are parsed and set under their id. Returns the final table and whether the loop ran to
   * the end (`false` when a parse threw, leaving what was set before it).
   */
  function Populate(m: map<string, StoredData>, pages: seq<Page>, parse: Parser): (map<string, StoredData>, bool)
    decreases |pages|
  {
    if pages == [] then (m, true)
    else
      var p := pages[0];
      if p.id == "" then Populate(m, pages[1..], parse)
      else if parse(p.id, WithSlug(p)).Failure? then (m, false)
      else Populate(m[p.id := Entry(p, parse)], pages[1..], parse)
  }

  /** The non-empty ids among the pages. */
  function PageIds(pages: seq<Page>): set<string>
  {
    set j | 0 <= j < |pages| && pages[j].id != "" :: pages[j].id
  }

  /** The ids of a page list are those of its head and of its tail. */
  lemma PageIdsCons(pages: seq<Page>)
    requires pages != []
    ensures PageIds(pages) == (if pages[0].id != "" then {pages[0].id} else {}) + PageIds(pages[1..])
  {
    var head := if pages[0].id != "" then {pages[0].id} else {};
    forall k | k in PageIds(pages) ensures k in head + PageIds(pages[1..]) {
      var j :| 0 <= j < |pages| && pages[j].id != "" && pages[j].id == k;
      if j > 0 {
        assert pages[1..][j - 1] == pages[j];
      }
    }
    forall k | k in PageIds(pages[1..]) ensures k in PageIds(pages) {
      var j :| 0 <= j < |pages[1..]| && pages[1..][j].id != "" && pages[1..][j].id == k;
      assert pages[j + 1] == pages[1..][j];
    }
  }

  /** The loop runs to the end exactly when every page with an id parses. */
  lemma {:induction false} PopulateOkIffAllParse(m: map<string, StoredData>, pages: seq<Page>, parse: Parser)
    ensures Populate(m, pages, parse).1 <==> forall j :: 0 <= j < |pages| ==> ParsesOrSkipped(pages[j], parse)
    decreases |pages|
  {
    if pages != [] {
      var p := pages[0];
      assert forall j :: 0 < j < |pages| ==> pages[j] == pages[1..][j - 1];
      if p.id == "" {
        PopulateOkIffAllParse(m, pages[1..], parse);
      } else if parse(p.id, WithSlug(p)).Success? {
        PopulateOkIffAllParse(m[p.id := Entry(p, parse)], pages[1..], parse);
      }
    }
  }

  /** After a complete loop, the keys are the keys before it and the ids of the pages. */
  lemma {:induction false} PopulateKeys(m: map<string, StoredData>, pages: seq<Page>, parse: Parser)
    requires Populate(m, pages, parse).1
    ensures Populate(m, pages, parse).0.Keys == m.Keys + PageIds(pages)
    decreases |pages|
  {
    if pages != [] {
      PageIdsCons(pages);
      var p := pages[0];
      if p.id == "" {
        PopulateKeys(m, pages[1..], parse);
      } else {
        PopulateKeys(m[p.id := Entry(p, parse)], pages[1..], parse);
      }
    }
  }

  /** Every entry is stored under its own id with empty `rendered.html`. */
  predicate WellKeyed(m: map<string, StoredData>)
  {
    forall k :: k in m ==> m[k].id == k && m[k].html == ""
  }

  /** The loop keeps every entry stored under its own id, whether or not it runs to the end. */
  lemma {:induction false} PopulateWellKeyed(m: map<string, StoredData>, pages: seq<Page>, parse: Parser)
    requires WellKeyed(m)
    ensures WellKeyed(Populate(m, pages, parse).0)
    decreases |pages|
  {
    if pages != [] {
      var p := pages[0];
      if p.id == "" {
        PopulateWellKeyed(m, pages[1..], parse);
      } else if parse(p.id, WithSlug(p)).Success? {
        PopulateWellKeyed(m[p.id := Entry(p, parse)], pages[1..], parse);
      }
    }
  }

  /**
   * After a complete loop, a page with an id that no later page repeats is stored as its parsed
   * page with the slug fallback applied: the last page with a given id wins.
   */
  lemma {:induction false} PopulateLastWins(m: map<string, StoredData>, pages: seq<Page>, parse: Parser, j: nat)
    requires Populate(m, pages, parse).1
    requires j < |pages| && pages[j].id != ""
    requires forall l :: j < l < |pages| ==> pages[l].id != pages[j].id
    ensures ParsesOrSkipped(pages[j], parse)
    ensures pages[j].id in Populate(m, pages, parse).0
    ensures Populate(m, pages, parse).0[pages[j].id] == Entry(pages[j], parse)
    decreases |pages|
  {
    var p := pages[0];
    if j == 0 {
      PopulateKeeps(m[p.id := Entry(p, parse)], pages[1..], parse, p.id);
    } else {
      assert forall l :: j - 1 < l < |pages[1..]| ==> pages[1..][l] == pages[l + 1];
      if p.id == "" {
        PopulateLastWins(m, pages[1..], parse, j - 1);
      } else {
        PopulateLastWins(m[p.id := Entry(p, parse)], pages[1..], parse, j - 1);
      }
    }
  }

  /** A key that no page carries keeps its entry. */
  lemma {:induction false} PopulateKeeps(m: map<string, StoredData>, pages: seq<Page>, parse: Parser, k: string)
    requires k in m && forall l :: 0 <= l < |pages| ==> pages[l].id != k
    ensures k in Populate(m, pages, parse).0 && Populate(m, pages, parse).0[k] == m[k]
    decreases |pages|
  {
    if pages != [] {
      var p := pages[0];
      assert forall l :: 0 <= l < |pages[1..]| ==> pages[1..][l] == pages[l + 1];
      if p.id == "" {
        PopulateKeeps(m, pages[1..], parse, k);
      } else if parse(p.id, WithSlug(p)).Success? {
        PopulateKeeps(m[p.id := Entry(p, parse)], pages[1..], parse, k);
      }
    }
  }

  /**
   * When the parse of page `f` is the first to fail, the loop stops there: the table holds
   * exactly what the pages before `f` set.
   */
  lemma {:induction false} PopulateStopsAtFailure(m: map<string, StoredData>, pages: seq<Page>, parse: Parser, f: nat)
    requires f < |pages| && !ParsesOrSkipped(pages[f], parse)
    requires forall l :: 0 <= l < f ==> ParsesOrSkipped(pages[l], parse)
    ensures !Populate(m, pages, parse).1 && Populate(m, pages[..f], parse).1
    ensures Populate(m, pages, parse).0 == Populate(m, pages[..f], parse).0
    decreases |pages|
  {
    var p := pages[0];
    if f > 0 {
      assert pages[..f][0] == p;
      assert pages[..f][1..] == pages[1..][..f - 1];
      assert forall l :: 0 <= l < f - 1 ==> pages[1..][l] == pages[l + 1];
      if p.id == "" {
        PopulateStopsAtFailure(m, pages[1..], parse, f - 1);
      } else {
        PopulateStopsAtFailure(m[p.id := Entry(p, parse)], pages[1..], parse, f - 1);
      }
    } else {
      assert pages[..0] == [];
    }
  }

  // ---------------------------------------------------------------------------
  // The store and `load`

  /** The loader's content store: a table of entries keyed by id. */
  class DataStore {
    var entries: map<string, StoredData>

    /** An empty store. */
    constructor()
      ensures entries == map[]
    {
      entries := map[];
    }

    /** `store.clear()` */
    method Clear()
      modifies this
      ensures entries == map[]
    {
      entries := map[];
    }

    /** `store.set(entry)`: the entry is stored under its id, replacing any previous one. */
    method Set(entry: StoredData)
      modifies this
      ensures entries == old(entries)[entry.id := entry]
    {
      entries := entries[entry.id := entry];
    }
  }

  /**
   * `load`. A missing required option throws the configuration error before any request, and a
   * failed request (or a response without a page list) throws before the store is cleared; both
   * leave the store as it was. Otherwise the store is cleared and filled by the loop, and a parse
   * that throws ends the load with the generic error, keeping what was set before it.
   */
  method Load(o: NotCmsLoaderOptions, store: DataStore,
              fetch: Request -> Result<seq<Page>, string>, parse: Parser) returns (r: Outcome<LoadError>)
    modifies store
    ensures !HasRequiredOptions(o) ==> r == Fail(ConfigurationError) && store.entries == old(store.entries)
    ensures HasRequiredOptions(o) && fetch(PagesRequest(o)).Failure? ==>
              r == Fail(LoadFailed) && store.entries == old(store.entries)
    ensures HasRequiredOptions(o) && fetch(PagesRequest(o)).Success? ==>
              store.entries == Populate(map[], fetch(PagesRequest(o)).value, parse).0 &&
              (r == Pass <==> Populate(map[], fetch(PagesRequest(o)).value, parse).1) &&
              (r.Fail? ==> r.error == LoadFailed)
  {
    if !HasRequiredOptions(o) {
      return Fail(ConfigurationError);
    }
    var response := fetch(PagesRequest(o));
    if response.Failure? {
      return Fail(LoadFailed);
    }
    var pages := response.value;
    store.Clear();
    for i := 0 to |pages|
      invariant Populate(store.entries, pages[i..], parse) == Populate(map[], pages, parse)
    {
      var page := pages[i];
      assert pages[i..][1..] == pages[i + 1..];
      if page.id == "" {
        continue;
      }
      var parsed := parse(page.id, WithSlug(page));
      if parsed.Failure? {
        return Fail(LoadFailed);
      }
      store.Set(StoredData(page.id, parsed.value, ""));
    }
    return Pass;
  }

  /**
   * After a successful load, the store's keys are exactly the non-empty page ids and every entry
   * is stored under its own id with empty `rendered.html`.
   */
  lemma LoadedStore(pages: seq<Page>, parse: Parser)
    requires Populate(map[], pages, parse).1
    ensures Populate(map[], pages, parse).0.Keys == PageIds(pages)
    ensures WellKeyed(Populate(map[], pages, parse).0)
  {
    PopulateKeys(map[], pages, parse);
    PopulateWellKeyed(map[], pages, parse);
  }
}
