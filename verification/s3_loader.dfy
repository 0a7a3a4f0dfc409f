/**
 * The S3-compatible loader (`s3CompatibleLoader`): option defaults, the
 * markdown-key filter and the derivation of each content item from its object
 * key. The S3 client is abstracted as two functions, one for ListObjectsV2 and
 * one for GetObject followed by the UTF-8 decoding of the body.
 */
module S3Loader {
  import opened Wrappers
  import opened Strings

  /** The loader's options; `None` stands for an option left undefined or null. */
  datatype S3CompatibleLoaderOptions = S3CompatibleLoaderOptions(
    endpoint: string,
    accessKeyId: string,
    secretAccessKey: string,
    region: Option<string>,
    bucket: string,
    prefix: Option<string>,
    forcePathStyle: Option<bool>)

  /** What the S3 client is constructed with. */
  datatype ClientConfig = ClientConfig(
    endpoint: string,
    region: string,
    accessKeyId: string,
    secretAccessKey: string,
    forcePathStyle: bool)

  /** A ListObjectsV2 request. */
  datatype ListRequest = ListRequest(bucket: string, prefix: string)

  /** A GetObject request. */
  datatype GetRequest = GetRequest(bucket: string, key: string)

  /** One entry of a listing; its `Key` may be missing. */
  datatype ListedObject = ListedObject(key: Option<string>)

  /** A listing response; its `Contents` may be missing. */
  datatype ListResult = ListResult(contents: Option<seq<ListedObject>>)

  /** Whatever the client threw; the loader rethrows it unchanged. */
  datatype S3Error = S3Error(message: string)

  /** The item the loader returns for one markdown object. */
  datatype ContentItem = ContentItem(
    id: string,
    slug: string,
    content: string,
    collection: string,
    fileUrl: string)

  /** `options.region || 'auto'`: an undefined, null or empty region becomes `auto`. */
  function RegionOf(o: S3CompatibleLoaderOptions): (r: string)
    ensures r == "auto" <==> o.region.None? || o.region.value == "" || o.region.value == "auto"
    ensures r != "auto" ==> o.region == Some(r)
  {
    if o.region.Some? && o.region.value != "" then o.region.value else "auto"
  }

  /** `options.prefix || ''`: the listing prefix, empty when undefined, null or empty. */
  function ListPrefixOf(o: S3CompatibleLoaderOptions): (p: string)
    ensures p == "" <==> o.prefix.None? || o.prefix.value == ""
    ensures p != "" ==> o.prefix == Some(p)
  {
    if o.prefix.Some? then o.prefix.value else ""
  }

  /** The client configuration: `forcePathStyle ?? true`, the region default and the credentials. */
  function ClientConfigOf(o: S3CompatibleLoaderOptions): (c: ClientConfig)
    ensures c.forcePathStyle <==> o.forcePathStyle != Some(false)
    ensures c.endpoint == o.endpoint && c.region == RegionOf(o)
    ensures c.accessKeyId == o.accessKeyId && c.secretAccessKey == o.secretAccessKey
  {
    ClientConfig(
      o.endpoint,
      RegionOf(o),
      o.accessKeyId,
      o.secretAccessKey,
      if o.forcePathStyle.Some? then o.forcePathStyle.value else true)
  }

  /** The listing request for the configured bucket and prefix. */
  function ListRequestOf(o: S3CompatibleLoaderOptions): ListRequest
  {
    ListRequest(o.bucket, ListPrefixOf(o))
  }

  /** The filter: only keys ending in lower-case `.md` or `.mdx` are loaded. */
  predicate IsMarkdownKey(key: string)
  {
    EndsWith(key, ".md") || EndsWith(key, ".mdx")
  }

  /** The defined keys of a listing that pass the filter, in listing order. */
  function MarkdownKeys(contents: seq<ListedObject>): (keys: seq<string>)
    ensures |keys| <= |contents|
    ensures forall j :: 0 <= j < |keys| ==> IsMarkdownKey(keys[j])
  {
    if contents == [] then []
    else
      var rest := MarkdownKeys(contents[1..]);
      assert contents == [contents[0]] + contents[1..];
      var o := contents[0];
      if o.key.Some? && IsMarkdownKey(o.key.value) then [o.key.value] + rest else rest
  }

  /** A key is loaded iff some listed object has exactly that key and it ends in `.md` or `.mdx`. */
  lemma {:induction false} MarkdownKeysMembership(contents: seq<ListedObject>, k: string)
    ensures k in MarkdownKeys(contents) <==> ListedObject(Some(k)) in contents && IsMarkdownKey(k)
  {
    if contents != [] {
      MarkdownKeysMembership(contents[1..], k);
      assert contents == [contents[0]] + contents[1..];
    }
  }

  /** The filter keeps listing order: it distributes over concatenation of listings. */
  lemma {:induction false} MarkdownKeysAppend(a: seq<ListedObject>, b: seq<ListedObject>)
    ensures MarkdownKeys(a + b) == MarkdownKeys(a) + MarkdownKeys(b)
  {
    if a == [] {
      assert a + b == b;
    } else {
      var ab := a + b;
      assert ab[0] == a[0];
      assert ab[1..] == a[1..] + b;
      MarkdownKeysAppend(a[1..], b);
      var o := a[0];
      if o.key.Some? && IsMarkdownKey(o.key.value) {
        assert MarkdownKeys(ab) == [o.key.value] + MarkdownKeys(a[1..] + b);
        assert MarkdownKeys(a) == [o.key.value] + MarkdownKeys(a[1..]);
      } else {
        assert MarkdownKeys(ab) == MarkdownKeys(a[1..] + b);
        assert MarkdownKeys(a) == MarkdownKeys(a[1..]);
      }
    }
  }

  /** `filename.replace(/\.mdx?$/, '')`: one trailing `.md` or `.mdx` removed. */
  function StripMarkdownExtension(name: string): (r: string)
    ensures EndsWith(name, ".mdx") ==> r + ".mdx" == name
    ensures !EndsWith(name, ".mdx") && EndsWith(name, ".md") ==> r + ".md" == name
    ensures !IsMarkdownKey(name) ==> r == name
  {
    if EndsWith(name, ".mdx") then name[..|name| - 4]
    else if EndsWith(name, ".md") then name[..|name| - 3]
    else name
  }

  /** `key.split('/').pop() || ''`: the last path segment. */
  function FileName(key: string): string
  {
    SplitLast(key, '/')
  }

  /** The slug: the file name without its markdown extension. */
  function Slug(key: string): string
  {
    StripMarkdownExtension(FileName(key))
  }

  /** `key.split('/')[0] || 'default'`: the first path segment, `default` when it is empty. */
  function Collection(key: string): string
  {
    var first := SplitFirst(key, '/');
    if first == "" then "default" else first
  }

  /** `s3://bucket/key` */
  function FileUrl(bucket: string, key: string): string
  {
    "s3://" + bucket + "/" + key
  }

  /** The item built for one fetched object. */
  function MakeItem(bucket: string, key: string, content: string): ContentItem
  {
    ContentItem(key, Slug(key), content, Collection(key), FileUrl(bucket, key))
  }

  /** A suffix that holds no `/` is kept whole by the last path segment. */
  lemma SuffixWithinLastSegment(key: string, name: string, ext: string)
    requires EndsWith(key, name) && (|name| == |key| || key[|key| - |name| - 1] == '/')
    requires EndsWith(key, ext) && '/' !in ext
    ensures EndsWith(name, ext)
  {
    assert name[|name| - |ext|..] == key[|key| - |ext|..];
  }

  /** `ext` is the markdown extension `key` ends in: `.mdx` if it has it, else `.md`. */
  predicate MarkdownExtensionOf(key: string, ext: string)
  {
    (ext == ".mdx" && EndsWith(key, ".mdx")) || (ext == ".md" && EndsWith(key, ".md") && !EndsWith(key, ".mdx"))
  }

  /** A suffix of `key` cannot end in what `key` does not end in. */
  lemma SuffixNotEnding(key: string, name: string, x: string)
    requires EndsWith(key, name) && !EndsWith(key, x) && |x| <= |name|
    ensures !EndsWith(name, x)
  {
    assert key[|key| - |x|..] == name[|name| - |x|..];
  }

  /** Stripping the extension from the last segment of a markdown key. */
  lemma StripLastSegment(key: string, name: string, ext: string)
    requires MarkdownExtensionOf(key, ext)
    requires EndsWith(key, name) && '/' !in name && (|name| == |key| || key[|key| - |name| - 1] == '/')
    ensures '/' !in StripMarkdownExtension(name) && name == StripMarkdownExtension(name) + ext
  {
    var slug := StripMarkdownExtension(name);
    SuffixWithinLastSegment(key, name, ext);
    if ext == ".md" && |name| >= 4 {
      SuffixNotEnding(key, name, ".mdx");
    }
    assert name == slug + ext;
    assert '/' !in slug by {
      forall j | 0 <= j < |slug| ensures slug[j] != '/' {
        assert slug[j] == name[j];
      }
    }
  }

  /**
   * The slug of a markdown key is its last segment without the extension: the key ends with
   * the slug and `.md` or `.mdx`, and what precedes the slug is empty or ends with `/`.
   */
  lemma SlugOfMarkdownKey(key: string, ext: string)
    requires MarkdownExtensionOf(key, ext)
    ensures '/' !in Slug(key) && EndsWith(key, Slug(key) + ext)
    ensures |Slug(key)| + |ext| == |key| || key[|key| - |ext| - |Slug(key)| - 1] == '/'
  {
    LastPart(key, '/');
    var name := FileName(key);
    StripLastSegment(key, name, ext);
    SegmentSuffix(key, name, Slug(key), ext);
  }

  /** A last segment that splits into a slug and an extension gives the key's ending. */
  lemma SegmentSuffix(key: string, name: string, slug: string, ext: string)
    requires EndsWith(key, name) && (|name| == |key| || key[|key| - |name| - 1] == '/')
    requires name == slug + ext
    ensures EndsWith(key, slug + ext)
    ensures |slug| + |ext| == |key| || key[|key| - |ext| - |slug| - 1] == '/'
  {
  }

  /**
   * The collection is the text before the first `/`, and `default` when that text is empty, so a
   * key without any `/` is its own collection.
   */
  lemma CollectionOfKey(key: string)
    ensures key == "" || key[0] == '/' ==> Collection(key) == "default"
    ensures key != "" && key[0] != '/' ==>
              '/' !in Collection(key) && StartsWith(key, Collection(key)) &&
              (|Collection(key)| == |key| || key[|Collection(key)|] == '/')
    ensures '/' !in key && key != "" ==> Collection(key) == key
  {
    FirstPart(key, '/');
    if '/' !in key {
      SplitNoSeparator(key, '/');
    }
  }

  /** Stripping the extension from a file name that is a base name plus `.md` or `.mdx`. */
  lemma StripExtensionOf(base: string, ext: string)
    requires ext == ".md" || ext == ".mdx"
    ensures StripMarkdownExtension(base + ext) == base
  {
    var name := base + ext;
    if ext == ".md" {
      assert name[|name| - 1] == 'd';
      assert !EndsWith(name, ".mdx");
      assert name[..|name| - 3] == base;
    } else {
      assert name[..|name| - 4] == base;
    }
  }

  /**
   * A key `dir/base.md` or `dir/base.mdx` with one `/` gives slug `base`, collection `dir` and
   * file URL `s3://bucket/key`.
   */
  lemma ItemOfDirectoryKey(bucket: string, dir: string, base: string, ext: string, content: string)
    requires dir != "" && '/' !in dir && '/' !in base && (ext == ".md" || ext == ".mdx")
    ensures var key := dir + "/" + base + ext;
      MakeItem(bucket, key, content) == ContentItem(key, base, content, dir, "s3://" + bucket + "/" + key)
  {
    var name := base + ext;
    assert '/' !in name;
    assert dir + "/" + base + ext == dir + ['/'] + name;
    SplitAtSeparator(dir, name, '/');
    SplitNoSeparator(name, '/');
    StripExtensionOf(base, ext);
  }

  /**
   * Fetching every filtered key (the `Promise.all` over the GetObject calls, modelled sequentially).
   * It succeeds iff every fetch succeeds, and then yields one item per key, in order.
   */
  function FetchItems(cfg: ClientConfig, bucket: string, keys: seq<string>,
                      get: (ClientConfig, GetRequest) -> Result<string, S3Error>): (r: Result<seq<ContentItem>, S3Error>)
    ensures r.Success? <==> forall j :: 0 <= j < |keys| ==> get(cfg, GetRequest(bucket, keys[j])).Success?
    ensures r.Success? ==>
              |r.value| == |keys| &&
              forall j :: 0 <= j < |keys| ==>
                r.value[j] == MakeItem(bucket, keys[j], get(cfg, GetRequest(bucket, keys[j])).value)
  {
    if keys == [] then Success([])
    else
      var rest := FetchItems(cfg, bucket, keys[1..], get);
      TailIndex(keys);
      match get(cfg, GetRequest(bucket, keys[0]))
      case Failure(e) => Failure(e)
      case Success(content) =>
        if rest.Failure? then
          Failure(rest.error)
        else
          var all := [MakeItem(bucket, keys[0], content)] + rest.value;
          ConsIndex(MakeItem(bucket, keys[0], content), rest.value);
          Success(all)
  }

  /** The elements of a sequence after its head are those of its tail. */
  lemma TailIndex<T>(xs: seq<T>)
    requires xs != []
    ensures forall j :: 0 < j < |xs| ==> xs[j] == xs[1..][j - 1]
  {
  }

  /** The elements of `[x] + xs` after the first are those of `xs`. */
  lemma ConsIndex<T>(x: T, xs: seq<T>)
    ensures forall j :: 0 < j < |xs| + 1 ==> ([x] + xs)[j] == xs[j - 1]
  {
  }

  /** The keys the loader fetches for a successful listing. */
  function ListedMarkdownKeys(listing: ListResult): seq<string>
  {
    MarkdownKeys(if listing.contents.Some? then listing.contents.value else [])
  }

  /**
   * `s3CompatibleLoader`: list the bucket, filter to markdown keys, fetch each. A failed listing or
   * any failed fetch is rethrown, and no partial result is returned.
   */
  function LoadContentItems(o: S3CompatibleLoaderOptions,
                            list: (ClientConfig, ListRequest) -> Result<ListResult, S3Error>,
                            get: (ClientConfig, GetRequest) -> Result<string, S3Error>): (r: Result<seq<ContentItem>, S3Error>)
    ensures list(ClientConfigOf(o), ListRequestOf(o)).Failure? ==>
              r == Failure(list(ClientConfigOf(o), ListRequestOf(o)).error)
    ensures list(ClientConfigOf(o), ListRequestOf(o)).Success? ==>
              var keys := ListedMarkdownKeys(list(ClientConfigOf(o), ListRequestOf(o)).value);
              (r.Success? <==> forall j :: 0 <= j < |keys| ==> get(ClientConfigOf(o), GetRequest(o.bucket, keys[j])).Success?)
    ensures r.Success? ==>
              var keys := ListedMarkdownKeys(list(ClientConfigOf(o), ListRequestOf(o)).value);
              |r.value| == |keys| &&
              forall j :: 0 <= j < |keys| ==>
                r.value[j].id == keys[j] && IsMarkdownKey(r.value[j].id) &&
                get(ClientConfigOf(o), GetRequest(o.bucket, keys[j])).Success? &&
                r.value[j].content == get(ClientConfigOf(o), GetRequest(o.bucket, keys[j])).value &&
                r.value[j].slug == Slug(keys[j]) && r.value[j].collection == Collection(keys[j]) &&
                r.value[j].fileUrl == "s3://" + o.bucket + "/" + keys[j]
  {
    var cfg := ClientConfigOf(o);
    match list(cfg, ListRequestOf(o))
    case Failure(e) => Failure(e)
    case Success(listing) => FetchItems(cfg, o.bucket, ListedMarkdownKeys(listing), get)
  }

  /** A listing of only non-markdown keys (say `readme.txt` or `A.MD`) loads no item. */
  lemma NonMarkdownListingLoadsNothing(o: S3CompatibleLoaderOptions,
                                       list: (ClientConfig, ListRequest) -> Result<ListResult, S3Error>,
                                       get: (ClientConfig, GetRequest) -> Result<string, S3Error>)
    requires list(ClientConfigOf(o), ListRequestOf(o)) == Success(ListResult(Some([ListedObject(Some("readme.txt")), ListedObject(Some("A.MD")), ListedObject(None)])))
    ensures LoadContentItems(o, list, get) == Success([])
  {
    var contents := [ListedObject(Some("readme.txt")), ListedObject(Some("A.MD")), ListedObject(None)];
    assert !IsMarkdownKey("readme.txt") by { assert "readme.txt"[7..] != ".md"; assert "readme.txt"[6..] != ".mdx"; }
    assert !IsMarkdownKey("A.MD") by { assert "A.MD"[1..] != ".md"; assert "A.MD"[0..] != ".mdx"; }
    assert MarkdownKeys(contents) == [];
  }
}
