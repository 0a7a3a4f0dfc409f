# Content loaders for S3-compatible storage and NotCMS, modelled in Dafny

This project models the core of two content loaders for the Astro site generator.

- **The S3-compatible loader** lists a bucket and keeps the keys that end in `.md` or `.mdx`. It
  fetches each object and derives a content item from the key: `id`, `slug`, `collection` and
  `fileUrl`.
- **Its image-reference rewriter** (`replaceLocalImagesWithS3`) runs two global
  regular-expression replacements over markdown.
  - The first rewrites standard images `![alt](path)` whose path is not absolute.
  - The second runs over the output of the first. It rewrites Obsidian-style embeds
    `![[path.ext]]` that carry an image extension into `![](url)`.
  - In both passes the image URL is `endpoint/bucket/[prefix/]cleanPath`, where `cleanPath` is the
    path with one leading `./` removed.
- **The NotCMS loader's `load`** validates its options and builds the pages endpoint. It fetches
  the page list, clears the content store, and sets one entry per page that has an id, with the
  slug falling back to the id.

Modules, one per source file, plus two shared ones:

- `Wrappers`: `Option`, `Result` and `Outcome`.
- `Strings`: the JavaScript string operations used: `startsWith`, `endsWith`, `split` and the
  pattern `.`'s line terminators.
- `S3Loader` (`s3_loader.dfy`): `loader.ts`. The S3 client's ListObjectsV2 call is a function
  parameter. So is GetObject together with the decoding of the body. Everything else is pure
  functions.
- `ImageRewrite` (`image_rewrite.dfy`): `replace-local-image-with-s3.ts`.
  - The two regular expressions become explicit matchers. They follow the backtracking order of
    JavaScript's engine: a lazy `.*?` that tries each end position in turn, a negative lookahead,
    a greedy `[^)]+`, and alternatives tried left to right.
  - `String.prototype.replace` with the `g` flag becomes `Scan`. `Scan` cuts the text into
    literal characters and matches, resuming after each match. `Render` then replaces each match
    with the callback's result.
- `NotCms` (`notcms_loader.dfy`): `notcms-loader/src/index.ts`.
  - The HTTP request and `parseData` are function parameters.
  - The content store is the class `DataStore` with a map field.
  - `Load` is a method with the same `for … continue` loop as the source. It is proved against
    the function `Populate`, and the properties of the loop are lemmas about `Populate`.

Two behaviours of the code are easy to misread, and the model follows the code in both:

- **`collection`.** `key.split('/')[0] || 'default'` makes a key without `/` its own collection
  (`S3Loader.CollectionOfKey`). `default` appears only for an empty key or one starting with `/`.
- **Absolute paths in embeds.** The embed pattern has no protocol check, so `![[//a.png]]` is
  rewritten (`ImageRewrite.EmbedRewritesAbsolutePath`). Only the standard pattern's lookahead
  keeps absolute paths as they are.

## Model

| member | source | states |
|---|---|---|
| Strings.SplitJoin | packages/s3-compatible-loader/src/loader.ts:63 | joining the parts of `split('/')` with `/` gives back the key |
| Strings.JoinSplit | packages/s3-compatible-loader/src/loader.ts:63 | splitting the join of separator-free parts gives back those parts |
| Strings.SplitPartsSeparatorFree | packages/s3-compatible-loader/src/loader.ts:63 | no part of a split contains the separator |
| Strings.SplitNoSeparator | packages/s3-compatible-loader/src/loader.ts:71 | a string without the separator splits into itself alone |
| Strings.SplitAtSeparator | packages/s3-compatible-loader/src/loader.ts:71 | splitting `a/b` with `a` free of `/` gives `a` followed by the parts of `b` |
| Strings.Split | packages/s3-compatible-loader/src/loader.ts:63 | `split` with a one-character separator: the maximal separator-free runs in order, at least one part; its meaning is stated by `SplitJoin`, `JoinSplit`, `SplitPartsSeparatorFree`, `FirstPart` and `LastPart` |
| Strings.FirstPart | packages/s3-compatible-loader/src/loader.ts:71 | `split(sep)[0]` is the longest separator-free prefix: a prefix, without the separator, followed by the separator or the end |
| Strings.LastPart | packages/s3-compatible-loader/src/loader.ts:63 | `split(sep).pop()` is the longest separator-free suffix: a suffix, without the separator, preceded by the separator or the start |
| S3Loader.RegionOf | packages/s3-compatible-loader/src/loader.ts:27 | the region is `auto` exactly when the option is undefined, null, empty or `auto`; otherwise it is the option |
| S3Loader.ListPrefixOf | packages/s3-compatible-loader/src/loader.ts:38 | the listing prefix is empty exactly when the option is undefined, null or empty; otherwise it is the option |
| S3Loader.ClientConfigOf | packages/s3-compatible-loader/src/loader.ts:25-33 | path-style addressing is on unless the option is explicitly `false`; the endpoint and credentials are passed through; the region default applies |
| S3Loader.ListRequestOf | packages/s3-compatible-loader/src/loader.ts:36-39 | the listing asks for the configured bucket with the prefix default of `ListPrefixOf` |
| S3Loader.MarkdownKeys | packages/s3-compatible-loader/src/loader.ts:46-48 | the filter keeps no more entries than listed, and only keys ending in `.md` or `.mdx` |
| S3Loader.IsMarkdownKey | packages/s3-compatible-loader/src/loader.ts:47 | the filter test: the key ends in lower-case `.md` or `.mdx`; `MarkdownKeysMembership` states what it keeps |
| S3Loader.ListedMarkdownKeys | packages/s3-compatible-loader/src/loader.ts:43-48 | an absent `Contents` is the empty listing, then the filter applies; `LoadContentItems` states the result per key |
| S3Loader.MarkdownKeysMembership | packages/s3-compatible-loader/src/loader.ts:46-48 | a key is kept iff a listed object has exactly that key and the key ends in lower-case `.md` or `.mdx` |
| S3Loader.MarkdownKeysAppend | packages/s3-compatible-loader/src/loader.ts:46-48 | filtering keeps listing order: it distributes over concatenation of listings |
| S3Loader.NonMarkdownListingLoadsNothing | packages/s3-compatible-loader/src/loader.ts:46-48 | a listing of `readme.txt`, `A.MD` and an object without a key loads no item |
| S3Loader.StripMarkdownExtension | packages/s3-compatible-loader/src/loader.ts:64 | `replace(/\.mdx?$/, '')` removes one trailing `.mdx`, else one trailing `.md`, and leaves any other name unchanged |
| S3Loader.StripExtensionOf | packages/s3-compatible-loader/src/loader.ts:64 | a base name followed by `.md` or `.mdx` loses exactly that extension |
| S3Loader.FileName | packages/s3-compatible-loader/src/loader.ts:63 | the last segment, `key.split('/').pop()` or the empty string; `Strings.LastPart` states it is the longest `/`-free suffix |
| S3Loader.SuffixNotEnding | packages/s3-compatible-loader/src/loader.ts:64 | a file name that ends the key cannot end in `.mdx` when the key does not, so `.md` is the extension removed |
| S3Loader.StripLastSegment | packages/s3-compatible-loader/src/loader.ts:63-64 | for the extension `.mdx` or `.md` that the key ends in, the last segment is the stripped name plus that extension, and the stripped name has no `/` |
| S3Loader.SlugOfMarkdownKey | packages/s3-compatible-loader/src/loader.ts:63-64 | for the extension `.mdx` or `.md` that the key ends in, the slug has no `/`, the key ends with the slug plus that extension, and the slug is preceded by `/` or by nothing |
| S3Loader.Slug | packages/s3-compatible-loader/src/loader.ts:63-64 | the file name with its markdown extension stripped; `SlugOfMarkdownKey` states what it is for every loaded key |
| S3Loader.CollectionOfKey | packages/s3-compatible-loader/src/loader.ts:71 | the collection is `default` for an empty key or one starting with `/`; otherwise it is the text before the first `/`; a key without `/` is its own collection |
| S3Loader.Collection | packages/s3-compatible-loader/src/loader.ts:71 | the first segment, `default` when it is empty; `CollectionOfKey` states it for every key |
| S3Loader.FileUrl | packages/s3-compatible-loader/src/loader.ts:70 | the file URL `s3://bucket/key` |
| S3Loader.MakeItem | packages/s3-compatible-loader/src/loader.ts:66-72 | the item for one key and body: id the key, its slug, the body, its collection and its file URL; `ItemOfDirectoryKey` and `LoadContentItems` state it |
| S3Loader.ItemOfDirectoryKey | packages/s3-compatible-loader/src/loader.ts:66-72 | `dir/base.md` (or `.mdx`) gives id the key, slug `base`, collection `dir` and file URL `s3://bucket/key` |
| S3Loader.FetchItems | packages/s3-compatible-loader/src/loader.ts:51-74 | fetching succeeds iff every fetch succeeds, and then yields one item per key, in order, built from that key and its fetched body |
| S3Loader.LoadContentItems | packages/s3-compatible-loader/src/loader.ts:36-80 | a failed listing is rethrown; otherwise the load succeeds iff every filtered key's fetch succeeds; a success holds exactly one item per filtered key, in listing order, with `id` the key, the fetched content, its slug, collection and `s3://bucket/key` |
| ImageRewrite.CleanPath | packages/s3-compatible-loader/src/utils/replace-local-image-with-s3.ts:14 | a path starting with `./` loses exactly those two characters; any other path is unchanged |
| ImageRewrite.PrefixSegment | packages/s3-compatible-loader/src/utils/replace-local-image-with-s3.ts:17 | the prefix segment is empty exactly when the prefix is absent or empty, and is the prefix followed by `/` otherwise |
| ImageRewrite.ImageUrl | packages/s3-compatible-loader/src/utils/replace-local-image-with-s3.ts:17-18 | the URL built from the options and a clean path; `ImageUrlShape` states its two forms |
| ImageRewrite.ImageUrlShape | packages/s3-compatible-loader/src/utils/replace-local-image-with-s3.ts:17-18 | the URL is `endpoint/bucket/cleanPath` for an absent or empty prefix, and `endpoint/bucket/prefix/cleanPath` otherwise |
| ImageRewrite.RunEnd | packages/s3-compatible-loader/src/utils/replace-local-image-with-s3.ts:8 | the greedy `[^)]` run ends at the first `)` or at the end of the text |
| ImageRewrite.StandardTail | packages/s3-compatible-loader/src/utils/replace-local-image-with-s3.ts:8 | the pattern after the alt text, `\]\(`, the lookahead, `[^)]+` and `\)`, tried at one position; `StandardTailIff` states exactly when it matches |
| ImageRewrite.StandardTailIff | packages/s3-compatible-loader/src/utils/replace-local-image-with-s3.ts:8 | the part of the pattern after the alt text matches at `a`, ending at `q`, iff `](` is at `a`, a non-empty non-absolute path without `)` follows, and `)` is at `q` |
| ImageRewrite.LazyAlt | packages/s3-compatible-loader/src/utils/replace-local-image-with-s3.ts:8 | a found alt end is reached over non-line-terminators and the rest of the pattern matches there |
| ImageRewrite.LazyAltStopsBy | packages/s3-compatible-loader/src/utils/replace-local-image-with-s3.ts:8 | the lazy `(.*?)` stops at or before any alt end where the rest of the pattern matches |
| ImageRewrite.LazyAltFirst | packages/s3-compatible-loader/src/utils/replace-local-image-with-s3.ts:8 | the lazy `(.*?)` returns exactly the first alt end, in order, where the rest of the pattern matches |
| ImageRewrite.MatchStandardAt | packages/s3-compatible-loader/src/utils/replace-local-image-with-s3.ts:8 | a standard match at `i` has the shape `![alt](path)` and captures exactly the alt text and the path |
| ImageRewrite.StandardMatchIsLazy | packages/s3-compatible-loader/src/utils/replace-local-image-with-s3.ts:8 | wherever a standard image shape starts at `i`, the pattern matches there, with an alt text no longer than that shape's |
| ImageRewrite.StandardMatchOfSearch | packages/s3-compatible-loader/src/utils/replace-local-image-with-s3.ts:8 | the standard match at `i` captures the alt text and path that the lazy alt search after `![` delimits, and resumes after the `)` |
| ImageRewrite.AbsorbingAltEnd | packages/s3-compatible-loader/src/utils/replace-local-image-with-s3.ts:8 | in `![](//)![](c)` the lazy alt skips the `](` whose path is absolute |
| ImageRewrite.AbsorbingMatch | packages/s3-compatible-loader/src/utils/replace-local-image-with-s3.ts:8 | the match in `![](//)![](c)` captures alt `](//)![` and path `c` |
| ImageRewrite.LazyAltAbsorbsAbsoluteImage | packages/s3-compatible-loader/src/utils/replace-local-image-with-s3.ts:8-25 | the standard pass turns `![](//)![](c)` into `![](//)![](url of c)` |
| ImageRewrite.ExtensionAt | packages/s3-compatible-loader/src/utils/replace-local-image-with-s3.ts:28 | the extensions jpg, jpeg, png, gif, svg and webp are tried in that order; the first one that is followed by `]]` is chosen, and none is chosen iff none fits |
| ImageRewrite.ExtensionsAreLetters | packages/s3-compatible-loader/src/utils/replace-local-image-with-s3.ts:28 | every extension character is a lower-case ASCII letter, so a `]` can never be part of one |
| ImageRewrite.LazyEmbedPath | packages/s3-compatible-loader/src/utils/replace-local-image-with-s3.ts:28 | a found dot is reached over non-line-terminators and the extension and `]]` match there |
| ImageRewrite.EmbedTail | packages/s3-compatible-loader/src/utils/replace-local-image-with-s3.ts:28 | the pattern after the lazy run, `\.`, the extensions in order and `\]\]`, tried at one dot; `EmbedTailShape` states what a match there means |
| ImageRewrite.EmbedTailShape | packages/s3-compatible-loader/src/utils/replace-local-image-with-s3.ts:28 | where the embed tail matches, the captured path ends in an image extension, has no line terminator, and is followed by `]]` |
| ImageRewrite.MatchEmbedAt | packages/s3-compatible-loader/src/utils/replace-local-image-with-s3.ts:28 | an embed match at `i` has the shape `![[path.ext]]` and captures exactly the path |
| ImageRewrite.LazyEmbedStopsBy | packages/s3-compatible-loader/src/utils/replace-local-image-with-s3.ts:28 | the lazy `.*?` stops at or before any dot where the extension and `]]` match |
| ImageRewrite.EmbedMatchIsShortest | packages/s3-compatible-loader/src/utils/replace-local-image-with-s3.ts:28 | wherever an embed shape starts at `i`, the pattern matches there and ends no later than that shape |
| ImageRewrite.EmbedMatchOfSearch | packages/s3-compatible-loader/src/utils/replace-local-image-with-s3.ts:28 | the embed match at `i` captures the text from `![[` to the end of the extension the lazy dot search finds, and resumes after `]]` |
| ImageRewrite.UpperCaseExtension | packages/s3-compatible-loader/src/utils/replace-local-image-with-s3.ts:28 | after `a.` in `![[a.PNG]]` the alternatives `jpg` and `jpeg` fail and `png` matches `PNG` |
| ImageRewrite.EmbedIgnoresCase | packages/s3-compatible-loader/src/utils/replace-local-image-with-s3.ts:28 | `![[a.PNG]]` matches whole: the `i` flag folds the extension's letter case |
| ImageRewrite.EmbedRewrittenIgnoringCase | packages/s3-compatible-loader/src/utils/replace-local-image-with-s3.ts:30-38 | the embed pass turns `![[a.PNG]]` into `![](url of a.PNG)`, with empty alt text |
| ImageRewrite.EmbedMatchesAbsolutePath | packages/s3-compatible-loader/src/utils/replace-local-image-with-s3.ts:28 | `![[//a.png]]` matches: the embed pattern has no protocol check |
| ImageRewrite.EmbedRewritesAbsolutePath | packages/s3-compatible-loader/src/utils/replace-local-image-with-s3.ts:30-38 | the embed pass rewrites `![[//a.png]]` to `![](url of //a.png)` |
| ImageRewrite.MatchAt | packages/s3-compatible-loader/src/utils/replace-local-image-with-s3.ts:8 | a match at `i` spans exactly the text of its captured piece, and the piece is one that pattern accepts |
| ImageRewrite.Step | packages/s3-compatible-loader/src/utils/replace-local-image-with-s3.ts:10 | one scan step consumes a match where the pattern matches, and exactly one literal character where it does not |
| ImageRewrite.Scan | packages/s3-compatible-loader/src/utils/replace-local-image-with-s3.ts:10 | the global scan cuts the text into pieces that concatenate back to the text, each one its pattern accepts |
| ImageRewrite.ScanPiecesEligible | packages/s3-compatible-loader/src/utils/replace-local-image-with-s3.ts:8 | every captured standard image has a non-empty, non-absolute path without `)`; every captured embed ends in an image extension |
| ImageRewrite.WholeTextMatch | packages/s3-compatible-loader/src/utils/replace-local-image-with-s3.ts:10 | a text that is one match becomes that match's replacement |
| ImageRewrite.ScanLiteralUnmatched | packages/s3-compatible-loader/src/utils/replace-local-image-with-s3.ts:10 | where the scan keeps a literal character, that character is the text's and the pattern does not match there |
| ImageRewrite.NoShapeWithoutMatch | packages/s3-compatible-loader/src/utils/replace-local-image-with-s3.ts:8-28 | where the pattern does not match, no image shape of that pass starts there |
| ImageRewrite.ScanLiteralHasNoImage | packages/s3-compatible-loader/src/utils/replace-local-image-with-s3.ts:30 | leftmost, non-overlapping replacement: no image shape starts at a character the scan keeps |
| ImageRewrite.ScanPieceIsStep | packages/s3-compatible-loader/src/utils/replace-local-image-with-s3.ts:10 | piece `j` of the scan, which starts at the text position after the pieces before it, is the piece the step at that position takes |
| ImageRewrite.ScanMatchIsMatchAt | packages/s3-compatible-loader/src/utils/replace-local-image-with-s3.ts:8-10 | every match the global scan takes is the match its pattern finds anchored at that position, and scanning resumes after its text |
| ImageRewrite.StepMatch | packages/s3-compatible-loader/src/utils/replace-local-image-with-s3.ts:10 | a step that takes a match takes the pattern's match at its position, which ends after that match's text |
| ImageRewrite.ScanStandardIsLazy | packages/s3-compatible-loader/src/utils/replace-local-image-with-s3.ts:8-10 | every standard image the global pass takes has the shortest alt text of any standard image shape at its position |
| ImageRewrite.ScanEmbedIsShortest | packages/s3-compatible-loader/src/utils/replace-local-image-with-s3.ts:28-30 | every embed the global pass takes ends no later than any embed shape at its position |
| ImageRewrite.StandardMatchIsRewritten | packages/s3-compatible-loader/src/utils/replace-local-image-with-s3.ts:10-25 | every standard match becomes `![alt](url)` with the alt text verbatim; the `return match` fallback is unreachable |
| ImageRewrite.Replacement | packages/s3-compatible-loader/src/utils/replace-local-image-with-s3.ts:10-25 | the callbacks: a kept character stays, a standard match becomes `![alt](url)` unless its path starts with `http://` or `https://`, an embed becomes `![](url)`; `StandardMatchIsRewritten` states the standard case |
| ImageRewrite.Render | packages/s3-compatible-loader/src/utils/replace-local-image-with-s3.ts:10 | the replaced text is the replacements of the pieces in order |
| ImageRewrite.ReplaceAll | packages/s3-compatible-loader/src/utils/replace-local-image-with-s3.ts:10 | one global replacement: the scan from the start, then the replacements; `WholeTextMatch` and `ReplaceAllWithoutOpener` state it |
| ImageRewrite.ReplaceAllWithoutOpener | packages/s3-compatible-loader/src/utils/replace-local-image-with-s3.ts:10 | a pass over text without `![` keeps every character |
| ImageRewrite.NoImageOpenerUnchanged | packages/s3-compatible-loader/src/utils/replace-local-image-with-s3.ts:6-41 | text without `![` comes out of both passes unchanged |
| ImageRewrite.ReplaceLocalImagesWithS3 | packages/s3-compatible-loader/src/utils/replace-local-image-with-s3.ts:6-41 | the embed pass runs over the output of the standard pass; `NoImageOpenerUnchanged`, `LazyAltAbsorbsAbsoluteImage` and the embed examples state it |
| NotCms.ApiUrl | packages/notcms-loader/src/index.ts:37 | an absent `apiUrl` becomes `https://api.notcms.com`; a given one is kept, even if empty |
| NotCms.HasRequiredOptions | packages/notcms-loader/src/index.ts:39 | the check that `workspaceId`, `databaseId` and `apiKey` are all non-empty; `Load` states what follows when it fails |
| NotCms.Endpoint | packages/notcms-loader/src/index.ts:44 | the pages endpoint `apiUrl/v1/ws/workspaceId/db/databaseId/pages`; `DefaultEndpoint` states it without `apiUrl` |
| NotCms.Message | packages/notcms-loader/src/index.ts:41-116 | the texts of the two thrown errors |
| NotCms.PagesRequest | packages/notcms-loader/src/index.ts:51-56 | the request goes to the endpoint with the header `Authorization: Bearer apiKey` |
| NotCms.DefaultEndpoint | packages/notcms-loader/src/index.ts:37-44 | without `apiUrl` the endpoint is `https://api.notcms.com/v1/ws/<workspace>/db/<database>/pages` |
| NotCms.WithSlug | packages/notcms-loader/src/index.ts:71-77 | the page keeps every field but `slug`, which is kept when non-empty and becomes the id otherwise |
| NotCms.WithSlugProperties | packages/notcms-loader/src/index.ts:71 | a page with an id always gets a non-empty slug, and the fallback is idempotent |
| NotCms.PageIdsCons | packages/notcms-loader/src/index.ts:64-69 | the non-empty ids of a page list are those of its head and of its tail |
| NotCms.Populate | packages/notcms-loader/src/index.ts:64-95 | the loop as a function of the table before it: skip pages without an id, stop at the first failing parse, set the others; its lemmas below state what it computes |
| NotCms.PopulateOkIffAllParse | packages/notcms-loader/src/index.ts:64-95 | the loop runs to the end iff `parseData` succeeds on every page that has an id |
| NotCms.PopulateKeys | packages/notcms-loader/src/index.ts:64-95 | after a complete loop, the keys are those before it plus the non-empty page ids |
| NotCms.PopulateWellKeyed | packages/notcms-loader/src/index.ts:86-94 | every entry stays stored under its own id with empty `rendered.html`, even when the loop stops early |
| NotCms.PopulateLastWins | packages/notcms-loader/src/index.ts:86-94 | after a complete loop, the last page with a given id is the stored one: its parsed data with the slug fallback |
| NotCms.PopulateKeeps | packages/notcms-loader/src/index.ts:86-94 | an entry whose key no page carries is left as it was |
| NotCms.PopulateStopsAtFailure | packages/notcms-loader/src/index.ts:80-83 | when `parseData` first throws at page `f`, the table holds exactly what the pages before `f` set |
| NotCms.DataStore.Clear | packages/notcms-loader/src/index.ts:61 | `store.clear()` empties the table |
| NotCms.DataStore.Set | packages/notcms-loader/src/index.ts:86-94 | `store.set` stores the entry under its id, replacing any entry with that id, and changes nothing else |
| NotCms.Load | packages/notcms-loader/src/index.ts:36-117 | a missing required option fails with the configuration error before any request, leaving the store; a failed fetch fails with the generic error before the clear, leaving the store; otherwise the store becomes the loop's table over the fetched pages from empty, and the load passes iff the loop ran to the end |
| NotCms.LoadedStore | packages/notcms-loader/src/index.ts:61-95 | after a successful load, the store's keys are exactly the non-empty page ids, and each entry is stored under its own id with empty `rendered.html` |

## Left out

- The S3 client, its credentials and request signing are not modelled. ListObjectsV2 and GetObject are function parameters that return a result or an error. `ClientConfig` records only what the client is constructed with.
- `streamToString` (`packages/s3-compatible-loader/src/utils.ts`) is event-driven stream plumbing plus UTF-8 decoding. It is folded into the GetObject parameter, which returns the decoded text.
- `renderToString` (`packages/s3-compatible-loader/src/render.ts`) wraps a markdown renderer. It is not part of this model.
- LoadContentItems: `Promise.all` runs the fetches concurrently and rejects with whichever failure happens first in time. The model fetches in key order and returns the first failing key's error. Success, and the items on success, do not depend on this choice.
- `console.log`, `console.error` and every `logger` call, including reading an HTTP error's response body only to log it, have no effect on results and are not modelled.
- The `ky` HTTP request and its JSON decoding are one function parameter that returns the page list or fails. A response whose `data` is missing or null throws at `response.data.length` before the store is cleared, which is that parameter's failure.
- Load: a response whose `data` is present but not an array is not modelled. For an object or a number, `.length` is undefined rather than a throw, so the store is cleared and then the `for … of` throws, leaving an empty store and the generic error. For a string, the loop visits its characters, none of which has an `id`, so the load passes with an empty store.
- `parseData` is a function parameter that returns the parsed page or an error. It is not awaited concurrently with anything, so ordering is preserved.
- The Astro content store is modelled only by its entries table, with `clear` and `set`. Digests, deferred rendering and the other store features are not part of this model.
- NotCms.Page: the page's fields beyond `id`, `slug`, `title` and `content` are a map from names to strings. JSON values of other types are not modelled.
- NotCms.Page: a falsy `id` or `slug` (undefined, null or empty) is modelled as the empty string. Non-string ids, such as the number `0`, are not modelled.
- NotCms.ApiUrl: an `apiUrl` of `null` is not modelled. The destructuring default would not apply to it, and the source would build the URL from the text `null`.
- The demo configuration, the demo server and the test-runner configuration are configuration only.
