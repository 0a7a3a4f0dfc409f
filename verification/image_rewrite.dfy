/**
 * `replaceLocalImagesWithS3`: two global regular-expression replacements over markdown text.
 *
 * The first rewrites standard images `![alt](path)` whose path is not absolute, the second
 * rewrites bracket embeds `![[path.ext]]` with an image extension, and both point the image at
 * `endpoint/bucket/[prefix/]cleanPath`. The regular expressions are modelled by explicit matchers
 * that follow the backtracking order of JavaScript's engine, and `String.prototype.replace` with
 * the `g` flag by a left-to-right scan that cuts the text into literal characters and matches.
 */
module ImageRewrite {
  import opened Wrappers
  import opened Strings
  import S3Loader

  type Options = S3Loader.S3CompatibleLoaderOptions

  // ---------------------------------------------------------------------------
  // URL construction

  /** `s3Options.prefix ? prefix + '/' : ''` */
  function PrefixSegment(prefix: Option<string>): (r: string)
    ensures r == "" <==> prefix.None? || prefix.value == ""
    ensures r != "" ==> r == prefix.value + "/"
  {
    if prefix.Some? && prefix.value != "" then prefix.value + "/" else ""
  }

  /** `${endpoint}/${bucket}/${prefix}${cleanPath}` */
  function ImageUrl(o: Options, cleanPath: string): string
  {
    o.endpoint + "/" + o.bucket + "/" + PrefixSegment(o.prefix) + cleanPath
  }

  /** One leading `./` removed, if present. */
  function CleanPath(path: string): (r: string)
    ensures StartsWith(path, "./") ==> "./" + r == path
    ensures !StartsWith(path, "./") ==> r == path
  {
    if StartsWith(path, "./") then path[2..] else path
  }

  /** The URL has the endpoint, the bucket, the prefix when it is non-empty, and the clean path. */
  lemma ImageUrlShape(o: Options, cleanPath: string)
    ensures o.prefix.None? || o.prefix.value == "" ==>
              ImageUrl(o, cleanPath) == o.endpoint + "/" + o.bucket + "/" + cleanPath
    ensures o.prefix.Some? && o.prefix.value != "" ==>
              ImageUrl(o, cleanPath) == o.endpoint + "/" + o.bucket + "/" + o.prefix.value + "/" + cleanPath
  {
  }

  // ---------------------------------------------------------------------------
  // Pieces of scanned text

  /** The two image syntaxes, one per regular expression. */
  datatype Syntax = StandardMarkdown | BracketEmbed

  /** A character the scan left alone, or the groups captured by one match. */
  datatype Piece = Literal(c: char) | Standard(alt: string, path: string) | Embed(path: string)

  /** The input text a piece stands for (for a match, the whole matched text). */
  function Span(p: Piece): string
  {
    match p
    case Literal(c) => [c]
    case Standard(alt, path) => "![" + alt + "](" + path + ")"
    case Embed(path) => "![[" + path + "]]"
  }

  /** The text a sequence of pieces stands for. */
  function Unparse(ps: seq<Piece>): string
  {
    if ps == [] then [] else Span(ps[0]) + Unparse(ps[1..])
  }

  /** What the lookahead `(?!https?:\/\/|\/\/)` rejects. */
  predicate AbsoluteUrl(s: string)
  {
    StartsWith(s, "http://") || StartsWith(s, "https://") || StartsWith(s, "//")
  }

  /** No `)` in `s`. */
  predicate NoCloseParen(s: string)
  {
    forall j :: 0 <= j < |s| ==> s[j] != ')'
  }

  /** The alternatives of the embed pattern, in the order the engine tries them. */
  const ImageExtensions: seq<string> := ["jpg", "jpeg", "png", "gif", "svg", "webp"]

  /** `path` ends in `.` followed by `e`, in any letter case. */
  predicate HasExtension(path: string, e: string)
  {
    |e| < |path| && path[|path| - |e| - 1] == '.' && EqualsIgnoreCase(path[|path| - |e|..], e)
  }

  /** `path` ends in one of the image extensions, in any letter case. */
  predicate HasImageExtension(path: string)
  {
    exists k :: 0 <= k < |ImageExtensions| && HasExtension(path, ImageExtensions[k])
  }

  /** Every piece is one the pattern of `syntax` accepts. */
  predicate AllEligible(ps: seq<Piece>, syntax: Syntax)
  {
    ps == [] || (Eligible(ps[0], syntax) && AllEligible(ps[1..], syntax))
  }

  /** What each pattern accepts as its captured groups. */
  predicate Eligible(p: Piece, syntax: Syntax)
  {
    match p
    case Literal(_) => true
    case Standard(alt, path) =>
      syntax == StandardMarkdown && NoLineTerminatorIn(alt, 0, |alt|) &&
      path != "" && NoCloseParen(path) && !AbsoluteUrl(path)
    case Embed(path) =>
      syntax == BracketEmbed && NoLineTerminatorIn(path, 0, |path|) && HasImageExtension(path)
  }

  // ---------------------------------------------------------------------------
  // The standard pattern  /!\[(.*?)\]\(((?!https?:\/\/|\/\/)[^)]+)\)/

  /** The end of the maximal run of non-`)` characters from `p` (the greedy `[^)]*`). */
  function RunEnd(s: string, p: nat): (q: nat)
    requires p <= |s|
    ensures p <= q <= |s|
    ensures forall j :: p <= j < q ==> s[j] != ')'
    ensures q < |s| ==> s[q] == ')'
    decreases |s| - p
  {
    if p == |s| || s[p] == ')' then p else RunEnd(s, p + 1)
  }

  /**
   * `\]\((?!…)[^)]+\)` at `a`: the end of the path when it matches. Backtracking into `[^)]+`
   * cannot help, since only the maximal run can be followed by `)`.
   */
  function StandardTail(s: string, a: nat): Option<nat>
    requires a <= |s|
  {
    if a + 2 <= |s| && s[a] == ']' && s[a + 1] == '(' && !AbsoluteUrl(s[a + 2..]) then
      var q := RunEnd(s, a + 2);
      if a + 2 < q < |s| then Some(q) else None
    else None
  }

  /**
   * The lazy `(.*?)` from `a`: the first alt end `b`, reached over characters other than line
   * terminators, at which the tail matches; returns `b` and the end of the path.
   */
  function LazyAlt(s: string, a: nat): (r: Option<(nat, nat)>)
    requires a <= |s|
    ensures r.Some? ==> a <= r.value.0 <= |s| && NoLineTerminatorIn(s, a, r.value.0) &&
                        StandardTail(s, r.value.0) == Some(r.value.1)
    decreases |s| - a
  {
    match StandardTail(s, a)
    case Some(q) => Some((a, q))
    case None =>
      if a < |s| && !IsLineTerminator(s[a]) then LazyAlt(s, a + 1) else None
  }

  // ---------------------------------------------------------------------------
  // The embed pattern  /!\[\[(.*?\.(?:jpg|jpeg|png|gif|svg|webp))\]\]/i

  /** Extension `e` at `p`, in any letter case, followed by `]]`. */
  predicate ExtensionThenClose(s: string, p: nat, e: string)
  {
    p + |e| + 2 <= |s| && EqualsIgnoreCase(s[p..p + |e|], e) && s[p + |e|] == ']' && s[p + |e| + 1] == ']'
  }

  /** The alternatives from index `k` tried in order at `p`: the index of the first that matches. */
  function ExtensionAt(s: string, p: nat, k: nat): (r: Option<nat>)
    requires k <= |ImageExtensions|
    ensures r.Some? ==> k <= r.value < |ImageExtensions| && ExtensionThenClose(s, p, ImageExtensions[r.value])
    ensures r.None? ==> forall k' :: k <= k' < |ImageExtensions| ==> !ExtensionThenClose(s, p, ImageExtensions[k'])
    decreases |ImageExtensions| - k
  {
    if k == |ImageExtensions| then None
    else if ExtensionThenClose(s, p, ImageExtensions[k]) then Some(k)
    else ExtensionAt(s, p, k + 1)
  }

  /** `\.(?:…)\]\]` at `d`: the end of the captured path when it matches. */
  function EmbedTail(s: string, d: nat): Option<nat>
  {
    if d < |s| && s[d] == '.' then
      match ExtensionAt(s, d + 1, 0)
      case Some(k) => Some(d + 1 + |ImageExtensions[k]|)
      case None => None
    else None
  }

  /**
   * The lazy `.*?` from `a`: the first dot position `d`, reached over characters other than line
   * terminators, at which the tail matches; returns `d` and the end of the path.
   */
  function LazyEmbedPath(s: string, a: nat): (r: Option<(nat, nat)>)
    requires a <= |s|
    ensures r.Some? ==> a <= r.value.0 <= |s| && NoLineTerminatorIn(s, a, r.value.0) &&
                        EmbedTail(s, r.value.0) == Some(r.value.1)
    decreases |s| - a
  {
    match EmbedTail(s, a)
    case Some(e) => Some((a, e))
    case None =>
      if a < |s| && !IsLineTerminator(s[a]) then LazyEmbedPath(s, a + 1) else None
  }

  /** Every character of every image extension is a lower-case ASCII letter. */
  lemma ExtensionsAreLetters()
    ensures forall k, j :: 0 <= k < |ImageExtensions| && 0 <= j < |ImageExtensions[k]| ==>
              'a' <= ImageExtensions[k][j] <= 'z'
  {
    forall k, j | 0 <= k < |ImageExtensions| && 0 <= j < |ImageExtensions[k]|
      ensures 'a' <= ImageExtensions[k][j] <= 'z'
    {
      if k == 0 { assert ImageExtensions[k] == "jpg"; }
      else if k == 1 { assert ImageExtensions[k] == "jpeg"; }
      else if k == 2 { assert ImageExtensions[k] == "png"; }
      else if k == 3 { assert ImageExtensions[k] == "gif"; }
      else if k == 4 { assert ImageExtensions[k] == "svg"; }
      else { assert ImageExtensions[k] == "webp"; }
    }
  }

  // ---------------------------------------------------------------------------
  // What each pattern accepts, stated on positions of the text

  /**
   * The standard pattern can match from `i` with its `](` at `a` and its closing `)` at `q`:
   * `![`, an alt text without line terminators, `](`, a non-empty path without `)` that the
   * lookahead accepts, and `)`.
   */
  predicate StandardShape(s: string, i: nat, a: nat, q: nat)
  {
    i + 2 <= a && a + 2 < q < |s| && s[i] == '!' && s[i + 1] == '[' && NoLineTerminatorIn(s, i + 2, a) &&
    s[a] == ']' && s[a + 1] == '(' && (forall j :: a + 2 <= j < q ==> s[j] != ')') && s[q] == ')' &&
    !AbsoluteUrl(s[a + 2..q])
  }

  /**
   * The embed pattern can match `s[i..end]`: `![[`, a path without line terminators that ends in
   * `.` and an image extension in any letter case, and `]]`.
   */
  predicate EmbedShape(s: string, i: nat, end: nat)
  {
    i + 5 <= end <= |s| && s[i] == '!' && s[i + 1] == '[' && s[i + 2] == '[' &&
    NoLineTerminatorIn(s, i + 3, end - 2) && HasImageExtension(s[i + 3..end - 2]) &&
    s[end - 2] == ']' && s[end - 1] == ']'
  }

  // ---------------------------------------------------------------------------
  // Facts about the tails

  /** A prefix without `)` is seen the same through the path as through the rest of the text. */
  lemma StartsWithBeforeParen(s: string, p: nat, q: nat, pfx: string)
    requires p <= q < |s| && s[q] == ')' && NoCloseParen(pfx)
    ensures StartsWith(s[p..], pfx) <==> StartsWith(s[p..q], pfx)
  {
    if |pfx| <= q - p {
      assert s[p..][..|pfx|] == s[p..q][..|pfx|];
    }
  }

  /** The lookahead, which looks at the rest of the text, judges exactly the captured path. */
  lemma LookaheadOnPath(s: string, p: nat, q: nat)
    requires p <= q < |s| && s[q] == ')'
    ensures AbsoluteUrl(s[p..]) <==> AbsoluteUrl(s[p..q])
  {
    StartsWithBeforeParen(s, p, q, "http://");
    StartsWithBeforeParen(s, p, q, "https://");
    StartsWithBeforeParen(s, p, q, "//");
  }

  /** The greedy run from `p` ends at the first `)`. */
  lemma RunEndAtParen(s: string, p: nat, q: nat)
    requires p <= q < |s| && s[q] == ')'
    requires forall j :: p <= j < q ==> s[j] != ')'
    ensures RunEnd(s, p) == q
  {
  }

  /** The standard tail matches at `a` exactly when the text there is `](path)` with an accepted path. */
  lemma StandardTailIff(s: string, a: nat, q: nat)
    requires a <= |s|
    ensures StandardTail(s, a) == Some(q) <==>
              a + 2 < q < |s| && s[a] == ']' && s[a + 1] == '(' && s[q] == ')' &&
              (forall j :: a + 2 <= j < q ==> s[j] != ')') && !AbsoluteUrl(s[a + 2..q])
  {
    if a + 2 < q < |s| && s[q] == ')' {
      LookaheadOnPath(s, a + 2, q);
      if forall j :: a + 2 <= j < q ==> s[j] != ')' {
        RunEndAtParen(s, a + 2, q);
      }
    }
    if StandardTail(s, a) == Some(q) {
      LookaheadOnPath(s, a + 2, q);
    }
  }

  /** A letter of an extension matched in any case is neither a line terminator nor `]`. */
  lemma ExtensionCharacter(c: char, e: string, j: nat)
    requires e in ImageExtensions && j < |e| && LowerAscii(c) == LowerAscii(e[j])
    ensures !IsLineTerminator(c) && c != ']'
  {
    ExtensionsAreLetters();
  }

  /** After the dot of a matched embed tail, no character is a line terminator or `]`. */
  lemma EmbedTailCharacters(s: string, d: nat, e: nat, x: nat)
    requires EmbedTail(s, d) == Some(e) && d < x < e
    ensures !IsLineTerminator(s[x]) && s[x] != ']'
  {
    var k := ExtensionAt(s, d + 1, 0).value;
    var ext := ImageExtensions[k];
    var j := x - (d + 1);
    assert s[d + 1..d + 1 + |ext|][j] == s[x];
    ExtensionCharacter(s[x], ext, j);
  }

  /** A matched embed tail after a line-terminator-free run completes an embed path. */
  lemma EmbedTailShape(s: string, lo: nat, d: nat, e: nat)
    requires lo <= d <= |s| && NoLineTerminatorIn(s, lo, d) && EmbedTail(s, d) == Some(e)
    ensures d < e && e + 2 <= |s| && s[e] == ']' && s[e + 1] == ']'
    ensures NoLineTerminatorIn(s, lo, e) && HasImageExtension(s[lo..e])
  {
    var k := ExtensionAt(s, d + 1, 0).value;
    DotExtensionShape(s, lo, d, k);
  }

  /** A dot followed by extension `k` and `]]`, after a line-terminator-free run, ends an embed path. */
  lemma DotExtensionShape(s: string, lo: nat, d: nat, k: nat)
    requires lo <= d < |s| && s[d] == '.' && NoLineTerminatorIn(s, lo, d)
    requires k < |ImageExtensions| && ExtensionThenClose(s, d + 1, ImageExtensions[k])
    ensures var e := d + 1 + |ImageExtensions[k]|;
      e + 2 <= |s| && s[e] == ']' && s[e + 1] == ']' &&
      NoLineTerminatorIn(s, lo, e) && HasImageExtension(s[lo..e])
  {
    var ext := ImageExtensions[k];
    var e := d + 1 + |ext|;
    var path := s[lo..e];
    assert HasExtension(path, ext) by {
      assert path[|path| - |ext|..] == s[d + 1..d + 1 + |ext|];
    }
    forall x | d < x < e ensures !IsLineTerminator(s[x]) {
      var j := x - (d + 1);
      assert s[d + 1..d + 1 + |ext|][j] == s[x];
      ExtensionCharacter(s[x], ext, j);
    }
  }

  /** The embed tail matches at the dot of `.ext]]`. */
  lemma EmbedTailAt(s: string, lo: nat, e: nat, k: nat)
    requires lo <= e <= |s| && k < |ImageExtensions| && HasExtension(s[lo..e], ImageExtensions[k])
    requires e + 2 <= |s| && s[e] == ']' && s[e + 1] == ']'
    ensures EmbedTail(s, e - |ImageExtensions[k]| - 1).Some?
  {
    var ext := ImageExtensions[k];
    var path := s[lo..e];
    var d := e - |ext| - 1;
    assert s[d] == path[|path| - |ext| - 1];
    assert s[d + 1..e] == path[|path| - |ext|..];
    assert ExtensionThenClose(s, d + 1, ext);
  }

  /** What the lazy alt search finds after `![` is a standard shape. */
  lemma StandardPathShape(s: string, i: nat, a: nat, q: nat)
    requires i + 2 <= a <= |s| && s[i] == '!' && s[i + 1] == '['
    requires NoLineTerminatorIn(s, i + 2, a) && StandardTail(s, a) == Some(q)
    ensures a < q && StandardShape(s, i, a, q)
  {
    StandardTailIff(s, a, q);
  }

  /** What the lazy embed search finds after `![[` is an embed shape. */
  lemma EmbedPathShape(s: string, i: nat, d: nat, e: nat)
    requires i + 3 <= d <= |s| && s[i] == '!' && s[i + 1] == '[' && s[i + 2] == '['
    requires NoLineTerminatorIn(s, i + 3, d) && EmbedTail(s, d) == Some(e)
    ensures EmbedShape(s, i, e + 2)
  {
    EmbedTailShape(s, i + 3, d, e);
    EmbedShapeIntro(s, i, e, s[i + 3..e]);
  }

  /** The parts of an embed shape whose `]]` is at `e`. */
  lemma EmbedShapeIntro(s: string, i: nat, e: nat, path: string)
    requires i + 3 <= e && e + 2 <= |s| && s[i] == '!' && s[i + 1] == '[' && s[i + 2] == '['
    requires NoLineTerminatorIn(s, i + 3, e) && path == s[i + 3..e] && HasImageExtension(path)
    requires s[e] == ']' && s[e + 1] == ']'
    ensures EmbedShape(s, i, e + 2)
  {
  }

  // ---------------------------------------------------------------------------
  // One match at a position

  /** A match found at a position: the captured piece and where scanning resumes. */
  datatype Match = Match(piece: Piece, end: nat)

  /** The standard pattern anchored at `i`: the first alt end, in lazy order, whose tail matches. */
  function MatchStandardAt(s: string, i: nat): (r: Option<Match>)
    requires i <= |s|
    ensures r.Some? ==> (
              r.value.piece.Standard? &&
              var a, q := i + 2 + |r.value.piece.alt|, r.value.end - 1;
              a < q < |s| && StandardShape(s, i, a, q) &&
              r.value == Match(Standard(s[i + 2..a], s[a + 2..q]), q + 1))
  {
    if i + 2 <= |s| && s[i] == '!' && s[i + 1] == '[' then
      match LazyAlt(s, i + 2)
      case Some((a, q)) =>
        StandardPathShape(s, i, a, q);
        Some(Match(Standard(s[i + 2..a], s[a + 2..q]), q + 1))
      case None => None
    else None
  }

  /** `m` is the embed match of the shape `s[i..m.end]`. */
  predicate EmbedMatchOf(s: string, i: nat, m: Match)
  {
    EmbedShape(s, i, m.end) && m.piece == Embed(s[i + 3..m.end - 2])
  }

  /** The embed pattern anchored at `i`: the first dot, in lazy order, whose tail matches. */
  function MatchEmbedAt(s: string, i: nat): (r: Option<Match>)
    requires i <= |s|
    ensures r.Some? ==> EmbedMatchOf(s, i, r.value)
  {
    if i + 3 <= |s| && s[i] == '!' && s[i + 1] == '[' && s[i + 2] == '[' then
      var found := LazyEmbedPath(s, i + 3);
      if found.Some? then Some(EmbedMatchFrom(s, i, found.value.0, found.value.1)) else None
    else None
  }

  /** The match built from the dot `d` and path end `e` the lazy search found after `![[`. */
  function EmbedMatchFrom(s: string, i: nat, d: nat, e: nat): (m: Match)
    requires i + 3 <= d <= |s| && s[i] == '!' && s[i + 1] == '[' && s[i + 2] == '['
    requires NoLineTerminatorIn(s, i + 3, d) && EmbedTail(s, d) == Some(e)
    ensures EmbedMatchOf(s, i, m)
  {
    EmbedPathShape(s, i, d, e);
    var m := Match(Embed(s[i + 3..e]), e + 2);
    EmbedMatchOfShape(s, i, e, m);
    m
  }

  /** The embed match of a shape ending at `e + 2` captures `s[i + 3..e]`. */
  lemma EmbedMatchOfShape(s: string, i: nat, e: nat, m: Match)
    requires EmbedShape(s, i, e + 2) && m == Match(Embed(s[i + 3..e]), e + 2)
    ensures EmbedMatchOf(s, i, m)
  {
  }

  /** The text a standard shape spans, and the groups it captures. */
  lemma StandardShapeSpan(s: string, i: nat, a: nat, q: nat, m: Match)
    requires StandardShape(s, i, a, q) && m == Match(Standard(s[i + 2..a], s[a + 2..q]), q + 1)
    ensures i < m.end <= |s| && s[i..m.end] == Span(m.piece) && Eligible(m.piece, StandardMarkdown)
  {
    var alt, path := s[i + 2..a], s[a + 2..q];
    assert s[i..i + 2] == "![" && s[a..a + 2] == "](" && s[q..q + 1] == ")";
    assert s[i..a] == s[i..i + 2] + alt;
    assert s[i..a + 2] == s[i..a] + s[a..a + 2];
    assert s[i..q] == s[i..a + 2] + path;
    assert s[i..q + 1] == s[i..q] + s[q..q + 1];
    assert forall j :: 0 <= j < |alt| ==> alt[j] == s[i + 2 + j];
    assert forall j :: 0 <= j < |path| ==> path[j] == s[a + 2 + j];
  }

  /** The text an embed shape spans, and the path it captures. */
  lemma EmbedShapeSpan(s: string, i: nat, end: nat, m: Match)
    requires EmbedShape(s, i, end) && m == Match(Embed(s[i + 3..end - 2]), end)
    ensures i < m.end <= |s| && s[i..m.end] == Span(m.piece) && Eligible(m.piece, BracketEmbed)
  {
    var e := end - 2;
    var path := s[i + 3..e];
    assert s[i..end] == s[i..i + 3] + path + s[e..end];
    assert s[i..i + 3] == "![[" && s[e..end] == "]]";
    assert forall j :: 0 <= j < |path| ==> path[j] == s[i + 3 + j];
  }

  /** A standard match spans exactly the text it was found in, and its piece is eligible. */
  lemma StandardMatchSpan(s: string, i: nat)
    requires i <= |s|
    ensures var r := MatchStandardAt(s, i);
      r.Some? ==> i < r.value.end <= |s| && s[i..r.value.end] == Span(r.value.piece) &&
                  Eligible(r.value.piece, StandardMarkdown)
  {
    var r := MatchStandardAt(s, i);
    if r.Some? {
      StandardShapeSpan(s, i, i + 2 + |r.value.piece.alt|, r.value.end - 1, r.value);
    }
  }

  /** An embed match spans exactly the text it was found in, and its piece is eligible. */
  lemma EmbedMatchSpan(s: string, i: nat)
    requires i <= |s|
    ensures var r := MatchEmbedAt(s, i);
      r.Some? ==> i < r.value.end <= |s| && s[i..r.value.end] == Span(r.value.piece) &&
                  Eligible(r.value.piece, BracketEmbed)
  {
    var r := MatchEmbedAt(s, i);
    if r.Some? {
      EmbedShapeSpan(s, i, r.value.end, r.value);
    }
  }

  /** The pattern of `syntax`, anchored at `i`, in the engine's backtracking order. */
  function MatchAt(s: string, i: nat, syntax: Syntax): (r: Option<Match>)
    requires i <= |s|
    ensures r.Some? ==> i < r.value.end <= |s| && !r.value.piece.Literal? &&
                        s[i..r.value.end] == Span(r.value.piece) && Eligible(r.value.piece, syntax)
  {
    match syntax
    case StandardMarkdown => StandardMatchSpan(s, i); MatchStandardAt(s, i)
    case BracketEmbed => EmbedMatchSpan(s, i); MatchEmbedAt(s, i)
  }

  // ---------------------------------------------------------------------------
  // The global replacement

  /** One step of the scan at `i < |s|`: the match there, or else the character there. */
  function Step(s: string, i: nat, syntax: Syntax): (r: Match)
    requires i < |s|
    ensures i < r.end <= |s| && s[i..r.end] == Span(r.piece) && Eligible(r.piece, syntax)
    ensures r.piece.Literal? <==> MatchAt(s, i, syntax).None?
  {
    match MatchAt(s, i, syntax)
    case Some(m) => m
    case None => Match(Literal(s[i]), i + 1)
  }

  /**
   * `String.prototype.replace` with a global pattern, from position `i`: a match at `i` is taken
   * whole and scanning resumes at its end; otherwise the character at `i` is kept.
   */
  function Scan(s: string, i: nat, syntax: Syntax): (ps: seq<Piece>)
    requires i <= |s|
    ensures Unparse(ps) == s[i..] && AllEligible(ps, syntax)
    decreases |s| - i
  {
    if i == |s| then []
    else
      var m := Step(s, i, syntax);
      var rest := Scan(s, m.end, syntax);
      ConsPiece(s, i, m, rest, syntax);
      [m.piece] + rest
  }

  /** A piece spanning `s[i..m.end]` followed by pieces spanning the rest span `s[i..]`. */
  lemma ConsPiece(s: string, i: nat, m: Match, rest: seq<Piece>, syntax: Syntax)
    requires i < m.end <= |s| && s[i..m.end] == Span(m.piece) && Eligible(m.piece, syntax)
    requires Unparse(rest) == s[m.end..] && AllEligible(rest, syntax)
    ensures Unparse([m.piece] + rest) == s[i..] && AllEligible([m.piece] + rest, syntax)
  {
    UnparseCons(m.piece, rest, syntax);
    SuffixAt(s, i, m.end, Span(m.piece), Unparse(rest));
  }

  /** Unparsing and eligibility of a sequence that starts with `p`. */
  lemma UnparseCons(p: Piece, rest: seq<Piece>, syntax: Syntax)
    ensures Unparse([p] + rest) == Span(p) + Unparse(rest)
    ensures AllEligible([p] + rest, syntax) == (Eligible(p, syntax) && AllEligible(rest, syntax))
  {
    assert ([p] + rest)[1..] == rest;
  }

  /** What the replacement callback of each pattern returns for a piece. */
  function Replacement(p: Piece, o: Options): string
  {
    match p
    case Literal(c) => [c]
    case Standard(alt, path) =>
      if !StartsWith(path, "http://") && !StartsWith(path, "https://") then
        "![" + alt + "](" + ImageUrl(o, CleanPath(path)) + ")"
      else
        Span(p)
    case Embed(path) =>
      "![](" + ImageUrl(o, CleanPath(path)) + ")"
  }

  /** The replaced text: each piece's replacement, in order. */
  function Render(ps: seq<Piece>, o: Options): string
  {
    if ps == [] then [] else Replacement(ps[0], o) + Render(ps[1..], o)
  }

  /** One global replacement pass. */
  function ReplaceAll(s: string, syntax: Syntax, o: Options): string
  {
    Render(Scan(s, 0, syntax), o)
  }

  /** `replaceLocalImagesWithS3`: the embed pass runs over the output of the standard pass. */
  function ReplaceLocalImagesWithS3(content: string, o: Options): string
  {
    ReplaceAll(ReplaceAll(content, StandardMarkdown, o), BracketEmbed, o)
  }

  // ---------------------------------------------------------------------------
  // Properties

  /**
   * The callback's fallback `return match` is unreachable: the lookahead already rejected every
   * absolute path, so each standard match becomes `![alt](url)` with the alt text kept verbatim.
   */
  lemma StandardMatchIsRewritten(p: Piece, o: Options)
    requires p.Standard? && Eligible(p, StandardMarkdown)
    ensures Replacement(p, o) == "![" + p.alt + "](" + ImageUrl(o, CleanPath(p.path)) + ")"
  {
  }

  /** The lazy search for the alt end stops at or before any alt end where the tail matches. */
  lemma {:induction false} LazyAltStopsBy(s: string, a: nat, b: nat, q: nat)
    requires a <= b <= |s| && NoLineTerminatorIn(s, a, b) && StandardTail(s, b) == Some(q)
    ensures LazyAlt(s, a).Some? && LazyAlt(s, a).value.0 <= b
    ensures LazyAlt(s, a).value.0 == b ==> LazyAlt(s, a).value.1 == q
    decreases b - a
  {
    if StandardTail(s, a).None? {
      LazyAltStopsBy(s, a + 1, b, q);
    }
  }

  /**
   * Lazy alt text: wherever the standard pattern can match, it does, and it takes the shortest
   * alt text that works (with it, the path and the end are those of that shape).
   */
  lemma StandardMatchIsLazy(s: string, i: nat, a: nat, q: nat)
    requires StandardShape(s, i, a, q)
    ensures MatchStandardAt(s, i).Some?
    ensures var m := MatchStandardAt(s, i).value;
      i + 2 + |m.piece.alt| <= a && (i + 2 + |m.piece.alt| == a ==> m.end == q + 1)
  {
    StandardTailIff(s, a, q);
    LazyAltStopsBy(s, i + 2, a, q);
  }

  /** The lazy search returns the first alt end, in order, at which the tail matches. */
  lemma {:induction false} LazyAltFirst(s: string, a: nat, b: nat, q: nat)
    requires a <= b <= |s| && NoLineTerminatorIn(s, a, b) && StandardTail(s, b) == Some(q)
    requires forall j :: a <= j < b ==> StandardTail(s, j).None?
    ensures LazyAlt(s, a) == Some((b, q))
    decreases b - a
  {
    if a < b {
      LazyAltFirst(s, a + 1, b, q);
    }
  }

  /** In `![](//)![](c)`, the first alt end from index 2 at which the tail matches is 9. */
  lemma AbsorbingAltEnd()
    ensures LazyAlt("![](//)![](c)", 2) == Some((9, 12))
  {
    var s := "![](//)![](c)";
    assert AbsoluteUrl(s[4..]) by {
      assert s[4..][..2] == "//";
    }
    forall j | 2 <= j < 9
      ensures StandardTail(s, j).None?
    {
    }
    assert !AbsoluteUrl(s[11..]) by {
      assert s[11..][..2][0] == 'c';
    }
    assert RunEnd(s, 11) == 12;
    LazyAltFirst(s, 2, 9, 12);
  }

  /** The standard match at `i` is the one the lazy search for the alt end after `![` finds. */
  lemma StandardMatchOfSearch(s: string, i: nat, a: nat, q: nat)
    requires i + 2 <= |s| && s[i] == '!' && s[i + 1] == '['
    requires LazyAlt(s, i + 2) == Some((a, q))
    ensures i + 2 <= a && a + 2 <= q < |s|
    ensures MatchStandardAt(s, i) == Some(Match(Standard(s[i + 2..a], s[a + 2..q]), q + 1))
  {
    StandardPathShape(s, i, a, q);
  }

  /** The match at the start of `![](//)![](c)` captures the alt text `](//)![` and the path `c`. */
  lemma AbsorbingMatch()
    ensures MatchStandardAt("![](//)![](c)", 0) == Some(Match(Standard("](//)![", "c"), 13))
  {
    AbsorbingAltEnd();
    StandardMatchOfSearch("![](//)![](c)", 0, 9, 12);
    CapturedAbsorbedAlt();
  }

  /** The alt text and path between the delimiters the match found in `![](//)![](c)`. */
  lemma CapturedAbsorbedAlt()
    ensures "![](//)![](c)"[2..9] == "](//)![" && "![](//)![](c)"[11..12] == "c"
  {
  }

  /**
   * The lazy alt backtracks past an image the lookahead rejects: in `![](//)![](c)` the alt text
   * absorbs `](//)![`, and the one match rewrites only the path `c`.
   */
  lemma LazyAltAbsorbsAbsoluteImage(o: Options)
    ensures ReplaceAll("![](//)![](c)", StandardMarkdown, o) == "![](//)![](" + ImageUrl(o, "c") + ")"
  {
    AbsorbingMatch();
    WholeTextMatch("![](//)![](c)", StandardMarkdown, o, Match(Standard("](//)![", "c"), 13));
    assert CleanPath("c") == "c";
  }

  /** A pass over text that one match spans whole outputs that match's replacement. */
  lemma WholeTextMatch(s: string, syntax: Syntax, o: Options, m: Match)
    requires MatchAt(s, 0, syntax) == Some(m) && m.end == |s|
    ensures ReplaceAll(s, syntax, o) == Replacement(m.piece, o)
  {
    assert Scan(s, 0, syntax) == [m.piece] + Scan(s, m.end, syntax);
    assert Render([m.piece], o) == Replacement(m.piece, o) + Render([], o);
  }

  /** The lazy search for the dot stops at or before any dot where the tail matches. */
  lemma {:induction false} LazyEmbedStopsBy(s: string, a: nat, d: nat)
    requires a <= d <= |s| && NoLineTerminatorIn(s, a, d) && EmbedTail(s, d).Some?
    ensures LazyEmbedPath(s, a).Some? && LazyEmbedPath(s, a).value.0 <= d
    decreases d - a
  {
    if EmbedTail(s, a).None? {
      LazyEmbedStopsBy(s, a + 1, d);
    }
  }

  /**
   * Shortest embed path: wherever the embed pattern can match, it does, and it stops at the
   * first `]]` that completes a path.
   */
  lemma EmbedMatchIsShortest(s: string, i: nat, end: nat)
    requires EmbedShape(s, i, end)
    ensures MatchEmbedAt(s, i).Some? && MatchEmbedAt(s, i).value.end <= end
  {
    var d' := ShapeDot(s, i, end);
    LazyEmbedStopsBy(s, i + 3, d');
    var found := LazyEmbedPath(s, i + 3).value;
    EmbedEndBound(s, found.0, found.1, end - 2);
  }

  /** An embed shape has a dot, after a line-terminator-free run, at which the embed tail matches. */
  lemma ShapeDot(s: string, i: nat, end: nat) returns (d: nat)
    requires EmbedShape(s, i, end)
    ensures i + 3 <= d < end - 2 && NoLineTerminatorIn(s, i + 3, d) && EmbedTail(s, d).Some?
  {
    var e := end - 2;
    var k :| 0 <= k < |ImageExtensions| && HasExtension(s[i + 3..e], ImageExtensions[k]);
    d := e - |ImageExtensions[k]| - 1;
    EmbedTailAt(s, i + 3, e, k);
  }

  /** An embed tail from a dot before a `]` at `e` ends at or before `e`. */
  lemma EmbedEndBound(s: string, d: nat, e0: nat, e: nat)
    requires EmbedTail(s, d) == Some(e0) && d < e < |s| && s[e] == ']'
    ensures e0 <= e
  {
    if e0 > e {
      EmbedTailCharacters(s, d, e0, e);
    }
  }

  /** The length of the text before piece `j` of a sequence that starts with `p`. */
  lemma UnparsePrefixLength(p: Piece, rest: seq<Piece>, j: nat)
    requires 0 < j <= |rest| + 1
    ensures |Unparse(([p] + rest)[..j])| == |Span(p)| + |Unparse(rest[..j - 1])|
  {
    var ps := [p] + rest;
    assert ps[..j][0] == p;
    assert ps[..j][1..] == rest[..j - 1];
  }

  /**
   * Where the scan emits a literal character (piece `j`, which starts at `pos`), the pattern does
   * not match.
   */
  lemma {:induction false} ScanLiteralUnmatched(s: string, i: nat, syntax: Syntax, j: nat, pos: nat)
    requires i <= |s| && j < |Scan(s, i, syntax)| && Scan(s, i, syntax)[j].Literal?
    requires pos == i + |Unparse(Scan(s, i, syntax)[..j])|
    ensures pos < |s| && s[pos] == Scan(s, i, syntax)[j].c && MatchAt(s, pos, syntax).None?
    decreases |s| - i
  {
    var m := Step(s, i, syntax);
    var rest := Scan(s, m.end, syntax);
    assert Scan(s, i, syntax) == [m.piece] + rest;
    if j == 0 {
      assert s[i..m.end] == Span(m.piece);
    } else {
      UnparsePrefixLength(m.piece, rest, j);
      ScanLiteralUnmatched(s, m.end, syntax, j - 1, pos);
    }
  }

  /** Piece `j` of the scan, which starts at `pos`, is what the step at `pos` takes. */
  lemma {:induction false} ScanPieceIsStep(s: string, i: nat, syntax: Syntax, j: nat, pos: nat)
    requires i <= |s| && j < |Scan(s, i, syntax)|
    requires pos == i + |Unparse(Scan(s, i, syntax)[..j])|
    ensures pos < |s| && Scan(s, i, syntax)[j] == Step(s, pos, syntax).piece
    decreases |s| - i
  {
    var m := Step(s, i, syntax);
    var rest := Scan(s, m.end, syntax);
    assert Scan(s, i, syntax) == [m.piece] + rest;
    if j > 0 {
      UnparsePrefixLength(m.piece, rest, j);
      ScanPieceIsStep(s, m.end, syntax, j - 1, pos);
    }
  }

  /**
   * Where the scan takes a match (piece `j`, which starts at `pos`), the piece is the one the
   * pattern finds anchored at `pos`, and scanning resumes right after its text.
   */
  lemma ScanMatchIsMatchAt(s: string, i: nat, syntax: Syntax, j: nat, pos: nat)
    requires i <= |s| && j < |Scan(s, i, syntax)| && !Scan(s, i, syntax)[j].Literal?
    requires pos == i + |Unparse(Scan(s, i, syntax)[..j])|
    ensures pos < |s| && MatchAt(s, pos, syntax).Some?
    ensures MatchAt(s, pos, syntax).value.piece == Scan(s, i, syntax)[j]
    ensures MatchAt(s, pos, syntax).value.end == pos + |Span(Scan(s, i, syntax)[j])|
  {
    ScanPieceIsStep(s, i, syntax, j, pos);
    StepMatch(s, pos, syntax, Scan(s, i, syntax)[j]);
  }

  /** A step that takes a match takes the match at its position, which ends after its text. */
  lemma StepMatch(s: string, i: nat, syntax: Syntax, p: Piece)
    requires i < |s| && p == Step(s, i, syntax).piece && !p.Literal?
    ensures MatchAt(s, i, syntax).Some?
    ensures MatchAt(s, i, syntax).value.piece == p && MatchAt(s, i, syntax).value.end == i + |Span(p)|
  {
    var m := Step(s, i, syntax);
    assert |s[i..m.end]| == |Span(m.piece)|;
  }

  /**
   * The global pass keeps the laziness of the standard pattern: a standard image the scan takes
   * at `pos` has the shortest alt text of any standard shape starting there.
   */
  lemma ScanStandardIsLazy(s: string, i: nat, j: nat, pos: nat, a: nat, q: nat)
    requires i <= |s| && j < |Scan(s, i, StandardMarkdown)| && Scan(s, i, StandardMarkdown)[j].Standard?
    requires pos == i + |Unparse(Scan(s, i, StandardMarkdown)[..j])|
    requires StandardShape(s, pos, a, q)
    ensures pos + 2 + |Scan(s, i, StandardMarkdown)[j].alt| <= a
  {
    ScanMatchIsMatchAt(s, i, StandardMarkdown, j, pos);
    StandardMatchIsLazy(s, pos, a, q);
  }

  /**
   * The global pass keeps the shortest embed: an embed the scan takes at `pos` ends no later than
   * any embed shape starting there.
   */
  lemma ScanEmbedIsShortest(s: string, i: nat, j: nat, pos: nat, end: nat)
    requires i <= |s| && j < |Scan(s, i, BracketEmbed)| && Scan(s, i, BracketEmbed)[j].Embed?
    requires pos == i + |Unparse(Scan(s, i, BracketEmbed)[..j])|
    requires EmbedShape(s, pos, end)
    ensures pos + |Span(Scan(s, i, BracketEmbed)[j])| <= end
  {
    ScanMatchIsMatchAt(s, i, BracketEmbed, j, pos);
    EmbedMatchIsShortest(s, pos, end);
  }

  /** Where the pattern does not match, the text has no shape it could match. */
  lemma NoShapeWithoutMatch(s: string, pos: nat, syntax: Syntax)
    requires pos <= |s| && MatchAt(s, pos, syntax).None?
    ensures syntax == StandardMarkdown ==> forall a, q :: !StandardShape(s, pos, a, q)
    ensures syntax == BracketEmbed ==> forall end :: !EmbedShape(s, pos, end)
  {
    if syntax == StandardMarkdown {
      forall a, q | StandardShape(s, pos, a, q) ensures false {
        StandardMatchIsLazy(s, pos, a, q);
      }
    } else {
      forall end | EmbedShape(s, pos, end) ensures false {
        EmbedMatchIsShortest(s, pos, end);
      }
    }
  }

  /**
   * Non-overlapping, leftmost matching: at the position `pos` where the scan keeps a literal
   * character, the text has no shape the pattern of that pass could match.
   */
  lemma ScanLiteralHasNoImage(s: string, i: nat, syntax: Syntax, j: nat, pos: nat)
    requires i <= |s| && j < |Scan(s, i, syntax)| && Scan(s, i, syntax)[j].Literal?
    requires pos == i + |Unparse(Scan(s, i, syntax)[..j])|
    ensures syntax == StandardMarkdown ==> forall a, q :: !StandardShape(s, pos, a, q)
    ensures syntax == BracketEmbed ==> forall end :: !EmbedShape(s, pos, end)
  {
    ScanLiteralUnmatched(s, i, syntax, j, pos);
    NoShapeWithoutMatch(s, pos, syntax);
  }

  /** Every piece of an eligible sequence is one the pattern of `syntax` accepts. */
  lemma {:induction false} AllEligibleAt(ps: seq<Piece>, syntax: Syntax, j: nat)
    requires AllEligible(ps, syntax) && j < |ps|
    ensures Eligible(ps[j], syntax)
  {
    if j > 0 {
      AllEligibleAt(ps[1..], syntax, j - 1);
    }
  }

  /**
   * Every match a pass captures is a valid image for that pass: a standard image's path is
   * non-empty, has no `)` and is not absolute (so it is rewritten), and an embed's path ends in an
   * image extension.
   */
  lemma ScanPiecesEligible(s: string, syntax: Syntax, j: nat)
    requires j < |Scan(s, 0, syntax)|
    ensures var p := Scan(s, 0, syntax)[j];
      (p.Standard? ==> syntax == StandardMarkdown && p.path != "" && NoCloseParen(p.path) && !AbsoluteUrl(p.path)) &&
      (p.Embed? ==> syntax == BracketEmbed && HasImageExtension(p.path))
  {
    AllEligibleAt(Scan(s, 0, syntax), syntax, j);
  }

  /** In `![[a.PNG]]`, the first extension that fits after the dot is `png`, in another case. */
  lemma UpperCaseExtension()
    ensures ExtensionAt("![[a.PNG]]", 5, 0) == Some(2)
  {
    var s := "![[a.PNG]]";
    assert s[5..8] == "PNG";
    assert LowerAscii(s[5..8][0]) == 'p' != LowerAscii(ImageExtensions[0][0]);
    assert !ExtensionThenClose(s, 5, ImageExtensions[0]);
    assert !ExtensionThenClose(s, 5, ImageExtensions[1]);
    assert EqualsIgnoreCase(s[5..8], ImageExtensions[2]) by {
      assert ImageExtensions[2] == "png";
    }
    assert ExtensionThenClose(s, 5, ImageExtensions[2]);
  }

  /** The embed match at `i` is the one the lazy search for the dot after `![[` finds. */
  lemma EmbedMatchOfSearch(s: string, i: nat, d: nat, e: nat)
    requires i + 3 <= |s| && s[i] == '!' && s[i + 1] == '[' && s[i + 2] == '['
    requires LazyEmbedPath(s, i + 3) == Some((d, e))
    ensures e + 2 <= |s| && MatchEmbedAt(s, i) == Some(Match(Embed(s[i + 3..e]), e + 2))
  {
    EmbedPathShape(s, i, d, e);
  }

  /** The embed pattern matches `![[a.PNG]]` whole: the extension matches in any letter case. */
  lemma EmbedIgnoresCase()
    ensures MatchEmbedAt("![[a.PNG]]", 0) == Some(Match(Embed("a.PNG"), 10))
  {
    var s := "![[a.PNG]]";
    UpperCaseExtension();
    assert EmbedTail(s, 3).None?;
    assert EmbedTail(s, 4) == Some(8);
    assert LazyEmbedPath(s, 3) == Some((4, 8));
    EmbedMatchOfSearch(s, 0, 4, 8);
    CapturedUpperCasePath();
  }

  /** The text between `![[` and `]]` in `![[a.PNG]]`. */
  lemma CapturedUpperCasePath()
    ensures "![[a.PNG]]"[3..8] == "a.PNG"
  {
  }

  /** The embed `![[a.PNG]]` is rewritten to a standard image with empty alt text. */
  lemma EmbedRewrittenIgnoringCase(o: Options)
    ensures ReplaceAll("![[a.PNG]]", BracketEmbed, o) == "![](" + ImageUrl(o, "a.PNG") + ")"
  {
    EmbedIgnoresCase();
    WholeTextMatch("![[a.PNG]]", BracketEmbed, o, Match(Embed("a.PNG"), 10));
    assert CleanPath("a.PNG") == "a.PNG";
  }

  /** In `![[//a.png]]`, the first extension that fits after the dot is `png`. */
  lemma PngExtension()
    ensures ExtensionAt("![[//a.png]]", 7, 0) == Some(2)
  {
    var s := "![[//a.png]]";
    assert s[7..10] == "png";
    assert LowerAscii(s[7..10][0]) == 'p' != LowerAscii(ImageExtensions[0][0]);
    assert !ExtensionThenClose(s, 7, ImageExtensions[0]);
    assert !ExtensionThenClose(s, 7, ImageExtensions[1]);
    assert ExtensionThenClose(s, 7, ImageExtensions[2]);
  }

  /** The embed pattern has no protocol check: it matches `![[//a.png]]` whole. */
  lemma EmbedMatchesAbsolutePath()
    ensures MatchEmbedAt("![[//a.png]]", 0) == Some(Match(Embed("//a.png"), 12))
  {
    var s := "![[//a.png]]";
    PngExtension();
    assert EmbedTail(s, 3).None? && EmbedTail(s, 4).None? && EmbedTail(s, 5).None?;
    assert EmbedTail(s, 6) == Some(10);
    assert LazyEmbedPath(s, 3) == Some((6, 10));
    EmbedMatchOfSearch(s, 0, 6, 10);
    CapturedAbsolutePath();
  }

  /** The text between `![[` and `]]` in `![[//a.png]]`. */
  lemma CapturedAbsolutePath()
    ensures "![[//a.png]]"[3..10] == "//a.png"
  {
  }

  /**
   * Unlike the standard pass, the embed pass also rewrites a path that is already absolute:
   * `![[//a.png]]` points at `endpoint/bucket/[prefix/]//a.png`.
   */
  lemma EmbedRewritesAbsolutePath(o: Options)
    ensures ReplaceAll("![[//a.png]]", BracketEmbed, o) == "![](" + ImageUrl(o, "//a.png") + ")"
  {
    EmbedMatchesAbsolutePath();
    WholeTextMatch("![[//a.png]]", BracketEmbed, o, Match(Embed("//a.png"), 12));
    assert CleanPath("//a.png") == "//a.png" by {
      assert "//a.png"[..2] != "./";
    }
  }

  /** Neither pattern can start where the text holds no `![`. */
  predicate NoImageOpener(s: string)
  {
    forall j :: 0 <= j < |s| - 1 ==> !(s[j] == '!' && s[j + 1] == '[')
  }

  /** A pass over text without `![` keeps every character. */
  lemma {:induction false} ReplaceAllWithoutOpener(s: string, i: nat, syntax: Syntax, o: Options)
    requires i <= |s| && NoImageOpener(s)
    ensures Render(Scan(s, i, syntax), o) == s[i..]
    decreases |s| - i
  {
    if i < |s| {
      assert MatchAt(s, i, syntax).None? by {
        if i + 1 < |s| {
          assert !(s[i] == '!' && s[i + 1] == '[');
        }
      }
      var rest := Scan(s, i + 1, syntax);
      assert Scan(s, i, syntax) == [Literal(s[i])] + rest;
      ReplaceAllWithoutOpener(s, i + 1, syntax, o);
      assert s[i..] == [s[i]] + s[i + 1..];
    }
  }

  /** Text that contains no `![` is returned unchanged by both passes. */
  lemma NoImageOpenerUnchanged(content: string, o: Options)
    requires NoImageOpener(content)
    ensures ReplaceLocalImagesWithS3(content, o) == content
  {
    ReplaceAllWithoutOpener(content, 0, StandardMarkdown, o);
    assert content[0..] == content;
    ReplaceAllWithoutOpener(content, 0, BracketEmbed, o);
  }
}
