/**
 * The deterministic parts of scraper/base_scraper.py: the file-name cleaner,
 * the article-URL filter, the sitemap traversal and the scraping loop.
 *
 * Fetching and parsing a sitemap and downloading, parsing and saving an
 * article are outside the model; they reach the traversal and the loop as
 * functions handed in by the caller (`fetch`, `extract`).
 */
module BaseScraper {
  import opened Wrappers
  import opened Text

  // ---------------------------------------------------------------------
  // safe_filename

  /** The characters the regular expression `[<>:"/\\|?*]` matches. */
  predicate IsForbidden(c: char) {
    c == '<' || c == '>' || c == ':' || c == '"' || c == '/' || c == '\\' || c == '|' || c == '?' || c == '*'
  }

  /** The regular-expression substitution: every forbidden character becomes `_`. */
  function SubForbidden(text: string): (r: string)
    ensures |r| == |text|
    ensures forall i :: 0 <= i < |text| ==> r[i] == (if IsForbidden(text[i]) then '_' else text[i])
  {
    seq(|text|, i requires 0 <= i < |text| => if IsForbidden(text[i]) then '_' else text[i])
  }

  /** What one character of the input becomes. */
  function Sanitize(c: char): char {
    if IsForbidden(c) || c == ' ' then '_' else c
  }

  /** No character of `s` is forbidden or a space. */
  predicate IsSafe(s: string) {
    forall i :: 0 <= i < |s| ==> !IsForbidden(s[i]) && s[i] != ' '
  }

  lemma SafeSlice(s: string, lo: nat, hi: nat)
    requires IsSafe(s) && lo <= hi <= |s|
    ensures IsSafe(s[lo..hi])
  {
    assert forall i :: 0 <= i < hi - lo ==> s[lo..hi][i] == s[lo + i];
  }

  /** `safe_filename(text, max_len)`: forbidden characters and spaces become
      `_`, the text is cut with `text[:max_len]`, and `_` is stripped from
      both ends. */
  function SafeFilename(text: string, maxLen: int): (r: string)
    ensures IsSafe(r)
    ensures maxLen >= 0 ==> |r| <= maxLen
    ensures Trimmed(r, Only('_'))
  {
    var cut := PySlice(Sanitized(text), 0, maxLen);
    SafeCut(text, maxLen);
    SafeStrip(cut);
    StripWhere(cut, Only('_'))
  }

  /** The cut of the sanitized text is safe. */
  lemma SafeCut(text: string, maxLen: int)
    ensures IsSafe(PySlice(Sanitized(text), 0, maxLen))
  {
    var replaced := Sanitized(text);
    var e := SliceEnd(|replaced|, maxLen);
    if e > 0 {
      SafeSlice(replaced, 0, e);
    }
  }

  /** Stripping `_` from a safe text leaves it safe. */
  lemma SafeStrip(cut: string)
    requires IsSafe(cut)
    ensures IsSafe(StripWhere(cut, Only('_')))
  {
    var r := StripWhere(cut, Only('_'));
    StripWhereIsSlice(cut, Only('_'));
    SafeSlice(cut, StripStart(cut, Only('_')), StripStart(cut, Only('_')) + |r|);
  }

  /** The text after the regular-expression substitution and the space replacement. */
  function Sanitized(text: string): (r: string)
    ensures |r| == |text| && IsSafe(r)
    ensures forall i :: 0 <= i < |r| ==> r[i] == Sanitize(text[i])
  {
    Replace(SubForbidden(text), ' ', '_')
  }

  /** `r` is the slice of `text` at `o` with every character sanitized. */
  predicate SanitizedSliceAt(r: string, text: string, o: int) {
    0 <= o && o + |r| <= |text| && forall i :: 0 <= i < |r| ==> r[i] == Sanitize(text[o + i])
  }

  /** `r` is the sanitized slice of `text` at `o`, and every other character
      of the sanitized `text[..e]` is `_`. */
  ghost predicate NameAt(r: string, text: string, o: int, e: int) {
    && e <= |text| && SanitizedSliceAt(r, text, o) && o + |r| <= e
    && (forall i :: 0 <= i < o ==> Sanitize(text[i]) == '_')
    && (forall i :: o + |r| <= i < e ==> Sanitize(text[i]) == '_')
  }

  /** The file name is the piece of the text cut at `max_len`, character for
      character, with forbidden characters and spaces turned into `_`; all
      that is dropped around it is `_` once sanitized. */
  lemma SafeFilenameIsPiece(text: string, maxLen: int)
    ensures exists o :: NameAt(SafeFilename(text, maxLen), text, o, SliceEnd(|text|, maxLen))
  {
    var cut := PySlice(Sanitized(text), 0, maxLen);
    SanitizedCut(text, maxLen);
    StripKeepsPiece(cut, text);
    var o := StripStart(cut, Only('_'));
    assert NameAt(SafeFilename(text, maxLen), text, o, SliceEnd(|text|, maxLen));
  }

  /** Being such a piece with no `_` at either end pins the name down: the
      contracts of `SafeFilename` and `SafeFilenameIsPiece` leave one choice. */
  lemma NameAtUnique(r1: string, r2: string, text: string, o1: int, o2: int, e: int)
    requires NameAt(r1, text, o1, e) && Trimmed(r1, Only('_'))
    requires NameAt(r2, text, o2, e) && Trimmed(r2, Only('_'))
    ensures r1 == r2
  {
  }

  /** The text cut at `max_len` is the sanitized prefix of the text up to the
      slice end. */
  lemma SanitizedCut(text: string, maxLen: int)
    ensures var cut := PySlice(Sanitized(text), 0, maxLen);
      SanitizedSliceAt(cut, text, 0) && |cut| == SliceEnd(|text|, maxLen)
  {
    var replaced := Sanitized(text);
    assert SanitizedSliceAt(replaced, text, 0);
    var e := SliceEnd(|replaced|, maxLen);
    if e > 0 {
      SanitizedSliceOfSlice(replaced, text, 0, 0, e);
    }
  }

  /** Stripping `_` from a sanitized prefix leaves a sanitized slice, with
      only `_` around it. */
  lemma StripKeepsPiece(cut: string, text: string)
    requires SanitizedSliceAt(cut, text, 0)
    ensures NameAt(StripWhere(cut, Only('_')), text, StripStart(cut, Only('_')), |cut|)
  {
    var r := StripWhere(cut, Only('_'));
    var o := StripStart(cut, Only('_'));
    StripWhereIsSlice(cut, Only('_'));
    StripWhereDrops(cut, Only('_'));
    SanitizedSliceOfSlice(cut, text, 0, o, o + |r|);
    assert forall i :: 0 <= i < |cut| ==> Sanitize(text[i]) == cut[i];
  }

  /** A slice of a sanitized slice is a sanitized slice. */
  lemma SanitizedSliceOfSlice(r: string, text: string, at: int, lo: nat, hi: nat)
    requires SanitizedSliceAt(r, text, at) && lo <= hi <= |r|
    ensures SanitizedSliceAt(r[lo..hi], text, at + lo)
  {
    assert forall i :: 0 <= i < hi - lo ==> r[lo..hi][i] == r[lo + i];
  }

  /** For a non-negative `max_len`, cleaning a cleaned name changes nothing. */
  lemma SafeFilenameIdempotent(text: string, maxLen: int)
    requires maxLen >= 0
    ensures SafeFilename(SafeFilename(text, maxLen), maxLen) == SafeFilename(text, maxLen)
  {
    SafeFilenameFixed(SafeFilename(text, maxLen), maxLen);
  }

  /** A safe name that fits and has no `_` at either end is left alone. */
  lemma SafeFilenameFixed(s: string, maxLen: int)
    requires IsSafe(s) && |s| <= maxLen && Trimmed(s, Only('_'))
    ensures SafeFilename(s, maxLen) == s
  {
    assert Sanitized(s) == s by {
      assert forall i :: 0 <= i < |s| ==> Sanitize(s[i]) == s[i];
    }
    assert PySlice(s, 0, maxLen) == s;
    StripWhereFixed(s, Only('_'));
  }

  /** A text that cleaning leaves alone and that holds no `_`. */
  predicate IsPlainName(text: string) {
    forall i :: 0 <= i < |text| ==> Sanitize(text[i]) == text[i] && text[i] != '_'
  }

  /** A negative `max_len` counts from the end: `max_len == -1` drops the
      last character of a plain name. */
  lemma SafeFilenameDropsLast(text: string)
    requires text != [] && IsPlainName(text)
    ensures SafeFilename(text, -1) == text[..|text| - 1]
    ensures IsPlainName(SafeFilename(text, -1))
  {
    var cut := text[..|text| - 1];
    assert IsPlainName(cut) by {
      assert forall i :: 0 <= i < |cut| ==> cut[i] == text[i];
    }
    assert SafeFilename(text, -1) == cut by {
      assert Sanitized(text) == text;
      assert PySlice(text, 0, -1) == cut;
      assert Trimmed(cut, Only('_'));
      StripWhereFixed(cut, Only('_'));
    }
  }

  /** So for a negative `max_len` cleaning is not idempotent: each
      application cuts again. */
  lemma SafeFilenameNegativeCutsAgain(text: string)
    requires |text| >= 2 && IsPlainName(text)
    ensures |SafeFilename(SafeFilename(text, -1), -1)| == |text| - 2
    ensures SafeFilename(SafeFilename(text, -1), -1) != SafeFilename(text, -1)
  {
    SafeFilenameDropsLast(text);
    SafeFilenameDropsLast(SafeFilename(text, -1));
  }

  // ---------------------------------------------------------------------
  // The article-URL filter

  /** The first index at or after `from` holding a character of `stops`, or `|s|`. */
  function IndexOfAny(s: string, from: nat, stops: set<char>): (r: nat)
    requires from <= |s|
    ensures from <= r <= |s|
    ensures r < |s| ==> s[r] in stops
    ensures forall k :: from <= k < r ==> s[k] !in stops
    decreases |s| - from
  {
    if from == |s| || s[from] in stops then from else IndexOfAny(s, from + 1, stops)
  }

  predicate IsAsciiLetter(c: char) {
    'a' <= c <= 'z' || 'A' <= c <= 'Z'
  }

  /** The characters a URL scheme may hold. */
  predicate IsSchemeChar(c: char) {
    IsAsciiLetter(c) || '0' <= c <= '9' || c == '+' || c == '-' || c == '.'
  }

  /** The URL after its `scheme:` prefix, when it has one: a first `:` past
      position 0 with only scheme characters before it, the first a letter. */
  function AfterScheme(url: string): (r: string)
    ensures |r| <= |url| && EndsWith(url, r)
  {
    var i := IndexOfAny(url, 0, {':'});
    if 0 < i < |url| && IsAsciiLetter(url[0]) && forall k :: 0 <= k < i ==> IsSchemeChar(url[k])
    then url[i + 1..] else url
  }

  /** The text after a leading `//netloc`, which ends at the first `/`, `?`
      or `#`; a text without `//` in front is returned whole. */
  function AfterNetloc(rest: string): (r: string)
    ensures |r| <= |rest|
  {
    if StartsWith(rest, "//") then rest[IndexOfAny(rest, 2, {'/', '?', '#'})..] else rest
  }

  /** The text before the first `#`, then before the first `?`: the text up
      to the first `?` or `#`. */
  function BeforeQuery(s: string): (r: string)
    ensures |r| <= |s| && StartsWith(s, r)
    ensures forall k :: 0 <= k < |r| ==> r[k] != '?' && r[k] != '#'
    ensures |r| < |s| ==> s[|r|] == '?' || s[|r|] == '#'
  {
    var noFragment := s[..IndexOfAny(s, 0, {'#'})];
    noFragment[..IndexOfAny(noFragment, 0, {'?'})]
  }

  /** The path component `urlparse(url).path`. */
  function UrlPath(url: string): (r: string)
    ensures |r| <= |url|
    ensures forall k :: 0 <= k < |r| ==> r[k] != '?' && r[k] != '#'
  {
    BeforeQuery(AfterNetloc(AfterScheme(url)))
  }

  const ImageExtensions: seq<string> := [".jpg", ".jpeg", ".png", ".gif", ".webp", ".svg"]

  const ExcludedPaths: seq<string> := ["/category/", "/tag/", "/author/", "/wp-content/uploads/", "sitemap-index", "image-sitemap", "video-sitemap"]

  /** `s` ends with one of `suffixes`. */
  predicate EndsWithAny(s: string, suffixes: seq<string>) {
    suffixes != [] && (EndsWith(s, suffixes[0]) || EndsWithAny(s, suffixes[1..]))
  }

  /** `s` contains one of `parts` (Python's `part in s`, found by search). */
  predicate ContainsAny(s: string, parts: seq<string>) {
    parts != [] && (FindFrom(s, parts[0], 0) >= 0 || ContainsAny(s, parts[1..]))
  }

  /** The lower-cased URL ends with an image extension. */
  predicate IsImage(url: string) {
    EndsWithAny(Lower(url), ImageExtensions)
  }

  /** The lower-cased URL contains an excluded path fragment. */
  predicate IsExcluded(url: string) {
    ContainsAny(Lower(url), ExcludedPaths)
  }

  /** The filter applied to each URL of a urlset. */
  predicate IsArticleUrl(url: string) {
    |UrlPath(url)| > 1 && !IsImage(url) && !IsExcluded(url)
  }

  /** For `scheme://host` followed by a path and then nothing, a query or a
      fragment, the parsed path is that path. */
  lemma UrlPathOfAbsolute(scheme: string, host: string, path: string, query: string)
    requires scheme != [] && IsAsciiLetter(scheme[0])
    requires forall k :: 0 <= k < |scheme| ==> IsSchemeChar(scheme[k])
    requires forall k :: 0 <= k < |host| ==> host[k] !in {'/', '?', '#'}
    requires path == [] || path[0] == '/'
    requires forall k :: 0 <= k < |path| ==> path[k] != '?' && path[k] != '#'
    requires query == [] || query[0] == '?' || query[0] == '#'
    ensures UrlPath(scheme + "://" + host + path + query) == path
  {
    var tail := path + query;
    var rest := "//" + host + tail;
    SchemeJoin(scheme, host, path, query);
    AfterSchemeOf(scheme, rest);
    PathThenQuery(path, query);
    NetlocEnd(host, tail);
  }

  /** A path followed by a query or fragment starts like a path, and the
      query part is cut off again. */
  lemma PathThenQuery(path: string, query: string)
    requires path == [] || path[0] == '/'
    requires forall k :: 0 <= k < |path| ==> path[k] != '?' && path[k] != '#'
    requires query == [] || query[0] == '?' || query[0] == '#'
    ensures var tail := path + query; tail == [] || tail[0] in {'/', '?', '#'}
    ensures BeforeQuery(path + query) == path
  {
    var tail := path + query;
    assert tail == [] || tail[0] in {'/', '?', '#'} by {
      if path != [] { assert tail[0] == path[0]; }
    }
    assert forall k :: 0 <= k < |path| ==> tail[k] == path[k];
    assert tail[..|path|] == path;
    BeforeQueryStopsAt(tail, |path|);
  }

  /** `scheme://host` followed by path and query is `scheme:` followed by
      `//host` and the rest. */
  lemma SchemeJoin(scheme: string, host: string, path: string, query: string)
    ensures scheme + "://" + host + path + query == scheme + ":" + ("//" + host + (path + query))
  {
    var head := scheme + "://" + host;
    assert head + path + query == head + (path + query);
    assert head == scheme + ":" + ("//" + host) by {
      assert "://" == ":" + "//";
    }
    assert (scheme + ":") + ("//" + host) + (path + query) == (scheme + ":") + ("//" + host + (path + query));
  }

  /** A URL without a scheme and without `//` in front, such as `/a/b?q`,
      keeps everything before its query or fragment as its path. */
  lemma UrlPathOfRelative(url: string)
    requires url == [] || !IsAsciiLetter(url[0])
    requires !StartsWith(url, "//")
    ensures UrlPath(url) == BeforeQuery(url)
  {
  }

  /** `BeforeQuery` stops at the first `?` or `#`. */
  lemma BeforeQueryStopsAt(s: string, n: nat)
    requires n <= |s|
    requires forall k :: 0 <= k < n ==> s[k] != '?' && s[k] != '#'
    requires n == |s| || s[n] == '?' || s[n] == '#'
    ensures BeforeQuery(s) == s[..n]
  {
  }

  /** A scheme followed by `:` is removed. */
  lemma AfterSchemeOf(scheme: string, rest: string)
    requires scheme != [] && IsAsciiLetter(scheme[0])
    requires forall k :: 0 <= k < |scheme| ==> IsSchemeChar(scheme[k])
    ensures AfterScheme(scheme + ":" + rest) == rest
  {
    var url := scheme + ":" + rest;
    assert forall k :: 0 <= k < |scheme| ==> url[k] == scheme[k];
    IndexOfAnyAt(url, 0, {':'}, |scheme|);
    assert url[|scheme| + 1..] == rest;
  }

  /** The netloc after `//` ends where the path, query or fragment begins. */
  lemma NetlocEnd(host: string, tail: string)
    requires forall k :: 0 <= k < |host| ==> host[k] !in {'/', '?', '#'}
    requires tail == [] || tail[0] in {'/', '?', '#'}
    ensures AfterNetloc("//" + host + tail) == tail
  {
    var rest := "//" + host + tail;
    assert forall k :: 2 <= k < 2 + |host| ==> rest[k] == host[k - 2];
    if tail == [] {
      IndexOfAnyNone(rest, 2, {'/', '?', '#'});
    } else {
      IndexOfAnyAt(rest, 2, {'/', '?', '#'}, 2 + |host|);
    }
    assert rest[2 + |host|..] == tail;
  }

  lemma IndexOfAnyNone(s: string, from: nat, stops: set<char>)
    requires from <= |s|
    requires forall k :: from <= k < |s| ==> s[k] !in stops
    ensures IndexOfAny(s, from, stops) == |s|
  {
  }

  lemma IndexOfAnyAt(s: string, from: nat, stops: set<char>, at: nat)
    requires from <= at < |s| && s[at] in stops
    requires forall k :: from <= k < at ==> s[k] !in stops
    ensures IndexOfAny(s, from, stops) == at
  {
  }

  /** Only letter case of the URL is ignored by the image and exclusion tests. */
  lemma FilterIgnoresCase(url: string)
    ensures IsImage(Lower(url)) == IsImage(url) && IsExcluded(Lower(url)) == IsExcluded(url)
  {
    LowerIdempotent(url);
  }

  lemma LowerIdempotent(s: string)
    ensures Lower(Lower(s)) == Lower(s)
  {
    assert forall i :: 0 <= i < |s| ==> LowerChar(LowerChar(s[i])) == LowerChar(s[i]);
  }

  // ---------------------------------------------------------------------
  // The sitemap traversal of get_article_urls_from_sitemap

  /** What fetching and parsing one sitemap URL gave: a failure (HTTP error,
      non-XML content type, unknown root tag or any other exception), a
      sitemap index or a urlset; each entry holds the text of its `<loc>`,
      if it has one. */
  datatype Fetched = FetchFailed | SitemapIndex(children: seq<Option<string>>) | UrlSet(entries: seq<Option<string>>)

  /** The sitemap index `f` lists `child` (after stripping). */
  predicate ListsChild(f: Fetched, child: string) {
    f.SitemapIndex? && Some(child) in Locs(f.children)
  }

  /** The urlset `f` lists `url` (after stripping). */
  predicate ListsUrl(f: Fetched, url: string) {
    f.UrlSet? && Some(url) in Locs(f.entries)
  }

  /** The stripped text of an entry's `<loc>`, if it has one. */
  function LocText(entry: Option<string>): Option<string> {
    match entry
    case None => None
    case Some(t) => Some(Strip(t))
  }

  /** The stripped `<loc>` texts of the entries. */
  function Locs(entries: seq<Option<string>>): (r: seq<Option<string>>)
    ensures |r| == |entries|
    ensures forall k :: 0 <= k < |entries| ==> r[k] == LocText(entries[k])
  {
    seq(|entries|, k requires 0 <= k < |entries| => LocText(entries[k]))
  }

  predicate NoDuplicates(s: seq<string>) {
    forall i, j :: 0 <= i < j < |s| ==> s[i] != s[j]
  }

  /** Every sitemap in `sitemaps` is the initial one or a child listed by a
      visited index. */
  predicate Reached(sitemaps: seq<string>, initial: string, visited: seq<string>, fetch: string -> Fetched) {
    forall q :: q in sitemaps ==> q == initial || exists t :: t in visited && ListsChild(fetch(t), q)
  }

  /** Every found URL passes the filter and is listed by a visited urlset. */
  predicate Sourced(found: set<string>, visited: seq<string>, fetch: string -> Fetched) {
    AllAccepted(found) && AllListed(found, visited, fetch)
  }

  predicate AllAccepted(found: set<string>) {
    forall u :: u in found ==> IsArticleUrl(u)
  }

  predicate AllListed(found: set<string>, visited: seq<string>, fetch: string -> Fetched) {
    forall u :: u in found ==> exists t :: t in visited && ListsUrl(fetch(t), u)
  }

  /** What checking `current` does to the queue and the found URLs, with
      `processed` already holding `current`: an index appends its new
      children to the queue, a urlset collects its accepted URLs up to
      `limit`, anything else changes nothing. */
  ghost function CheckOutcome(current: string, queue: seq<string>, found: set<string>, processed: set<string>,
                              limit: int, fetch: string -> Fetched): (seq<string>, set<string>)
  {
    match fetch(current)
    case FetchFailed => (queue, found)
    case SitemapIndex(children) => (queue + NewChildren(children, processed), found)
    case UrlSet(entries) => (queue, CollectFrom(found, entries, limit))
  }

  /** The walk from a given queue, found set, processed set and list of
      checked sitemaps to its end: while the queue is not empty, fewer than
      `maxSitemaps` were checked and fewer than `limit` URLs were found, pop
      the head; skip it when processed, otherwise check it. The result is
      the final found set and list of checked sitemaps. */
  ghost function Walk(queue: seq<string>, found: set<string>, processed: set<string>, visited: seq<string>,
                      limit: int, maxSitemaps: int, fetch: string -> Fetched): (set<string>, seq<string>)
    decreases maxSitemaps - |visited|, |queue|
  {
    if queue == [] || |visited| >= maxSitemaps || |found| >= limit then (found, visited)
    else if queue[0] in processed then Walk(queue[1..], found, processed, visited, limit, maxSitemaps, fetch)
    else
      var next := CheckOutcome(queue[0], queue[1..], found, processed + {queue[0]}, limit, fetch);
      Walk(next.0, next.1, processed + {queue[0]}, visited + [queue[0]], limit, maxSitemaps, fetch)
  }

  /** A processed head is skipped. */
  lemma WalkSkip(queue: seq<string>, found: set<string>, processed: set<string>, visited: seq<string>,
                 limit: int, maxSitemaps: int, fetch: string -> Fetched)
    requires queue != [] && |visited| < maxSitemaps && |found| < limit && queue[0] in processed
    ensures Walk(queue, found, processed, visited, limit, maxSitemaps, fetch)
         == Walk(queue[1..], found, processed, visited, limit, maxSitemaps, fetch)
  {
  }

  /** Skipping a processed head keeps the queue reached, loses no listed
      child and leaves the walk's result as it was. */
  lemma SkipHead(queue: seq<string>, found: set<string>, processed: set<string>, visited: seq<string>,
                 initial: string, limit: int, maxSitemaps: int, fetch: string -> Fetched)
    requires queue != [] && |visited| < maxSitemaps && |found| < limit && queue[0] in processed
    requires forall s :: s in processed <==> s in visited
    requires Reached(queue, initial, visited, fetch) && ChildrenSeen(visited, queue, fetch)
    ensures Reached(queue[1..], initial, visited, fetch) && ChildrenSeen(visited, queue[1..], fetch)
    ensures Walk(queue, found, processed, visited, limit, maxSitemaps, fetch)
         == Walk(queue[1..], found, processed, visited, limit, maxSitemaps, fetch)
  {
    ReachedPop(queue, initial, visited, fetch);
    ChildrenSeenPop(visited, queue, fetch);
    WalkSkip(queue, found, processed, visited, limit, maxSitemaps, fetch);
  }

  /** A new head is checked. */
  lemma WalkVisit(queue: seq<string>, found: set<string>, processed: set<string>, visited: seq<string>,
                  queue': seq<string>, found': set<string>, limit: int, maxSitemaps: int, fetch: string -> Fetched)
    requires queue != [] && |visited| < maxSitemaps && |found| < limit && queue[0] !in processed
    requires (queue', found') == CheckOutcome(queue[0], queue[1..], found, processed + {queue[0]}, limit, fetch)
    ensures Walk(queue, found, processed, visited, limit, maxSitemaps, fetch)
         == Walk(queue', found', processed + {queue[0]}, visited + [queue[0]], limit, maxSitemaps, fetch)
  {
  }

  /** Once a stop condition holds, the walk is over. */
  lemma WalkDone(queue: seq<string>, found: set<string>, processed: set<string>, visited: seq<string>,
                 limit: int, maxSitemaps: int, fetch: string -> Fetched)
    requires queue == [] || |visited| >= maxSitemaps || |found| >= limit
    ensures Walk(queue, found, processed, visited, limit, maxSitemaps, fetch) == (found, visited)
  {
  }

  /** `get_article_urls_from_sitemap`: a breadth-first walk over sitemaps
      from `initial`, stopping when the queue is empty, `maxSitemaps`
      sitemaps were checked or `limit` article URLs were found. `visited`
      lists the checked sitemaps in order; the source returns `found` as a
      list in set order. Both are what `Walk` gives from the queue holding
      `initial` alone. */
  method GetArticleUrls(initial: string, limit: int, maxSitemaps: int, fetch: string -> Fetched)
    returns (found: set<string>, visited: seq<string>)
    ensures |found| <= Max(limit, 0)
    ensures |visited| <= Max(maxSitemaps, 0)
    ensures NoDuplicates(visited)
    ensures Sourced(found, visited, fetch)
    ensures Reached(visited, initial, visited, fetch)
    ensures limit > 0 && maxSitemaps > 0 ==> |visited| > 0 && visited[0] == initial
    ensures |found| < limit ==> AllCollected(found, visited, fetch)
    ensures |found| < limit && |visited| < maxSitemaps ==> ChildrenVisited(visited, fetch)
    ensures (found, visited) == Walk([initial], {}, {}, [], limit, maxSitemaps, fetch)
  {
    var queue := [initial];
    var processed: set<string> := {};
    found := {};
    visited := [];
    var checked := 0;
    ghost var result := Walk(queue, found, processed, visited, limit, maxSitemaps, fetch);
    while queue != [] && checked < maxSitemaps && |found| < limit
      invariant checked == |visited| <= Max(maxSitemaps, 0)
      invariant forall s :: s in processed <==> s in visited
      invariant NoDuplicates(visited)
      invariant |found| <= Max(limit, 0)
      invariant Sourced(found, visited, fetch)
      invariant Reached(queue, initial, visited, fetch)
      invariant Reached(visited, initial, visited, fetch)
      invariant visited == [] ==> queue == [initial]
      invariant visited != [] ==> visited[0] == initial
      invariant |found| < limit ==> AllCollected(found, visited, fetch)
      invariant ChildrenSeen(visited, queue, fetch)
      invariant Walk(queue, found, processed, visited, limit, maxSitemaps, fetch) == result
      decreases maxSitemaps - checked, |queue|
    {
      ghost var waiting := queue;
      var current := queue[0];
      queue := queue[1..];
      if current in processed {
        SkipHead(waiting, found, processed, visited, initial, limit, maxSitemaps, fetch);
        continue;
      }
      queue, found, processed, visited := VisitSitemap(current, queue, found, processed, visited, limit, maxSitemaps, initial, waiting, fetch);
      checked := checked + 1;
    }
    WalkDone(queue, found, processed, visited, limit, maxSitemaps, fetch);
    if |found| < limit && |visited| < maxSitemaps {
      ChildrenSeenDone(visited, queue, fetch);
    }
  }

  /** The work on a sitemap taken from the head of the queue and not yet
      processed: check it, and keep every found URL sourced, every queued
      and visited sitemap reached, every visited urlset collected and every
      listed child seen, now that it is visited. */
  method VisitSitemap(current: string, queue: seq<string>, found: set<string>, processed: set<string>, visited: seq<string>,
                      limit: int, ghost maxSitemaps: int, ghost initial: string, ghost waiting: seq<string>, fetch: string -> Fetched)
    returns (queue': seq<string>, found': set<string>, processed': set<string>, visited': seq<string>)
    requires waiting != [] && current == waiting[0] && queue == waiting[1..] && |visited| < maxSitemaps
    requires current !in processed && forall s :: s in processed <==> s in visited
    requires NoDuplicates(visited)
    requires |found| < limit
    requires Sourced(found, visited, fetch) && AllCollected(found, visited, fetch)
    requires Reached(waiting, initial, visited, fetch) && Reached(visited, initial, visited, fetch)
    requires ChildrenSeen(visited, waiting, fetch)
    ensures processed' == processed + {current} && visited' == visited + [current]
    ensures (queue', found') == CheckOutcome(current, queue, found, processed', limit, fetch)
    ensures Walk(waiting, found, processed, visited, limit, maxSitemaps, fetch)
         == Walk(queue', found', processed', visited', limit, maxSitemaps, fetch)
    ensures forall s :: s in processed' <==> s in visited'
    ensures NoDuplicates(visited')
    ensures found <= found' && |found'| <= limit
    ensures Sourced(found', visited', fetch)
    ensures Reached(queue', initial, visited', fetch) && Reached(visited', initial, visited', fetch)
    ensures |found'| < limit ==> AllCollected(found', visited', fetch)
    ensures ChildrenSeen(visited', queue', fetch)
  {
    processed' := processed + {current};
    visited' := visited + [current];
    assert NoDuplicates(visited') by {
      assert current !in visited;
    }
    assert Sourced(found, visited', fetch) && Reached(queue, initial, visited', fetch)
      && Reached(visited', initial, visited', fetch) by {
      ReachedPop(waiting, initial, visited, fetch);
      VisitKeeps(found, queue, initial, visited, fetch, current);
      VisitKeeps(found, visited, initial, visited, fetch, current);
      ReachedAppend(visited, current, initial, visited', fetch);
    }
    queue', found' := CheckSitemap(current, queue, found, processed', limit, initial, visited', fetch);
    assert |found'| < limit ==> AllCollected(found', visited', fetch) by {
      if |found'| < limit {
        CollectedKeeps(found, found', visited, current, fetch);
      }
    }
    ChildrenSeenVisit(visited, waiting, queue', fetch);
    WalkVisit(waiting, found, processed, visited, queue', found', limit, maxSitemaps, fetch);
  }

  /** Every child listed by a visited index is visited or still queued. */
  ghost predicate ChildrenSeen(visited: seq<string>, queue: seq<string>, fetch: string -> Fetched) {
    forall t, q :: t in visited && ListsChild(fetch(t), q) ==> q in visited || q in queue
  }

  /** Every child listed by a visited index is visited itself. */
  ghost predicate ChildrenVisited(visited: seq<string>, fetch: string -> Fetched) {
    forall t, q :: t in visited && ListsChild(fetch(t), q) ==> q in visited
  }

  /** With nothing left in the queue, every listed child was visited. */
  lemma ChildrenSeenDone(visited: seq<string>, queue: seq<string>, fetch: string -> Fetched)
    requires queue == [] && ChildrenSeen(visited, queue, fetch)
    ensures ChildrenVisited(visited, fetch)
  {
  }

  /** Popping a sitemap that was already visited loses no child. */
  lemma ChildrenSeenPop(visited: seq<string>, queue: seq<string>, fetch: string -> Fetched)
    requires queue != [] && queue[0] in visited && ChildrenSeen(visited, queue, fetch)
    ensures ChildrenSeen(visited, queue[1..], fetch)
  {
    forall t, q | t in visited && ListsChild(fetch(t), q) ensures q in visited || q in queue[1..] {
      if q !in visited {
        assert q in queue && q != queue[0];
        assert q in queue[1..];
      }
    }
  }

  /** Visiting the head of the queue loses no child when the queue keeps
      the rest and every child the head lists is visited or queued. */
  lemma ChildrenSeenVisit(before: seq<string>, queue: seq<string>, queue': seq<string>, fetch: string -> Fetched)
    requires queue != [] && ChildrenSeen(before, queue, fetch)
    requires forall q :: q in queue[1..] ==> q in queue'
    requires forall q :: ListsChild(fetch(queue[0]), q) ==> q in before + [queue[0]] || q in queue'
    ensures ChildrenSeen(before + [queue[0]], queue', fetch)
  {
    var visited := before + [queue[0]];
    forall t, q | t in visited && ListsChild(fetch(t), q) ensures q in visited || q in queue' {
      if t != queue[0] {
        assert t in before;
        assert q in before || q in queue;
        if q !in before && q != queue[0] {
          assert q in queue[1..];
        }
      }
    }
  }

  /** Every accepted URL of every visited urlset is in `found`. */
  predicate AllCollected(found: set<string>, visited: seq<string>, fetch: string -> Fetched) {
    forall t :: t in visited && fetch(t).UrlSet? ==> CollectedUpTo(found, fetch(t).entries, |fetch(t).entries|)
  }

  /** Growing `found` keeps the visited urlsets collected, and the one just
      checked joins them once its URLs are in. */
  lemma CollectedKeeps(foundBefore: set<string>, found: set<string>, before: seq<string>, current: string, fetch: string -> Fetched)
    requires foundBefore <= found && AllCollected(foundBefore, before, fetch)
    requires fetch(current).UrlSet? ==> CollectedUpTo(found, fetch(current).entries, |fetch(current).entries|)
    ensures AllCollected(found, before + [current], fetch)
  {
    forall t | t in before + [current] && fetch(t).UrlSet?
      ensures CollectedUpTo(found, fetch(t).entries, |fetch(t).entries|)
    {
      if t != current {
        assert t in before;
        assert CollectedUpTo(foundBefore, fetch(t).entries, |fetch(t).entries|);
      }
    }
  }

  /** The work on one newly processed sitemap: a sitemap index extends the
      queue, a urlset adds article URLs, a failure changes nothing. */
  method CheckSitemap(current: string, queue: seq<string>, found: set<string>, processed: set<string>, limit: int,
                      ghost initial: string, ghost visited: seq<string>, fetch: string -> Fetched)
    returns (queue': seq<string>, found': set<string>)
    requires current in visited && |found| < limit
    requires Sourced(found, visited, fetch) && Reached(queue, initial, visited, fetch)
    ensures found <= found' && |found'| <= limit
    ensures !fetch(current).UrlSet? ==> found' == found
    ensures !fetch(current).SitemapIndex? ==> queue' == queue
    ensures fetch(current).SitemapIndex? ==> queue' == queue + NewChildren(fetch(current).children, processed)
    ensures fetch(current).UrlSet? ==> found' == CollectFrom(found, fetch(current).entries, limit)
    ensures (queue', found') == CheckOutcome(current, queue, found, processed, limit, fetch)
    ensures fetch(current).UrlSet? ==> found' <= found + AcceptedLocs(fetch(current).entries, |fetch(current).entries|)
    ensures fetch(current).UrlSet? && |found'| < limit ==> CollectedUpTo(found', fetch(current).entries, |fetch(current).entries|)
    ensures Sourced(found', visited, fetch) && Reached(queue', initial, visited, fetch)
    ensures forall q :: q in queue ==> q in queue'
    ensures forall q :: ListsChild(fetch(current), q) ==> q in processed || q in queue'
  {
    queue', found' := queue, found;
    match fetch(current) {
      case FetchFailed =>
      case SitemapIndex(children) =>
        queue' := EnqueueChildren(queue, children, processed, initial, visited, fetch, current);
        forall q | ListsChild(fetch(current), q) ensures q in processed || q in queue' {
          NewChildrenMembers(children, processed, q);
        }
      case UrlSet(entries) =>
        ghost var scanned;
        found', scanned := CollectUrls(found, entries, limit, visited, fetch, current);
        TakenGrow(Locs(entries), scanned, |entries|, IsArticleUrl);
    }
  }

  /** The children an index adds to the queue: the stripped `<loc>` of
      each entry that has one, unless already processed, in entry order. */
  function NewChildren(children: seq<Option<string>>, processed: set<string>): seq<string> {
    if children == [] then []
    else
      var loc := LocText(children[|children| - 1]);
      NewChildren(children[..|children| - 1], processed)
        + (if loc.Some? && loc.value !in processed then [loc.value] else [])
  }

  /** A child is queued exactly when the index lists it and it was not yet processed. */
  lemma {:induction false} NewChildrenMembers(children: seq<Option<string>>, processed: set<string>, q: string)
    ensures q in NewChildren(children, processed) <==> q !in processed && Some(q) in Locs(children)
  {
    if children != [] {
      var n := |children| - 1;
      var init := children[..n];
      var loc := LocText(children[n]);
      NewChildrenMembers(init, processed, q);
      assert q in NewChildren(children, processed) <==> q in NewChildren(init, processed) || (loc == Some(q) && q !in processed);
      assert Some(q) in Locs(children) <==> Some(q) in Locs(init) || loc == Some(q) by {
        LocsSnoc(children);
      }
    }
  }

  lemma LocsSnoc(entries: seq<Option<string>>)
    requires entries != []
    ensures Locs(entries) == Locs(entries[..|entries| - 1]) + [LocText(entries[|entries| - 1])]
  {
    var n := |entries| - 1;
    var a := Locs(entries);
    var init := Locs(entries[..n]);
    var b := init + [LocText(entries[n])];
    assert |a| == |b|;
    forall k | 0 <= k < |a| ensures a[k] == b[k] {
      if k < n {
        assert b[k] == init[k] == LocText(entries[..n][k]);
        assert entries[..n][k] == entries[k];
      } else {
        assert b[k] == LocText(entries[n]);
      }
    }
  }

  /** The loop over an index's children: each stripped `<loc>` not yet
      processed joins the end of the queue. */
  method EnqueueChildren(queue: seq<string>, children: seq<Option<string>>, processed: set<string>,
                         ghost initial: string, ghost visited: seq<string>, ghost fetch: string -> Fetched, ghost current: string)
    returns (queue': seq<string>)
    requires current in visited && fetch(current) == SitemapIndex(children)
    requires Reached(queue, initial, visited, fetch)
    ensures queue' == queue + NewChildren(children, processed)
    ensures Reached(queue', initial, visited, fetch)
  {
    queue' := queue;
    for j := 0 to |children|
      invariant queue' == queue + NewChildren(children[..j], processed)
    {
      ghost var before := queue';
      match children[j] {
        case None =>
        case Some(loc) =>
          var child := Strip(loc);
          if child !in processed {
            queue' := queue' + [child];
          }
      }
      assert queue' == queue + NewChildren(children[..j + 1], processed) by {
        var loc := LocText(children[j]);
        assert children[..j + 1][..j] == children[..j];
        assert NewChildren(children[..j + 1], processed)
          == NewChildren(children[..j], processed) + (if loc.Some? && loc.value !in processed then [loc.value] else []);
        assert queue' == before + (if loc.Some? && loc.value !in processed then [loc.value] else []);
      }
    }
    assert children[..|children|] == children;
    assert Reached(queue', initial, visited, fetch) by {
      forall q | q in queue' && q != initial ensures exists t :: t in visited && ListsChild(fetch(t), q) {
        if q !in queue {
          assert q in NewChildren(children, processed);
          NewChildrenMembers(children, processed, q);
          assert ListsChild(fetch(current), q);
        }
      }
    }
  }

  /** Entry `k` has a `<loc>` whose stripped text passes the filter. */
  predicate AcceptedAt(entries: seq<Option<string>>, k: int)
    requires 0 <= k < |entries|
  {
    LocText(entries[k]).Some? && IsArticleUrl(LocText(entries[k]).value)
  }

  /** Every accepted URL among the first `n` entries is in `found`. */
  predicate CollectedUpTo(found: set<string>, entries: seq<Option<string>>, n: int)
    requires 0 <= n <= |entries|
  {
    forall k :: 0 <= k < n && AcceptedAt(entries, k) ==> LocText(entries[k]).value in found
  }

  /** The `Some` values among the first `n` of `locs` that `keep` takes. */
  ghost function Taken(locs: seq<Option<string>>, n: int, keep: string -> bool): set<string>
    requires 0 <= n <= |locs|
  {
    if n == 0 then {}
    else
      Taken(locs, n - 1, keep) + (if locs[n - 1].Some? && keep(locs[n - 1].value) then {locs[n - 1].value} else {})
  }

  /** Every value among the first `n` of `locs` that `keep` takes is taken. */
  lemma {:induction false} TakenComplete(locs: seq<Option<string>>, n: int, keep: string -> bool, k: int)
    requires 0 <= k < n <= |locs|
    requires locs[k].Some? && keep(locs[k].value)
    ensures locs[k].value in Taken(locs, n, keep)
  {
    if k < n - 1 {
      TakenComplete(locs, n - 1, keep, k);
    }
  }

  /** And only those are: each is taken by `keep` and is one of `locs`. */
  lemma {:induction false} TakenSound(locs: seq<Option<string>>, n: int, keep: string -> bool, u: string)
    requires 0 <= n <= |locs| && u in Taken(locs, n, keep)
    ensures keep(u) && Some(u) in locs
  {
    if u in Taken(locs, n - 1, keep) {
      TakenSound(locs, n - 1, keep, u);
    } else {
      assert locs[n - 1] == Some(u);
    }
  }

  /** What a prefix takes, a longer prefix takes too. */
  lemma {:induction false} TakenGrow(locs: seq<Option<string>>, n: int, m: int, keep: string -> bool)
    requires 0 <= n <= m <= |locs|
    ensures Taken(locs, n, keep) <= Taken(locs, m, keep)
    decreases m
  {
    if n < m {
      TakenGrow(locs, n, m - 1, keep);
    }
  }

  /** The accepted URLs among the first `n` entries. */
  ghost function AcceptedLocs(entries: seq<Option<string>>, n: int): set<string>
    requires 0 <= n <= |entries|
  {
    Taken(Locs(entries), n, IsArticleUrl)
  }

  /** One more entry adds its URL when it is accepted. */
  lemma AcceptedLocsStep(entries: seq<Option<string>>, j: int)
    requires 0 <= j < |entries|
    ensures AcceptedLocs(entries, j + 1)
      == AcceptedLocs(entries, j) + (if AcceptedAt(entries, j) then {LocText(entries[j]).value} else {})
  {
    assert Locs(entries)[j] == LocText(entries[j]);
  }

  /** What one entry adds keeps `found` equal to the start plus the accepted
      URLs of the prefix scanned so far. */
  lemma CollectStep(start: set<string>, found: set<string>, found': set<string>, entries: seq<Option<string>>, j: int, limit: int)
    requires 0 <= j < |entries| && found == start + AcceptedLocs(entries, j) && |found| < limit
    requires AcceptedAt(entries, j) ==> found' == found + {LocText(entries[j]).value}
    requires !AcceptedAt(entries, j) ==> found' == found
    ensures found' == start + AcceptedLocs(entries, j + 1)
  {
    AcceptedLocsStep(entries, j);
  }

  /** Adding the accepted URLs of any prefix shorter than `n` to `found`
      leaves it below `limit`. */
  ghost predicate StaysBelow(found: set<string>, entries: seq<Option<string>>, n: int, limit: int)
    requires 0 <= n <= |entries|
  {
    forall m :: 0 <= m < n ==> |found + AcceptedLocs(entries, m)| < limit
  }

  lemma StaysBelowStep(found: set<string>, entries: seq<Option<string>>, n: int, limit: int)
    requires 0 <= n < |entries| && StaysBelow(found, entries, n, limit)
    requires |found + AcceptedLocs(entries, n)| < limit
    ensures StaysBelow(found, entries, n + 1, limit)
  {
  }

  /** Holding the accepted URLs of the first `n` entries is being collected
      up to `n`. */
  lemma AcceptedLocsCollected(found: set<string>, entries: seq<Option<string>>, n: int)
    requires 0 <= n <= |entries| && AcceptedLocs(entries, n) <= found
    ensures CollectedUpTo(found, entries, n)
  {
    forall k | 0 <= k < n && AcceptedAt(entries, k) ensures LocText(entries[k]).value in found {
      assert Locs(entries)[k] == LocText(entries[k]);
      TakenComplete(Locs(entries), n, IsArticleUrl, k);
    }
  }

  /** What the loop over a urlset's entries makes of `found`: it ends at the
      last entry or once `limit` URLs are found, and otherwise adds the
      entry's URL when it is accepted. */
  ghost function CollectFrom(found: set<string>, entries: seq<Option<string>>, limit: int): set<string> {
    TakeUntil(found, Locs(entries), 0, limit, IsArticleUrl)
  }

  /** From position `j` of `locs` on, add each value `keep` takes until the
      end or until `limit` values are held. */
  ghost function TakeUntil(found: set<string>, locs: seq<Option<string>>, j: nat, limit: int, keep: string -> bool): set<string>
    requires j <= |locs|
    decreases |locs| - j
  {
    if j == |locs| || |found| >= limit then found
    else TakeUntil(if locs[j].Some? && keep(locs[j].value) then found + {locs[j].value} else found, locs, j + 1, limit, keep)
  }

  /** `found` with the values taken among the first `n` of `locs`. */
  ghost function Held(found: set<string>, locs: seq<Option<string>>, n: nat, keep: string -> bool): set<string>
    requires n <= |locs|
  {
    found + Taken(locs, n, keep)
  }

  /** Every position from `j` to before `scanned` holds fewer than `limit`. */
  ghost predicate HeldBelow(found: set<string>, locs: seq<Option<string>>, j: nat, scanned: nat, limit: int, keep: string -> bool)
    requires j <= scanned <= |locs|
    decreases scanned - j
  {
    j == scanned || (|Held(found, locs, j, keep)| < limit && HeldBelow(found, locs, j + 1, scanned, limit, keep))
  }

  lemma {:induction false} HeldBelowFromAll(found: set<string>, locs: seq<Option<string>>, j: nat, scanned: nat, limit: int, keep: string -> bool)
    requires j <= scanned <= |locs|
    requires forall m :: j <= m < scanned ==> |Held(found, locs, m, keep)| < limit
    ensures HeldBelow(found, locs, j, scanned, limit, keep)
    decreases scanned - j
  {
    if j < scanned {
      HeldBelowFromAll(found, locs, j + 1, scanned, limit, keep);
    }
  }

  /** `TakeUntil` stops at the shortest prefix whose taken values bring
      `found` to `limit`, or at the end: from any earlier position `j` it
      adds the values taken before `scanned`. */
  lemma {:induction false} TakeUntilPrefix(found: set<string>, locs: seq<Option<string>>, j: nat, scanned: nat, limit: int, keep: string -> bool)
    requires j <= scanned <= |locs|
    requires HeldBelow(found, locs, j, scanned, limit, keep)
    requires scanned < |locs| ==> |Held(found, locs, scanned, keep)| >= limit
    ensures TakeUntil(Held(found, locs, j, keep), locs, j, limit, keep) == Held(found, locs, scanned, keep)
    decreases scanned - j
  {
    if j < scanned {
      HeldStep(found, locs, j, limit, keep);
      TakeUntilPrefix(found, locs, j + 1, scanned, limit, keep);
    }
  }

  /** One position below the limit moves `TakeUntil` from what is held
      before it to what is held after it. */
  lemma HeldStep(found: set<string>, locs: seq<Option<string>>, j: nat, limit: int, keep: string -> bool)
    requires j < |locs| && |Held(found, locs, j, keep)| < limit
    ensures TakeUntil(Held(found, locs, j, keep), locs, j, limit, keep)
         == TakeUntil(Held(found, locs, j + 1, keep), locs, j + 1, limit, keep)
  {
    var here := Held(found, locs, j, keep);
    var next := Held(found, locs, j + 1, keep);
    assert next == (if locs[j].Some? && keep(locs[j].value) then here + {locs[j].value} else here);
  }

  /** So the loop's result is the start plus the accepted URLs of that prefix. */
  lemma CollectFromIsPrefix(found: set<string>, entries: seq<Option<string>>, scanned: nat, limit: int)
    requires scanned <= |entries|
    requires StaysBelow(found, entries, scanned, limit)
    requires scanned < |entries| ==> |found + AcceptedLocs(entries, scanned)| >= limit
    ensures CollectFrom(found, entries, limit) == found + AcceptedLocs(entries, scanned)
  {
    var locs := Locs(entries);
    forall m | 0 <= m < scanned ensures |Held(found, locs, m, IsArticleUrl)| < limit {
      assert Held(found, locs, m, IsArticleUrl) == found + AcceptedLocs(entries, m);
    }
    HeldBelowFromAll(found, locs, 0, scanned, limit, IsArticleUrl);
    TakeUntilPrefix(found, locs, 0, scanned, limit, IsArticleUrl);
    assert Held(found, locs, 0, IsArticleUrl) == found;
  }

  /** The loop over a urlset's entries: each accepted URL is added while
      fewer than `limit` are found; the loop stops once `limit` are. So the
      result is `found` plus the accepted URLs of the shortest prefix of
      entries, `scanned` long, that brings it to `limit`, or of all entries
      when none does. */
  method CollectUrls(found: set<string>, entries: seq<Option<string>>, limit: int,
                     ghost visited: seq<string>, ghost fetch: string -> Fetched, ghost current: string)
    returns (found': set<string>, ghost scanned: nat)
    requires current in visited && fetch(current) == UrlSet(entries)
    requires |found| < limit
    requires Sourced(found, visited, fetch)
    ensures found' == CollectFrom(found, entries, limit)
    ensures scanned <= |entries| && found' == found + AcceptedLocs(entries, scanned)
    ensures scanned < |entries| ==> |found'| >= limit
    ensures StaysBelow(found, entries, scanned, limit)
    ensures found <= found' && |found'| <= limit
    ensures Sourced(found', visited, fetch)
    ensures |found'| < limit ==> CollectedUpTo(found', entries, |entries|)
  {
    found' := found;
    var j := 0;
    var stop := false;
    while j < |entries| && !stop
      invariant 0 <= j <= |entries|
      invariant found' == found + AcceptedLocs(entries, j) && |found'| <= limit
      invariant stop <==> |found'| >= limit
      invariant StaysBelow(found, entries, j, limit)
      invariant Sourced(found', visited, fetch)
    {
      found', stop := CollectEntry(found', entries, j, limit, visited, fetch, current, found);
      j := j + 1;
    }
    scanned := j;
    CollectFromIsPrefix(found, entries, scanned, limit);
    if stop {
      return;
    }
    AcceptedLocsCollected(found', entries, |entries|);
  }

  /** One entry of a urlset: an accepted URL is added while fewer than
      `limit` are found; `stop` says the loop is to end, which it is once
      `limit` URLs are found. */
  method CollectEntry(found: set<string>, entries: seq<Option<string>>, j: int, limit: int,
                      ghost visited: seq<string>, ghost fetch: string -> Fetched, ghost current: string,
                      ghost start: set<string>)
    returns (found': set<string>, stop: bool)
    requires 0 <= j < |entries|
    requires current in visited && fetch(current) == UrlSet(entries)
    requires |found| <= limit
    requires Sourced(found, visited, fetch)
    requires found == start + AcceptedLocs(entries, j) && StaysBelow(start, entries, j, limit)
    ensures AcceptedAt(entries, j) && |found| < limit ==> found' == found + {LocText(entries[j]).value}
    ensures !AcceptedAt(entries, j) || |found| >= limit ==> found' == found
    ensures |found'| <= limit
    ensures Sourced(found', visited, fetch)
    ensures stop <==> |found'| >= limit
    ensures |found| < limit ==> found' == start + AcceptedLocs(entries, j + 1) && StaysBelow(start, entries, j + 1, limit)
  {
    found' := found;
    match entries[j] {
      case None =>
        assert !AcceptedAt(entries, j);
      case Some(loc) =>
        var url := Strip(loc);
        assert AcceptedAt(entries, j) <==> IsArticleUrl(url);
        if IsArticleUrl(url) {
          if |found'| < limit {
            assert Sourced(found' + {url}, visited, fetch) by {
              assert Locs(entries)[j] == Some(url);
              SourcedAdd(found', visited, fetch, url, current);
            }
            CardAdd(found', url);
            found' := found' + {url};
          } else {
            return found', true;
          }
        }
    }
    stop := |found'| >= limit;
    if |found| < limit {
      CollectStep(start, found, found', entries, j, limit);
      StaysBelowStep(start, entries, j, limit);
    }
  }

  // ---------------------------------------------------------------------
  // The scraping loop of scrape_articles_from_site

  /** How many of `urls` the extractor saves. */
  function Successes(urls: seq<string>, extract: string -> bool): (n: nat)
    ensures n <= |urls|
  {
    if urls == [] then 0
    else Successes(urls[..|urls| - 1], extract) + (if extract(urls[|urls| - 1]) then 1 else 0)
  }

  /** The counting loop: every URL is counted as processed; once `limit`
      articles were saved the loop stops at the next URL; otherwise the URL
      is handed to `extract` and counted as a success or a failure. So
      every URL handed to `extract` had fewer than `limit` successes before
      it, and the loop stops at the first URL that did not. */
  method ScrapeArticles(urls: seq<string>, limit: int, extract: string -> bool)
    returns (success: nat, fail: nat, processed: nat)
    ensures success <= Max(limit, 0)
    ensures success + fail <= processed <= |urls|
    ensures success == Successes(urls[..success + fail], extract)
    ensures processed == success + fail + (if success + fail < |urls| then 1 else 0)
    ensures success + fail < |urls| ==> success == Max(limit, 0)
    ensures success + fail > 0 ==> Successes(urls[..success + fail - 1], extract) < limit
  {
    success, fail, processed := 0, 0, 0;
    for i := 0 to |urls|
      invariant processed == i == success + fail
      invariant success <= Max(limit, 0)
      invariant success == Successes(urls[..i], extract)
      invariant i > 0 ==> Successes(urls[..i - 1], extract) < limit
    {
      processed := processed + 1;
      if success >= limit {
        break;
      }
      assert urls[..i + 1][..i] == urls[..i];
      if extract(urls[i]) {
        success := success + 1;
      } else {
        fail := fail + 1;
      }
    }
  }

  /** `list(article_urls_found)`: the set's elements in some order. */
  method ListOf(s: set<string>) returns (r: seq<string>)
    ensures |r| == |s| && NoDuplicates(r)
    ensures forall x :: x in r <==> x in s
  {
    r := [];
    var rest := s;
    while rest != {}
      invariant rest <= s
      invariant forall x :: x in r <==> x in s && x !in rest
      invariant NoDuplicates(r)
      invariant |r| + |rest| == |s|
      decreases |rest|
    {
      var x :| x in rest;
      r := r + [x];
      rest := rest - {x};
    }
  }

  /** What the URL-collection half of `scrape_articles_from_site` gives:
      `urls` lists, without repeats, the set `found` of at most `2 * limit`
      accepted URLs, each listed by a sitemap in `visited`, a walk from
      `sitemap` of at most `maxSitemaps` sitemaps that starts there when
      both limits are positive; when fewer than `2 * limit` were found,
      every accepted URL those sitemaps list; and when neither limit was
      reached, every child of every visited index was visited too. Above
      all, `found` and `visited` are exactly what `Walk` gives, so the
      URLs kept and the sitemaps checked are the first ones in queue and
      document order. */
  ghost predicate ArticlesListed(urls: seq<string>, found: set<string>, visited: seq<string>, sitemap: string,
                                 limit: int, maxSitemaps: int, fetch: string -> Fetched)
  {
    && (forall u :: u in urls <==> u in found)
    && |urls| == |found| <= Max(limit * 2, 0) && NoDuplicates(urls)
    && Sourced(found, visited, fetch) && Reached(visited, sitemap, visited, fetch)
    && |visited| <= Max(maxSitemaps, 0) && NoDuplicates(visited)
    && (|found| < limit * 2 ==> AllCollected(found, visited, fetch))
    && (limit * 2 > 0 && maxSitemaps > 0 ==> |visited| > 0 && visited[0] == sitemap)
    && (|found| < limit * 2 && |visited| < maxSitemaps ==> ChildrenVisited(visited, fetch))
    && (found, visited) == Walk([sitemap], {}, {}, [], limit * 2, maxSitemaps, fetch)
  }

  /** A walk over one urlset keeps its first accepted URLs: with room for
      two, a urlset whose `<loc>`s are `[a, b, c]` gives `{a, b}`. */
  lemma WalkKeepsFirst(sitemap: string, a: string, b: string, c: string, fetch: string -> Fetched)
    requires fetch(sitemap).UrlSet? && Locs(fetch(sitemap).entries) == [Some(a), Some(b), Some(c)]
    requires a != b && IsArticleUrl(a) && IsArticleUrl(b)
    ensures Walk([sitemap], {}, {}, [], 2, 1, fetch) == ({a, b}, [sitemap])
  {
    TakeFirstTwo(Locs(fetch(sitemap).entries), a, b, IsArticleUrl);
    WalkOneUrlset(sitemap, 2, fetch);
  }

  /** A walk allowed one sitemap, from a urlset, collects that urlset alone. */
  lemma WalkOneUrlset(sitemap: string, limit: int, fetch: string -> Fetched)
    requires fetch(sitemap).UrlSet? && limit > 0
    ensures Walk([sitemap], {}, {}, [], limit, 1, fetch) == (CollectFrom({}, fetch(sitemap).entries, limit), [sitemap])
  {
    var none: set<string> := {};
    assert none + {sitemap} == {sitemap};
    var found := CollectFrom({}, fetch(sitemap).entries, limit);
    var empty: seq<string> := [];
    assert [sitemap][1..] == empty && empty + [sitemap] == [sitemap];
    assert CheckOutcome(sitemap, [], {}, {sitemap}, limit, fetch) == ([], found);
    WalkVisit([sitemap], {}, {}, [], [], found, limit, 1, fetch);
    WalkDone([], found, {sitemap}, [sitemap], limit, 1, fetch);
  }

  /** With room for two, the first two values taken are kept. */
  lemma TakeFirstTwo(locs: seq<Option<string>>, a: string, b: string, keep: string -> bool)
    requires |locs| == 3 && locs[0] == Some(a) && locs[1] == Some(b)
    requires a != b && keep(a) && keep(b)
    ensures TakeUntil({}, locs, 0, 2, keep) == {a, b}
  {
    assert |{a, b}| == 2;
    assert TakeUntil({a, b}, locs, 2, 2, keep) == {a, b};
    assert {a} + {b} == {a, b};
    assert TakeUntil({a}, locs, 1, 2, keep) == TakeUntil({a, b}, locs, 2, 2, keep);
    var none: set<string> := {};
    assert none + {a} == {a};
  }

  /** Sitemaps are checked in queue order: with room for two, an index
      whose `<loc>`s are `[x, y]` is followed by `x`, not `y`. */
  lemma WalkChecksInOrder(sitemap: string, x: string, y: string, limit: int, fetch: string -> Fetched)
    requires fetch(sitemap).SitemapIndex? && |fetch(sitemap).children| == 2
    requires LocText(fetch(sitemap).children[0]) == Some(x) && LocText(fetch(sitemap).children[1]) == Some(y)
    requires x != sitemap && y != sitemap && limit > 0
    ensures Walk([sitemap], {}, {}, [], limit, 2, fetch).1 == [sitemap, x]
  {
    NewChildrenPair(fetch(sitemap).children, x, y, sitemap);
    WalkIndexFirst(sitemap, [x, y], limit, fetch);
    WalkSecondLast([x, y], sitemap, limit, fetch);
  }

  /** A walk from an index checks it first and queues its new children. */
  lemma WalkIndexFirst(sitemap: string, children: seq<string>, limit: int, fetch: string -> Fetched)
    requires fetch(sitemap).SitemapIndex? && NewChildren(fetch(sitemap).children, {sitemap}) == children && limit > 0
    ensures Walk([sitemap], {}, {}, [], limit, 2, fetch) == Walk(children, {}, {sitemap}, [sitemap], limit, 2, fetch)
  {
    var none: set<string> := {};
    var empty: seq<string> := [];
    assert none + {sitemap} == {sitemap};
    assert [sitemap][1..] == empty && empty + [sitemap] == [sitemap] && empty + children == children;
    assert CheckOutcome(sitemap, [], {}, {sitemap}, limit, fetch) == (children, {});
    WalkVisit([sitemap], {}, {}, [], children, {}, limit, 2, fetch);
  }

  /** With room for two sitemaps, the second checked is the head of the queue. */
  lemma WalkSecondLast(queue: seq<string>, sitemap: string, limit: int, fetch: string -> Fetched)
    requires queue != [] && queue[0] != sitemap && limit > 0
    ensures Walk(queue, {}, {sitemap}, [sitemap], limit, 2, fetch).1 == [sitemap, queue[0]]
  {
    var next := CheckOutcome(queue[0], queue[1..], {}, {sitemap} + {queue[0]}, limit, fetch);
    WalkVisit(queue, {}, {sitemap}, [sitemap], next.0, next.1, limit, 2, fetch);
    WalkDone(next.0, next.1, {sitemap} + {queue[0]}, [sitemap] + [queue[0]], limit, 2, fetch);
  }

  /** An index listing `x` then `y`, neither processed, queues both in order. */
  lemma NewChildrenPair(children: seq<Option<string>>, x: string, y: string, sitemap: string)
    requires |children| == 2 && LocText(children[0]) == Some(x) && LocText(children[1]) == Some(y)
    requires x != sitemap && y != sitemap
    ensures NewChildren(children, {sitemap}) == [x, y]
  {
    var first := children[..1];
    NewChildrenOne(first, x, {sitemap});
    assert NewChildren(children, {sitemap}) == NewChildren(first, {sitemap}) + [y];
  }

  lemma NewChildrenOne(first: seq<Option<string>>, x: string, processed: set<string>)
    requires |first| == 1 && LocText(first[0]) == Some(x) && x !in processed
    ensures NewChildren(first, processed) == [x]
  {
    assert first[..0] == [];
  }

  /** A walk limited to one sitemap, from a urlset listing one accepted URL,
      lists exactly that URL. */
  lemma SingleUrlsetListed(urls: seq<string>, found: set<string>, visited: seq<string>, sitemap: string,
                           u: string, limit: int, fetch: string -> Fetched)
    requires fetch(sitemap) == UrlSet([Some(u)]) && IsArticleUrl(u) && Strip(u) == u
    requires limit >= 1
    requires ArticlesListed(urls, found, visited, sitemap, limit, 1, fetch)
    ensures urls == [u]
  {
    assert |visited| <= 1 && |visited| > 0 && visited[0] == sitemap;
    SingleVisit(visited, sitemap);
    SingleLoc(u);
    OnlyUrlListed(found, visited, sitemap, u, fetch);
    assert |found| < limit * 2 by { CardAtMostOne(found, u); }
    OnlyUrlCollected(found, visited, sitemap, u, fetch);
    ListsOnly(urls, found, u);
  }

  /** A walk that checked one sitemap, the first, checked only it. */
  lemma SingleVisit(visited: seq<string>, sitemap: string)
    requires 0 < |visited| <= 1 && visited[0] == sitemap
    ensures visited == [sitemap]
  {
  }

  /** A list without repeats of the set `{u}` is `[u]`. */
  lemma ListsOnly(urls: seq<string>, found: set<string>, u: string)
    requires forall x :: x in urls <==> x in found
    requires |urls| == |found| && found <= {u} && u in found
    ensures urls == [u]
  {
    assert found == {u};
    assert |urls| == 1;
    assert urls[0] in found;
  }

  /** What a walk over one urlset listing `u` alone can have found. */
  lemma OnlyUrlListed(found: set<string>, visited: seq<string>, sitemap: string, u: string, fetch: string -> Fetched)
    requires visited == [sitemap] && fetch(sitemap).UrlSet? && Locs(fetch(sitemap).entries) == [Some(u)]
    requires AllListed(found, visited, fetch)
    ensures found <= {u}
  {
    forall x | x in found ensures x == u {
      var t :| t in visited && ListsUrl(fetch(t), x);
      assert t == sitemap;
    }
  }

  /** An entry whose `<loc>` is already stripped lists that text. */
  lemma SingleLoc(u: string)
    requires Strip(u) == u
    ensures Locs([Some(u)]) == [Some(u)]
  {
    assert Locs([Some(u)])[0] == LocText(Some(u));
  }

  /** The accepted URL of a visited urlset is found. */
  lemma OnlyUrlCollected(found: set<string>, visited: seq<string>, sitemap: string, u: string, fetch: string -> Fetched)
    requires visited == [sitemap] && fetch(sitemap) == UrlSet([Some(u)]) && IsArticleUrl(u) && Strip(u) == u
    requires AllCollected(found, visited, fetch)
    ensures u in found
  {
    var entries := [Some(u)];
    assert sitemap in visited;
    assert CollectedUpTo(found, entries, 1);
    assert LocText(entries[0]) == Some(u);
    assert AcceptedAt(entries, 0);
  }

  /** A subset of a singleton has at most one element. */
  lemma CardAtMostOne(s: set<string>, u: string)
    requires s <= {u}
    ensures |s| <= 1
  {
    if u in s {
      assert s == {u};
    } else {
      assert s == {};
    }
  }

  /** The URL-collection half of `scrape_articles_from_site`: the walk is
      asked for `2 * limit` article URLs, and its set is listed. */
  method ArticleList(sitemap: string, limit: int, maxSitemaps: int, fetch: string -> Fetched)
    returns (urls: seq<string>, ghost found: set<string>, ghost visited: seq<string>)
    ensures ArticlesListed(urls, found, visited, sitemap, limit, maxSitemaps, fetch)
  {
    var articleUrls, checked := GetArticleUrls(sitemap, limit * 2, maxSitemaps, fetch);
    found, visited := articleUrls, checked;
    urls := ListOf(articleUrls);
  }

  /** `scrape_articles_from_site`: collect up to `2 * limit` article URLs,
      stop when there are none, and otherwise scrape them until `limit`
      were saved. `urls` is the list scraped; `found` and `visited` are what
      the sitemap walk gave. */
  method ScrapeSite(sitemap: string, limit: int, maxSitemaps: int, fetch: string -> Fetched, extract: string -> bool)
    returns (urls: seq<string>, success: nat, fail: nat, processed: nat, ghost found: set<string>, ghost visited: seq<string>)
    ensures ArticlesListed(urls, found, visited, sitemap, limit, maxSitemaps, fetch)
    ensures urls == [] ==> success == 0 && fail == 0 && processed == 0
    ensures success <= Max(limit, 0)
    ensures success + fail <= processed <= |urls|
    ensures success == Successes(urls[..success + fail], extract)
    ensures processed == success + fail + (if success + fail < |urls| then 1 else 0)
    ensures success + fail < |urls| ==> success == Max(limit, 0)
    ensures success + fail > 0 ==> Successes(urls[..success + fail - 1], extract) < limit
  {
    urls, found, visited := ArticleList(sitemap, limit, maxSitemaps, fetch);
    success, fail, processed := ScrapeUrls(urls, limit, extract);
  }

  /** The scraping half of `scrape_articles_from_site`: nothing is counted
      for an empty list, otherwise the counts are the scraping loop's. */
  method ScrapeUrls(urls: seq<string>, limit: int, extract: string -> bool)
    returns (success: nat, fail: nat, processed: nat)
    ensures urls == [] ==> success == 0 && fail == 0 && processed == 0
    ensures success <= Max(limit, 0)
    ensures success + fail <= processed <= |urls|
    ensures success == Successes(urls[..success + fail], extract)
    ensures processed == success + fail + (if success + fail < |urls| then 1 else 0)
    ensures success + fail < |urls| ==> success == Max(limit, 0)
    ensures success + fail > 0 ==> Successes(urls[..success + fail - 1], extract) < limit
  {
    if urls == [] {
      success, fail, processed := 0, 0, 0;
      assert urls[..0] == [];
      assert Successes([], extract) == 0;
    } else {
      success, fail, processed := ScrapeArticles(urls, limit, extract);
    }
  }

  /** Adding a listed, accepted URL keeps every found URL sourced. */
  lemma SourcedAdd(found: set<string>, visited: seq<string>, fetch: string -> Fetched, url: string, t: string)
    requires Sourced(found, visited, fetch)
    requires IsArticleUrl(url) && t in visited && ListsUrl(fetch(t), url)
    ensures Sourced(found + {url}, visited, fetch)
  {
    AcceptedAdd(found, url);
    ListedAdd(found, visited, fetch, url, t);
  }

  lemma CardAdd(s: set<string>, x: string)
    ensures |s + {x}| <= |s| + 1
  {
    if x in s {
      assert s + {x} == s;
    }
  }

  lemma AcceptedAdd(found: set<string>, url: string)
    requires AllAccepted(found) && IsArticleUrl(url)
    ensures AllAccepted(found + {url})
  {
  }

  lemma ListedAdd(found: set<string>, visited: seq<string>, fetch: string -> Fetched, url: string, t: string)
    requires AllListed(found, visited, fetch)
    requires t in visited && ListsUrl(fetch(t), url)
    ensures AllListed(found + {url}, visited, fetch)
  {
  }

  /** Visiting one more sitemap keeps what was sourced and reached. */
  lemma VisitKeeps(found: set<string>, queue: seq<string>, initial: string, visited: seq<string>, fetch: string -> Fetched, v: string)
    requires Sourced(found, visited, fetch)
    requires Reached(queue, initial, visited, fetch)
    ensures Sourced(found, visited + [v], fetch)
    ensures Reached(queue, initial, visited + [v], fetch)
  {
    forall u | u in found ensures exists t :: t in visited + [v] && ListsUrl(fetch(t), u) {
      var t :| t in visited && ListsUrl(fetch(t), u);
      assert t in visited + [v];
    }
    assert AllListed(found, visited + [v], fetch);
    forall q | q in queue && q != initial ensures exists t :: t in visited + [v] && ListsChild(fetch(t), q) {
      var t :| t in visited && ListsChild(fetch(t), q);
      assert t in visited + [v];
    }
  }

  /** The head of a reached queue is reached, and so is the rest. */
  lemma ReachedPop(queue: seq<string>, initial: string, visited: seq<string>, fetch: string -> Fetched)
    requires queue != [] && Reached(queue, initial, visited, fetch)
    ensures Reached(queue[1..], initial, visited, fetch)
    ensures Reached([queue[0]], initial, visited, fetch)
  {
    assert forall q :: q in queue[1..] ==> q in queue;
    assert queue[0] in queue;
    forall q | q in [queue[0]] ensures q == initial || exists t :: t in visited && ListsChild(fetch(t), q) {
      assert q == queue[0];
    }
  }

  /** Appending a reached sitemap keeps a sequence reached. */
  lemma ReachedAppend(qs: seq<string>, q: string, initial: string, visited: seq<string>, fetch: string -> Fetched)
    requires Reached(qs, initial, visited, fetch) && Reached([q], initial, visited, fetch)
    ensures Reached(qs + [q], initial, visited, fetch)
  {
    forall x | x in qs + [q] ensures x == initial || exists t :: t in visited && ListsChild(fetch(t), x) {
      if x != q {
        assert x in qs;
      } else {
        assert x in [q];
      }
    }
  }
}
