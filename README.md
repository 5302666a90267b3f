# FTP-to-M3U core, modelled in Dafny

FTP-to-M3U is a small Express service (`app.js`). It turns the HTML index
page of an FTP/HTTP folder into an M3U playlist of the video files that page
links to. This project models the logic of that service, with HTTP, HTML
parsing and networking taken out, and proves what the service promises.

- **Classifier** (`classifier.dfy`): `looksLikeVideo` and the fixed
  extension list `VIDEO_EXTS`. It includes the parts of Node's `path`
  module the service relies on, written out on POSIX paths as Node's own
  code works:
  - `path.extname`: trailing separators are ignored; a segment whose only
    dot is its first character has no extension; neither has `..`.
  - `path.basename`.
- **Extraction** (`extraction.dfy`): the `$('a').each` loop. It skips
  missing, empty, `../` and `/` hrefs, resolves the rest against the folder
  URL, keeps video URLs, and pushes `{ href, name }`.
  - `name` is the decoded basename.
  - `decodeURIComponent` can throw `URIError: URI malformed`, and so can
    `url.resolve`: its `url.parse` decodes the user-info part of a URL.
    Either error escapes the loop, rejects `fetchFolderLinks`, and the
    route answers 500. The model follows this path.
- **Dedup** (`dedup.dfy`): the loop with the `seen` set and the `uniq`
  array. It is proved equal to a first-occurrence specification.
- **Ordering** (`ordering.dfy`): `uniq.sort(...)` by `name`. It is an
  in-place insertion sort over an `array`, proved equal to a functional
  stable insertion sort. That sort is a permutation, and it is sorted when
  the comparator is a total preorder.
- **Playlist** (`playlist.dfy`): `buildM3U`, its exact line shape, and
  `ParsePlaylist`. `ParsePlaylist` is proved to be its exact inverse on
  entries without line feeds.
- **Handlers** (`handlers.dfy`): `fetchFolderLinks` as a whole, and the
  body shared by `/generate` and `/download`. That body gives:
  - 400 with no fetch when `url` is missing or empty;
  - 500 with `Error: <message>`;
  - 404 with `No video files found.`;
  - 200 with the playlist.

The calls the model does not interpret are fields of
`Extraction.Library`, and every theorem holds for all of them:
- the HTTP GET with HTML parsing, reduced to the list of anchor `href`s;
- `url.resolve`, with `None` when it throws;
- `new URL(href, 'http://example.com').pathname`, with `None` when it throws;
- `decodeURIComponent`, with `None` when it throws;
- the `localeCompare` comparator.

`looksLikeVideo` parses with the fixed base `http://example.com`
(app.js:15), and it is given the already resolved URL `full` (app.js:37).
The model therefore makes the pathname a function of that URL alone.

## Model

| member | source | states |
|---|---|---|
| Classifier.LooksLikeVideo | app.js:13-20 | false when URL parsing fails. Otherwise true exactly when the lower-cased pathname ends, inside its last segment, in one of the nine listed extensions after at least one more character of that segment |
| Classifier.VideoExtIff | app.js:10-17 | `VIDEO_EXTS.includes(path.extname(p).toLowerCase())` holds exactly when `p` ends in a listed extension as read by the reference predicate `EndsWithVideoExt` |
| Classifier.CaseInsensitive | app.js:16-17 | two pathnames that differ only in ASCII letter case are classified alike |
| Classifier.VideoExtsPlain | app.js:10 | each listed extension is a dot followed by characters that are neither dot nor separator |
| Classifier.Lower | app.js:16 | `toLowerCase` keeps the length and maps each character on its own (ASCII letters to lower case, all else unchanged) |
| Classifier.LowerChar | app.js:16 | lower-casing keeps `.` and `/` and sends upper-case ASCII letters to lower case |
| Classifier.ExtnameShape | app.js:16 | `path.extname` is empty or the tail of the path before trailing separators that starts with its only dot, holds no separator, and follows another character of its segment |
| Classifier.ExtnameOfParts | app.js:16 | for a last segment `stem.tail` the extension is `.tail`, except for an empty stem (`.mp4`) and the segment `..` |
| Classifier.ExtnameNoDot | app.js:16 | a last segment without a dot has no extension |
| Classifier.ExtnameTrailingSlash | app.js:16 | a trailing separator does not change the extension |
| Classifier.Extname | app.js:16 | `path.extname`. Its properties are stated by `ExtnameShape`, `ExtnameOfParts`, `ExtnameNoDot`, `ExtnameTrailingSlash` and `VideoExtIff` |
| Classifier.Basename | app.js:38 | `path.basename` holds no separator |
| Classifier.SegmentStart | app.js:16 | the last segment starts after the last separator before the trailing ones |
| Classifier.TrimmedLength | app.js:16 | trailing separators are the ones cut off |
| Classifier.LastIndexBefore | app.js:16 | the last position of a character before a bound, or -1 |
| Extraction.Skipped | app.js:35 | the skip test: no `href`, `""`, `../` or `/`. Its property is stated by `SkippedAnchorIgnored` and `AnchorEntryCases` |
| Extraction.AnchorEntry | app.js:34-39 | the `.each` callback for one anchor. Its cases are stated by `AnchorEntryCases` |
| Extraction.AnchorEntryCases | app.js:35-39 | a skipped anchor yields nothing. An anchor whose `url.resolve` throws yields `URI malformed`. A resolved anchor that is not a video yields nothing. A video anchor yields `{ href: resolved, name: decoded basename }` or `URI malformed`. The step fails exactly when `AnchorThrows` holds |
| Extraction.CollectLinks | app.js:33-41 | the anchor loop computes the anchor pass (`Collected`). It stops at the first `href` that fails to resolve or name that fails to decode |
| Extraction.CollectedSound | app.js:35-39 | every pushed entry comes from an anchor that is not skipped and resolves to its href. The href is a video URL and the name is its decoded basename. There are no more entries than anchors |
| Extraction.CollectedComplete | app.js:35-39 | every anchor that resolves to a video URL has its entry pushed when the pass succeeds |
| Extraction.CollectedFails | app.js:36-38 | the pass fails exactly when some anchor that is not skipped fails to resolve, or is a video link whose basename does not decode, and its error is then `URI malformed` |
| Extraction.SkippedAnchorIgnored | app.js:35 | an anchor whose href is missing, empty, `../` or `/` can be removed from the page without changing the result |
| Extraction.FailureSticks | app.js:36-38 | once resolving or decoding throws, the later anchors change nothing |
| Extraction.PassSound | app.js:33-41 | each entry of a successful pass is some anchor's output |
| Extraction.PassComplete | app.js:33-41 | each anchor's output is in a successful pass |
| Extraction.PassFails | app.js:33-41 | a pass fails exactly when some step throws. Its error is then that of a throwing step before which every step succeeded, that is, the first one |
| Extraction.SilentStepIgnored | app.js:35-37 | an anchor that yields nothing can be dropped |
| Dedup.RemoveDuplicates | app.js:44-51 | the loop with `seen` and `uniq` returns the first-occurrence subsequence `FirstOccurrences(links)` |
| Dedup.FirstOccurrencesUnique | app.js:44-51 | no two kept entries have the same href |
| Dedup.FirstOccurrencesHrefs | app.js:46-50 | every href of `links` is kept and none is added |
| Dedup.FirstOccurrencesSubsequence | app.js:46-50 | the kept entries are a subsequence of `links`, in order, and no more than `links` |
| Dedup.FirstOccurrencesAreFirst | app.js:47-49 | each kept entry is the first entry of `links` with its href |
| Dedup.FirstOccurrencesIn | app.js:46-50 | each kept entry is an entry of `links` |
| Dedup.Hrefs | app.js:44-48 | the `seen` set: exactly the hrefs of the entries walked |
| Dedup.HrefsAppend | app.js:48 | `seen.add(l.href)` after walking `l` |
| Ordering.SortInPlace | app.js:52 | sorting the array in place leaves `SortByName` of its old contents |
| Ordering.InsertAt | app.js:52 | one insertion step turns the array prefix into `InsertByName` of the old prefix and the next entry, and leaves the rest alone |
| Ordering.ShiftRight | app.js:52 | the shift loop moves right by one every entry not before the inserted one, and returns the gap just after the last entry that is not after it |
| Ordering.InsertAtGap | app.js:52 | insertion lands exactly at that gap |
| Ordering.SortCorrect | app.js:52 | the sorted result is a permutation of `uniq` and is non-decreasing by name under a total-preorder comparator |
| Ordering.SortPermutes | app.js:52 | sorting neither adds, drops nor alters an entry |
| Ordering.InsertPermutes | app.js:52 | inserting adds exactly the one entry |
| Ordering.SortAdjacentSorted | app.js:52 | under a total comparator, each name comes no later than the next |
| Ordering.InsertSorted | app.js:52 | inserting into a sorted sequence keeps it sorted |
| Ordering.AdjacentToSorted | app.js:52 | under transitivity, sorted pair by pair is sorted |
| Ordering.InsertLast | app.js:52 | after inserting, the last entry is the new one or the old last one |
| Ordering.SortSnoc | app.js:52 | sorting one more entry inserts it into the sorted prefix |
| Playlist.BuildM3U | app.js:57-63 | the header push, two pushes per entry, then the join produce `PlaylistText(entries)` |
| Playlist.M3ULinesShape | app.js:58-62 | n entries give 1 + 2n lines: line 0 is `#EXTM3U`, line 2i+1 is `#EXTINF:-1,` + name i, and line 2i+2 is href i |
| Playlist.PairLinesShape | app.js:59-62 | entry i gives lines 2i and 2i+1 of the pairs: info line, then URL |
| Playlist.PairLinesAppend | app.js:59-62 | the lines of consecutive runs of entries follow one another |
| Playlist.PlaylistEmpty | app.js:57-63 | no entries give exactly `#EXTM3U` |
| Playlist.PlaylistOne | app.js:57-63 | one entry gives `#EXTM3U`, its info line and its URL on three lines, with no final line feed |
| Playlist.PlaylistStartsWithHeader | app.js:58 | every playlist starts with `#EXTM3U` |
| Playlist.Join | app.js:63 | `lines.join('\n')`. Its properties are stated by `SplitJoin`, `JoinSplit`, `PlaylistOne` and `PlaylistStartsWithHeader` |
| Playlist.SplitJoin | app.js:63 | lines without line feeds are recovered from their join: one line feed separates each two |
| Playlist.JoinSplit | app.js:63 | every text is the join of its pieces between line feeds |
| Playlist.IndexOfNewline | app.js:63 | the first line feed of a text, or -1 when there is none |
| Playlist.Split | app.js:63 | the pieces between line feeds: at least one, none holding a line feed |
| Playlist.PlaylistRoundTrip | app.js:57-63 | a playlist of entries without line feeds reads back as those entries |
| Playlist.ParsedIsPlaylist | app.js:57-63 | a text that reads back as entries is exactly their playlist, and they hold no line feed |
| Playlist.ParsePlaylistIff | app.js:57-63 | `ParsePlaylist(text) == Some(es)` exactly when `es` holds no line feed and `text` is `buildM3U(es)` |
| Playlist.ParsePairLines | app.js:59-62 | the pair lines read back as their entries |
| Playlist.PairLinesOfParse | app.js:59-62 | lines that read back as entries are those entries' pair lines |
| Playlist.LinesOneLine | app.js:58-62 | the lines of entries without line feeds hold none themselves |
| Handlers.FolderLinks | app.js:24-54 | what `fetchFolderLinks` resolves to or rejects with. Its properties are stated by `FolderLinksOk` and `FolderLinksFails`; `FetchFolderLinks` is proved equal to it |
| Handlers.FetchFolderLinks | app.js:24-54 | fetch, anchor loop, dedup loop and in-place sort compute `FolderLinks` |
| Handlers.FolderLinksOk | app.js:24-54 | a resolved result has distinct hrefs, each a video URL carrying its decoded basename. Its hrefs are exactly the distinct video hrefs of the page, one entry each. It is sorted by name under a total-preorder comparator |
| Handlers.FolderLinksFails | app.js:25-41 | `fetchFolderLinks` rejects exactly when the fetch does, an anchor that is not skipped fails to resolve, or a video anchor's name fails to decode. Past the fetch, the error is `URI malformed` |
| Handlers.DedupSortOk | app.js:44-52 | dedup then sort gives distinct hrefs, only entries of `links`, every href of `links`, and a sorted order under a total preorder |
| Handlers.CollectedHrefs | app.js:35-39 | the hrefs pushed are exactly the page's video hrefs |
| Handlers.SortKeepsUnique | app.js:52 | sorting keeps hrefs distinct |
| Handlers.InsertKeepsUnique | app.js:52 | inserting an entry with a new href keeps hrefs distinct |
| Handlers.SortSameEntries | app.js:52 | sorting keeps exactly the entries, and so the hrefs |
| Handlers.UniqueCount | app.js:44-51 | entries with distinct hrefs are as many as their hrefs |
| Handlers.UniqueSnoc | app.js:47-49 | pushing keeps hrefs distinct exactly when the new href is unseen |
| Handlers.Handle | app.js:106-131 | the route body shared by `/generate` and `/download`. Its outcomes are stated by `HandleStatus` and `HandleOk`; `HandleRequest` is proved equal to it |
| Handlers.HandleRequest | app.js:106-131 | a route's guard, awaited fetch, empty check and `buildM3U` compute `Handle` |
| Handlers.HandleStatus | app.js:108-116 | the status is one of 200, 400, 404, 500. 400 exactly when `url` is missing or empty, with no fetch and `Missing url parameter`. Otherwise the folder is fetched and the answer is 500 with `Error: ` + message exactly on rejection, 404 with `No video files found.` exactly on an empty list, and 200 with `buildM3U(entries)` exactly on a non-empty one |
| Handlers.HandleOk | app.js:109-113 | a 200 body is the playlist of a non-empty list whose entries have distinct hrefs and are video URLs. The list is sorted under a total-preorder comparator and reads back from the body when no name or URL holds a line feed |

## Left out

- The Express app, the routes' wiring, `res.type`, the `Content-Disposition` header and the static HTML page with its script (app.js:1-7, 67-104, 113, 126-127, 134). They are framework plumbing and UI. The two routes share one modelled body, `Handle`.
- The HTTP GET through axios, with its 15-second timeout and `User-Agent` (app.js:25-28), and HTML parsing with cheerio (app.js:30-34). They are network I/O and a foreign library; `Library.fetchAnchors` stands for both.
- `url.resolve` (RFC 3986 section 5.2, reference resolution) and WHATWG URL parsing. They are library behaviour, so they stay uninterpreted fields of `Library`. Only whether `url.resolve` throws is modelled; its message is taken to be `URI malformed`, the `URIError` it raises on malformed user info.
- `decodeURIComponent`, which is uninterpreted except for its failure path, modelled as `URI malformed`.
- Async control flow and concurrency between requests. Each request is modelled as one sequential computation.
- A `url` query parameter given twice, which Express parses as an array. The model takes the parameter as absent or one string.
- Classifier.Lower: folds only ASCII letters, not full Unicode `toLowerCase`. WHATWG URL parsing percent-encodes non-ASCII characters in a pathname, so only ASCII letters reach the comparison.
- Ordering.SortInPlace: the model takes `localeCompare` with `numeric: true` as an abstract comparator `nameLe`, so "2 before 10" natural ordering is not stated. Sortedness is proved only when `nameLe` is a total preorder. With another comparator, `Array.prototype.sort` is implementation-defined, and the model gives the stable insertion sort's order.
- Handlers.HandleOk: the round trip through `ParsePlaylist` is stated only for entries whose names and URLs hold no line feed. A decoded name containing `%0A` would add a line to the playlist.
- Dedup.RemoveDuplicates: works on sequences (values), not on the JavaScript `Set` and array objects, which no other code aliases.
