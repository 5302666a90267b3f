/**
 * `fetchFolderLinks` as a whole (app.js:24-54) and the shared body of the
 * `/generate` and `/download` routes (app.js:106-131): check the `url`
 * query parameter, fetch the folder's entries, and answer 400, 500, 404 or
 * 200 with the playlist.
 */
module Handlers {
  import opened Wrappers
  import opened Classifier
  import opened Extraction
  import opened Dedup
  import opened Ordering
  import opened Playlist

  /** What `fetchFolderLinks(folderUrl)` resolves to, or the message of the error it rejects with. */
  function FolderLinks(lib: Library, folderUrl: string): Result<seq<Entry>, string>
  {
    match lib.fetchAnchors(folderUrl)
    case Failure(m) => Failure(m)
    case Success(anchors) =>
      match Collected(lib, folderUrl, anchors)
      case Failure(m) => Failure(m)
      case Success(links) => Success(SortByName(FirstOccurrences(links), lib.nameLe))
  }

  /**
   * `fetchFolderLinks` as the source writes it: fetch, the anchor loop, the
   * duplicate-removal loop, then the in-place sort of `uniq`.
   */
  method FetchFolderLinks(lib: Library, folderUrl: string) returns (r: Result<seq<Entry>, string>)
    ensures r == FolderLinks(lib, folderUrl)
  {
    var page := lib.fetchAnchors(folderUrl);
    if page.Failure? {
      return Failure(page.error);
    }
    var links := CollectLinks(lib, folderUrl, page.value);
    if links.Failure? {
      return Failure(links.error);
    }
    var uniq := RemoveDuplicates(links.value);
    var a := new Entry[|uniq|](i requires 0 <= i < |uniq| => uniq[i]);
    assert a[..] == uniq;
    SortInPlace(a, lib.nameLe);
    r := Success(a[..]);
  }

  /** The answer a route gives: the folder URL it fetched, if any, the status code and the body. */
  datatype Outcome = Outcome(fetched: Option<string>, status: int, body: string)

  const MissingUrl: string := "Missing url parameter"
  const NoVideos: string := "No video files found."
  const ErrorPrefix: string := "Error: "

  /**
   * The route body for the `url` query parameter `query` (`None` when it is
   * absent): a missing or empty one is refused before any fetch.
   */
  function Handle(lib: Library, query: Option<string>): Outcome
  {
    if query.None? || query.value == "" then Outcome(None, 400, MissingUrl)
    else
      match FolderLinks(lib, query.value)
      case Failure(m) => Outcome(query, 500, ErrorPrefix + m)
      case Success(entries) =>
        if |entries| == 0 then Outcome(query, 404, NoVideos)
        else Outcome(query, 200, PlaylistText(entries))
  }

  /** The route as the source writes it: the guard, the awaited fetch, the empty check, then `buildM3U`. */
  method HandleRequest(lib: Library, query: Option<string>) returns (r: Outcome)
    ensures r == Handle(lib, query)
  {
    if query.None? || query.value == "" {
      return Outcome(None, 400, MissingUrl);
    }
    var entries := FetchFolderLinks(lib, query.value);
    if entries.Failure? {
      return Outcome(query, 500, ErrorPrefix + entries.error);
    }
    if |entries.value| == 0 {
      return Outcome(query, 404, NoVideos);
    }
    var m3u := BuildM3U(entries.value);
    r := Outcome(query, 200, m3u);
  }

  /** Appending keeps hrefs distinct exactly when the new href is not among the old ones. */
  lemma UniqueSnoc(s: seq<Entry>, y: Entry)
    ensures UniqueHrefs(s + [y]) <==> UniqueHrefs(s) && y.href !in Hrefs(s)
  {
    var t := s + [y];
    assert forall i :: 0 <= i < |s| ==> t[i] == s[i];
    if UniqueHrefs(t) {
      forall e | e in s ensures e.href != y.href {
        var k :| 0 <= k < |s| && s[k] == e;
        assert t[|s|] == y;
      }
    }
    if UniqueHrefs(s) && y.href !in Hrefs(s) {
      forall i, j | 0 <= i < j < |t| ensures t[i].href != t[j].href {
        if j == |s| {
          assert s[i] in s;
        }
      }
    }
  }

  /** Inserting an entry with a new href into entries with distinct hrefs keeps them distinct. */
  lemma {:induction false} InsertKeepsUnique(s: seq<Entry>, x: Entry, le: (string, string) -> bool)
    requires UniqueHrefs(s) && x.href !in Hrefs(s)
    ensures UniqueHrefs(InsertByName(s, x, le))
  {
    if s == [] || le(s[|s| - 1].name, x.name) {
      UniqueSnoc(s, x);
    } else {
      var init, last := s[..|s| - 1], s[|s| - 1];
      assert s == init + [last];
      UniqueSnoc(init, last);
      HrefsAppend(init, last);
      InsertKeepsUnique(init, x, le);
      var r := InsertByName(init, x, le);
      InsertPermutes(init, x, le);
      assert forall e :: e in r ==> e in multiset(init) + multiset{x};
      UniqueSnoc(r, last);
    }
  }

  /** Sorting keeps hrefs distinct. */
  lemma {:induction false} SortKeepsUnique(s: seq<Entry>, le: (string, string) -> bool)
    requires UniqueHrefs(s)
    ensures UniqueHrefs(SortByName(s, le))
  {
    if s != [] {
      var init, last := s[..|s| - 1], s[|s| - 1];
      assert s == init + [last];
      UniqueSnoc(init, last);
      SortKeepsUnique(init, le);
      SortPermutes(init, le);
      var sorted := SortByName(init, le);
      assert forall e :: e in sorted ==> e in multiset(init);
      InsertKeepsUnique(sorted, last, le);
    }
  }

  /** Sorting keeps exactly the entries, and so the hrefs, it was given. */
  lemma SortSameEntries(s: seq<Entry>, le: (string, string) -> bool)
    ensures forall e :: e in SortByName(s, le) <==> e in s
    ensures Hrefs(SortByName(s, le)) == Hrefs(s)
  {
    SortPermutes(s, le);
    assert forall e :: e in SortByName(s, le) <==> e in multiset(s);
  }

  /**
   * Deduplicating then sorting: the result has distinct hrefs, holds only
   * entries of `links`, keeps every href of `links`, and is sorted under a
   * total preorder.
   */
  lemma DedupSortOk(links: seq<Entry>, le: (string, string) -> bool)
    ensures var es := SortByName(FirstOccurrences(links), le);
      UniqueHrefs(es) && (forall e :: e in es ==> e in links) && Hrefs(es) == Hrefs(links) &&
      (TotalPreorder(le) ==> SortedByName(es, le))
  {
    var uniq := FirstOccurrences(links);
    FirstOccurrencesUnique(links);
    FirstOccurrencesIn(links);
    FirstOccurrencesHrefs(links);
    SortKeepsUnique(uniq, le);
    SortSameEntries(uniq, le);
    if TotalPreorder(le) {
      SortCorrect(uniq, le);
    }
  }

  /** Entries with distinct hrefs are as many as their hrefs. */
  lemma {:induction false} UniqueCount(s: seq<Entry>)
    requires UniqueHrefs(s)
    ensures |Hrefs(s)| == |s|
  {
    if s != [] {
      var init, last := s[..|s| - 1], s[|s| - 1];
      assert s == init + [last];
      UniqueSnoc(init, last);
      HrefsAppend(init, last);
      UniqueCount(init);
    }
  }

  /** The hrefs the anchors of a page resolve to that the classifier calls video. */
  ghost function VideoHrefs(lib: Library, folderUrl: string, anchors: seq<Option<string>>): set<string>
  {
    set i | 0 <= i < |anchors| && IsVideoAnchor(lib, folderUrl, anchors[i]) :: lib.resolve(folderUrl, anchors[i].value).value
  }

  /** A successful anchor pass yields exactly the page's video hrefs. */
  lemma CollectedHrefs(lib: Library, folderUrl: string, anchors: seq<Option<string>>, links: seq<Entry>)
    requires Collected(lib, folderUrl, anchors) == Success(links)
    ensures Hrefs(links) == VideoHrefs(lib, folderUrl, anchors)
  {
    CollectedSound(lib, folderUrl, anchors, links);
    CollectedComplete(lib, folderUrl, anchors, links);
    forall h | h in Hrefs(links) ensures h in VideoHrefs(lib, folderUrl, anchors) {
      var e :| e in links && e.href == h;
      var i :| 0 <= i < |anchors| && !Skipped(anchors[i]) && lib.resolve(folderUrl, anchors[i].value) == Some(e.href);
      assert IsVideoAnchor(lib, folderUrl, anchors[i]);
    }
    forall h | h in VideoHrefs(lib, folderUrl, anchors) ensures h in Hrefs(links) {
      var i :| 0 <= i < |anchors| && IsVideoAnchor(lib, folderUrl, anchors[i]) && lib.resolve(folderUrl, anchors[i].value).value == h;
      var full := lib.resolve(folderUrl, anchors[i].value).value;
      assert Entry(full, lib.decode(Basename(full)).value) in links;
    }
  }

  /**
   * What a resolved `fetchFolderLinks` holds: entries with distinct hrefs,
   * each a video URL carrying its decoded basename as its name, exactly one
   * for each distinct href a video anchor of the page resolves to, sorted
   * by name under a comparator that is a total preorder.
   */
  lemma FolderLinksOk(lib: Library, folderUrl: string)
    requires FolderLinks(lib, folderUrl).Success?
    ensures lib.fetchAnchors(folderUrl).Success?
    ensures var es := FolderLinks(lib, folderUrl).value;
      UniqueHrefs(es) &&
      (forall e :: e in es ==> LooksLikeVideo(lib.pathnameOf, e.href) && lib.decode(Basename(e.href)) == Some(e.name)) &&
      (TotalPreorder(lib.nameLe) ==> SortedByName(es, lib.nameLe))
    ensures var anchors, es := lib.fetchAnchors(folderUrl).value, FolderLinks(lib, folderUrl).value;
      Hrefs(es) == VideoHrefs(lib, folderUrl, anchors) && |es| == |VideoHrefs(lib, folderUrl, anchors)|
  {
    var anchors := lib.fetchAnchors(folderUrl).value;
    var links := Collected(lib, folderUrl, anchors).value;
    var es := FolderLinks(lib, folderUrl).value;
    CollectedSound(lib, folderUrl, anchors, links);
    CollectedHrefs(lib, folderUrl, anchors, links);
    DedupSortOk(links, lib.nameLe);
    UniqueCount(es);
  }

  /**
   * `fetchFolderLinks` rejects exactly when the fetch does, or an anchor that
   * is not skipped fails to resolve, or a video anchor's name fails to decode.
   */
  lemma FolderLinksFails(lib: Library, folderUrl: string)
    ensures FolderLinks(lib, folderUrl).Failure? <==>
      lib.fetchAnchors(folderUrl).Failure? ||
      exists i :: 0 <= i < |lib.fetchAnchors(folderUrl).value| &&
        AnchorThrows(lib, folderUrl, lib.fetchAnchors(folderUrl).value[i])
    ensures FolderLinks(lib, folderUrl).Failure? && lib.fetchAnchors(folderUrl).Success? ==>
      FolderLinks(lib, folderUrl).error == UriMalformed
  {
    if lib.fetchAnchors(folderUrl).Success? {
      CollectedFails(lib, folderUrl, lib.fetchAnchors(folderUrl).value);
    }
  }

  /**
   * The status decision: 400 with no fetch exactly when the parameter is
   * missing or empty; otherwise the folder is fetched once and the answer is
   * 500 with the error's message, 404 when no entry is found, and 200 with
   * the playlist.
   */
  lemma HandleStatus(lib: Library, query: Option<string>)
    ensures Handle(lib, query).status in {200, 400, 404, 500}
    ensures Handle(lib, query).status == 400 <==> query.None? || query.value == ""
    ensures Handle(lib, query).status == 400 ==> Handle(lib, query).fetched.None? && Handle(lib, query).body == MissingUrl
    ensures query.Some? && query.value != "" ==>
      var r, links := Handle(lib, query), FolderLinks(lib, query.value);
      r.fetched == query &&
      (r.status == 500 <==> links.Failure?) &&
      (links.Failure? ==> r.body == ErrorPrefix + links.error) &&
      (r.status == 404 <==> links == Success([])) &&
      (r.status == 404 ==> r.body == NoVideos) &&
      (r.status == 200 <==> links.Success? && links.value != []) &&
      (r.status == 200 ==> r.body == PlaylistText(links.value))
  {
  }

  /**
   * A 200 answer is the playlist of entries that are distinct by href, all
   * video URLs, sorted under a total-preorder comparator, and that read
   * back from the body when no name or URL holds a line feed.
   */
  lemma HandleOk(lib: Library, query: Option<string>)
    requires Handle(lib, query).status == 200
    ensures query.Some? && FolderLinks(lib, query.value).Success?
    ensures var es, body := FolderLinks(lib, query.value).value, Handle(lib, query).body;
      es != [] && body == PlaylistText(es) && UniqueHrefs(es) &&
      (forall e :: e in es ==> LooksLikeVideo(lib.pathnameOf, e.href)) &&
      (TotalPreorder(lib.nameLe) ==> SortedByName(es, lib.nameLe)) &&
      (NewlineFree(es) ==> ParsePlaylist(body) == Some(es))
  {
    var es := FolderLinks(lib, query.value).value;
    FolderLinksOk(lib, query.value);
    if NewlineFree(es) {
      PlaylistRoundTrip(es);
    }
  }
}
