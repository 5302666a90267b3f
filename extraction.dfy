/**
 * The anchor pass of `fetchFolderLinks` (app.js:30-41): every anchor of
 * the fetched page, in document order, is skipped when its `href` is
 * missing, empty, `../` or `/`; otherwise it is resolved against the folder
 * URL, kept when the classifier calls it a video, and pushed as an entry
 * whose name is the decoded basename of the resolved URL.
 */
module Extraction {
  import opened Wrappers
  import opened Classifier

  /** One playlist entry: the resolved URL and its display name. */
  datatype Entry = Entry(href: string, name: string)

  /**
   * The library and network calls the extractor makes, none of which the
   * model interprets:
   * - `fetchAnchors(u)`: the `href` attribute of every `a` element of the
   *   page `axios.get(u)` returns, as cheerio lists them (`None` for an
   *   anchor without the attribute), or the message of the error the GET
   *   or the parse rejects with;
   * - `resolve(base, href)`: `url.resolve(base, href)`, `None` when it
   *   throws (its `url.parse` decodes the user-info part of each URL with
   *   `decodeURIComponent`, which throws `URIError` on a malformed escape);
   * - `pathnameOf(u)`: `new URL(u, 'http://example.com').pathname`, `None`
   *   when the constructor throws;
   * - `decode(s)`: `decodeURIComponent(s)`, `None` when it throws;
   * - `nameLe(a, b)`: `a.localeCompare(b, undefined, { numeric: true }) <= 0`.
   */
  datatype Library = Library(
    fetchAnchors: string -> Result<seq<Option<string>>, string>,
    resolve: (string, string) -> Option<string>,
    pathnameOf: string -> Option<string>,
    decode: string -> Option<string>,
    nameLe: (string, string) -> bool)

  /** The message of the `URIError` that `decodeURIComponent` throws on a malformed escape. */
  const UriMalformed: string := "URI malformed"

  /** The skip test: no `href`, or one of the navigation links `""`, `"../"`, `"/"`. */
  predicate Skipped(href: Option<string>)
  {
    href.None? || href.value == "" || href.value == "../" || href.value == "/"
  }

  /** What one anchor contributes: nothing, one entry, or the error resolving it or decoding its name throws. */
  function AnchorEntry(lib: Library, folderUrl: string, href: Option<string>): Result<Option<Entry>, string>
  {
    if Skipped(href) then Success(None)
    else match lib.resolve(folderUrl, href.value)
      case None => Failure(UriMalformed)
      case Some(full) =>
        if !LooksLikeVideo(lib.pathnameOf, full) then Success(None)
        else match lib.decode(Basename(full))
          case None => Failure(UriMalformed)
          case Some(name) => Success(Some(Entry(full, name)))
  }

  /**
   * The `links` array after running `step` on each anchor in order and
   * pushing what it yields, or the first error a step throws.
   */
  function Pass(step: Option<string> -> Result<Option<Entry>, string>, anchors: seq<Option<string>>): Result<seq<Entry>, string>
  {
    if anchors == [] then Success([])
    else
      match Pass(step, anchors[..|anchors| - 1])
      case Failure(m) => Failure(m)
      case Success(links) =>
        match step(anchors[|anchors| - 1])
        case Failure(m) => Failure(m)
        case Success(None) => Success(links)
        case Success(Some(e)) => Success(links + [e])
  }

  /** The anchor pass of `fetchFolderLinks` over the page's anchors. */
  function Collected(lib: Library, folderUrl: string, anchors: seq<Option<string>>): Result<seq<Entry>, string>
  {
    Pass(a => AnchorEntry(lib, folderUrl, a), anchors)
  }

  /** The anchor `href` resolves to a video URL. */
  predicate IsVideoAnchor(lib: Library, folderUrl: string, href: Option<string>)
  {
    !Skipped(href) && lib.resolve(folderUrl, href.value).Some? &&
    LooksLikeVideo(lib.pathnameOf, lib.resolve(folderUrl, href.value).value)
  }

  /** The anchor's step throws: resolving its `href` fails, or it is a video link whose name does not decode. */
  predicate AnchorThrows(lib: Library, folderUrl: string, href: Option<string>)
  {
    !Skipped(href) &&
    (lib.resolve(folderUrl, href.value).None? ||
     (IsVideoAnchor(lib, folderUrl, href) && lib.decode(Basename(lib.resolve(folderUrl, href.value).value)).None?))
  }

  /**
   * One anchor's step, by cases: a skipped anchor or a resolved one that is
   * not a video gives nothing, a failed resolution gives `URI malformed`,
   * and a video anchor gives its entry or the decoding error.
   */
  lemma AnchorEntryCases(lib: Library, folderUrl: string, href: Option<string>)
    ensures Skipped(href) ==> AnchorEntry(lib, folderUrl, href) == Success(None)
    ensures !Skipped(href) && lib.resolve(folderUrl, href.value).None? ==>
      AnchorEntry(lib, folderUrl, href) == Failure(UriMalformed)
    ensures !Skipped(href) && lib.resolve(folderUrl, href.value).Some? && !IsVideoAnchor(lib, folderUrl, href) ==>
      AnchorEntry(lib, folderUrl, href) == Success(None)
    ensures AnchorEntry(lib, folderUrl, href).Failure? <==> AnchorThrows(lib, folderUrl, href)
    ensures IsVideoAnchor(lib, folderUrl, href) ==>
      var full := lib.resolve(folderUrl, href.value).value;
      AnchorEntry(lib, folderUrl, href) ==
        if lib.decode(Basename(full)).None? then Failure(UriMalformed)
        else Success(Some(Entry(full, lib.decode(Basename(full)).value)))
  {
  }

  /** Once a step has thrown, the remaining anchors change nothing: the error propagates. */
  lemma {:induction false} FailureSticks(step: Option<string> -> Result<Option<Entry>, string>, anchors: seq<Option<string>>, n: nat)
    requires n <= |anchors| && Pass(step, anchors[..n]).Failure?
    ensures Pass(step, anchors) == Pass(step, anchors[..n])
    decreases |anchors| - n
  {
    if n < |anchors| {
      var init := anchors[..|anchors| - 1];
      assert init[..n] == anchors[..n];
      FailureSticks(step, init, n);
    } else {
      assert anchors[..n] == anchors;
    }
  }

  /**
   * The `$('a').each` loop: walks the anchors in order, pushing an entry for
   * each video link, and stops at the first `href` that fails to resolve or
   * name that fails to decode.
   */
  method CollectLinks(lib: Library, folderUrl: string, anchors: seq<Option<string>>)
    returns (r: Result<seq<Entry>, string>)
    ensures r == Collected(lib, folderUrl, anchors)
  {
    ghost var step := a => AnchorEntry(lib, folderUrl, a);
    var links: seq<Entry> := [];
    var i := 0;
    while i < |anchors|
      invariant 0 <= i <= |anchors|
      invariant Pass(step, anchors[..i]) == Success(links)
    {
      var href := anchors[i];
      assert anchors[..i + 1][..i] == anchors[..i];
      if !Skipped(href) {
        var resolved := lib.resolve(folderUrl, href.value);
        if resolved.None? {
          FailureSticks(step, anchors, i + 1);
          return Failure(UriMalformed);
        }
        var full := resolved.value;
        if LooksLikeVideo(lib.pathnameOf, full) {
          var name := lib.decode(Basename(full));
          if name.None? {
            FailureSticks(step, anchors, i + 1);
            return Failure(UriMalformed);
          }
          links := links + [Entry(full, name.value)];
        }
      }
      i := i + 1;
    }
    assert anchors[..i] == anchors;
    r := Success(links);
  }

  /** Every entry of a successful pass is what the step yields for some anchor, and there are no more entries than anchors. */
  lemma {:induction false} PassSound(step: Option<string> -> Result<Option<Entry>, string>, anchors: seq<Option<string>>, links: seq<Entry>)
    requires Pass(step, anchors) == Success(links)
    ensures |links| <= |anchors|
    ensures forall e :: e in links ==> exists i :: 0 <= i < |anchors| && step(anchors[i]) == Success(Some(e))
  {
    if anchors != [] {
      var init := anchors[..|anchors| - 1];
      var prev := Pass(step, init).value;
      PassSound(step, init, prev);
      forall e | e in prev
        ensures exists i :: 0 <= i < |anchors| && step(anchors[i]) == Success(Some(e))
      {
        var i :| 0 <= i < |init| && step(init[i]) == Success(Some(e));
        assert anchors[i] == init[i];
      }
    }
  }

  /** Every entry a step yields is in the result of a successful pass. */
  lemma {:induction false} PassComplete(step: Option<string> -> Result<Option<Entry>, string>, anchors: seq<Option<string>>, links: seq<Entry>)
    requires Pass(step, anchors) == Success(links)
    ensures forall i :: 0 <= i < |anchors| && step(anchors[i]).Success? && step(anchors[i]).value.Some? ==>
      step(anchors[i]).value.value in links
  {
    if anchors != [] {
      var init := anchors[..|anchors| - 1];
      var prev := Pass(step, init).value;
      PassComplete(step, init, prev);
      assert prev <= links;
      forall i | 0 <= i < |init| ensures anchors[i] == init[i] { }
    }
  }

  /** A pass fails exactly when some step throws, and then with the first such step's error. */
  lemma {:induction false} PassFails(step: Option<string> -> Result<Option<Entry>, string>, anchors: seq<Option<string>>)
    ensures Pass(step, anchors).Failure? <==> exists i :: 0 <= i < |anchors| && step(anchors[i]).Failure?
    ensures Pass(step, anchors).Failure? ==>
      exists i :: 0 <= i < |anchors| && step(anchors[i]) == Failure(Pass(step, anchors).error) &&
        forall j :: 0 <= j < i ==> step(anchors[j]).Success?
  {
    if anchors != [] {
      var init := anchors[..|anchors| - 1];
      PassFails(step, init);
      forall i | 0 <= i < |init| ensures anchors[i] == init[i] { }
      if Pass(step, anchors).Failure? && Pass(step, init).Success? {
        var i := |anchors| - 1;
        assert step(anchors[i]) == Failure(Pass(step, anchors).error);
        forall j | 0 <= j < i ensures step(anchors[j]).Success? {
          assert anchors[j] == init[j];
        }
      }
    }
  }

  /** Inserting an anchor for which the step yields nothing changes nothing. */
  lemma {:induction false} SilentStepIgnored(step: Option<string> -> Result<Option<Entry>, string>, before: seq<Option<string>>, a: Option<string>, after: seq<Option<string>>)
    requires step(a) == Success(None)
    ensures Pass(step, before + [a] + after) == Pass(step, before + after)
    decreases |after|
  {
    if after == [] {
      var all := before + [a];
      assert all[..|all| - 1] == before && all[|all| - 1] == a;
      assert before + [a] + after == all && before + after == before;
    } else {
      var init := after[..|after| - 1];
      SilentStepIgnored(step, before, a, init);
      assert (before + [a] + after)[..|before + [a] + after| - 1] == before + [a] + init;
      assert (before + after)[..|before + after| - 1] == before + init;
    }
  }

  /**
   * Every entry the anchor pass produces comes from an anchor that is not
   * skipped and resolves to it, is classified as video, and carries the
   * decoded basename as its name.
   */
  lemma CollectedSound(lib: Library, folderUrl: string, anchors: seq<Option<string>>, links: seq<Entry>)
    requires Collected(lib, folderUrl, anchors) == Success(links)
    ensures |links| <= |anchors|
    ensures forall e :: e in links ==>
      LooksLikeVideo(lib.pathnameOf, e.href) && lib.decode(Basename(e.href)) == Some(e.name) &&
      exists i :: 0 <= i < |anchors| && !Skipped(anchors[i]) && lib.resolve(folderUrl, anchors[i].value) == Some(e.href)
  {
    var step := a => AnchorEntry(lib, folderUrl, a);
    PassSound(step, anchors, links);
    forall e | e in links
      ensures LooksLikeVideo(lib.pathnameOf, e.href) && lib.decode(Basename(e.href)) == Some(e.name) &&
        exists i :: 0 <= i < |anchors| && !Skipped(anchors[i]) && lib.resolve(folderUrl, anchors[i].value) == Some(e.href)
    {
      var i :| 0 <= i < |anchors| && step(anchors[i]) == Success(Some(e));
      AnchorEntryCases(lib, folderUrl, anchors[i]);
    }
  }

  /** Every anchor that resolves to a video URL yields its entry, when the pass succeeds. */
  lemma CollectedComplete(lib: Library, folderUrl: string, anchors: seq<Option<string>>, links: seq<Entry>)
    requires Collected(lib, folderUrl, anchors) == Success(links)
    ensures forall i :: 0 <= i < |anchors| && IsVideoAnchor(lib, folderUrl, anchors[i]) ==>
      var full := lib.resolve(folderUrl, anchors[i].value).value;
      lib.decode(Basename(full)).Some? && Entry(full, lib.decode(Basename(full)).value) in links
  {
    var step := a => AnchorEntry(lib, folderUrl, a);
    PassComplete(step, anchors, links);
    PassFails(step, anchors);
    forall i | 0 <= i < |anchors| && IsVideoAnchor(lib, folderUrl, anchors[i])
      ensures var full := lib.resolve(folderUrl, anchors[i].value).value;
        lib.decode(Basename(full)).Some? && Entry(full, lib.decode(Basename(full)).value) in links
    {
      AnchorEntryCases(lib, folderUrl, anchors[i]);
    }
  }

  /**
   * The anchor pass fails exactly when some anchor that is not skipped fails
   * to resolve, or is a video link whose basename does not decode, and then
   * with `URI malformed`.
   */
  lemma CollectedFails(lib: Library, folderUrl: string, anchors: seq<Option<string>>)
    ensures Collected(lib, folderUrl, anchors).Failure? <==>
      exists i :: 0 <= i < |anchors| && AnchorThrows(lib, folderUrl, anchors[i])
    ensures Collected(lib, folderUrl, anchors).Failure? ==> Collected(lib, folderUrl, anchors).error == UriMalformed
  {
    var step := a => AnchorEntry(lib, folderUrl, a);
    PassFails(step, anchors);
    forall i | 0 <= i < |anchors| {
      AnchorEntryCases(lib, folderUrl, anchors[i]);
    }
  }

  /** An anchor whose `href` is missing, empty, `../` or `/` can be dropped from the page without changing the pass. */
  lemma SkippedAnchorIgnored(lib: Library, folderUrl: string, before: seq<Option<string>>, a: Option<string>, after: seq<Option<string>>)
    requires Skipped(a)
    ensures Collected(lib, folderUrl, before + [a] + after) == Collected(lib, folderUrl, before + after)
  {
    SilentStepIgnored(a => AnchorEntry(lib, folderUrl, a), before, a, after);
  }
}
