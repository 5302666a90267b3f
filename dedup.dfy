/**
 * The duplicate-removal loop of `fetchFolderLinks` (app.js:43-51): a `seen`
 * set of hrefs and a `uniq` array, both grown while walking `links`, so that
 * `uniq` keeps the first entry for each distinct href, in order.
 */
module Dedup {
  import opened Extraction

  /** The hrefs of a sequence of entries. */
  function Hrefs(s: seq<Entry>): (r: set<string>)
    ensures forall e :: e in s ==> e.href in r
    ensures forall h :: h in r ==> exists e :: e in s && e.href == h
  {
    set e | e in s :: e.href
  }

  /** Appending an entry adds its href. */
  lemma HrefsAppend(s: seq<Entry>, e: Entry)
    ensures Hrefs(s + [e]) == Hrefs(s) + {e.href}
  {
    assert forall x :: x in s + [e] <==> x in s || x == e;
  }

  /** Specification of the loop: the first entry for each href, in the order of `links`. */
  function FirstOccurrences(links: seq<Entry>): seq<Entry>
  {
    if links == [] then []
    else
      var init, e := links[..|links| - 1], links[|links| - 1];
      if e.href in Hrefs(init) then FirstOccurrences(init) else FirstOccurrences(init) + [e]
  }

  /** No two entries share an href. */
  ghost predicate UniqueHrefs(s: seq<Entry>)
  {
    forall i, j :: 0 <= i < j < |s| ==> s[i].href != s[j].href
  }

  /** `a` is `b` with some entries left out, the others kept in order. */
  ghost predicate IsSubsequence(a: seq<Entry>, b: seq<Entry>)
    decreases |b|
  {
    if a == [] then true
    else if b == [] then false
    else (a[|a| - 1] == b[|b| - 1] && IsSubsequence(a[..|a| - 1], b[..|b| - 1]))
         || IsSubsequence(a, b[..|b| - 1])
  }

  /** The entry at `i` is the first one in `s` with its href. */
  ghost predicate IsFirstOccurrence(s: seq<Entry>, i: int)
    requires 0 <= i < |s|
  {
    forall j :: 0 <= j < i ==> s[j].href != s[i].href
  }

  /**
   * The loop as the source writes it. `seen` holds exactly the hrefs met so
   * far, and `uniq` is the first-occurrence subsequence of the prefix walked.
   */
  method RemoveDuplicates(links: seq<Entry>) returns (uniq: seq<Entry>)
    ensures uniq == FirstOccurrences(links)
  {
    var seen: set<string> := {};
    uniq := [];
    for i := 0 to |links|
      invariant seen == Hrefs(links[..i])
      invariant uniq == FirstOccurrences(links[..i])
    {
      var l := links[i];
      ghost var walked := links[..i + 1];
      assert walked == links[..i] + [l];
      assert walked[..i] == links[..i] && walked[i] == l;
      HrefsAppend(links[..i], l);
      if l.href !in seen {
        seen := seen + {l.href};
        uniq := uniq + [l];
      }
    }
    assert links[..|links|] == links;
  }

  /** Deduplication keeps every href and adds none. */
  lemma {:induction false} FirstOccurrencesHrefs(links: seq<Entry>)
    ensures Hrefs(FirstOccurrences(links)) == Hrefs(links)
  {
    if links != [] {
      var init, e := links[..|links| - 1], links[|links| - 1];
      FirstOccurrencesHrefs(init);
      assert links == init + [e];
      HrefsAppend(init, e);
      HrefsAppend(FirstOccurrences(init), e);
    }
  }

  /** After deduplication no two entries have the same href. */
  lemma {:induction false} FirstOccurrencesUnique(links: seq<Entry>)
    ensures UniqueHrefs(FirstOccurrences(links))
  {
    if links != [] {
      var init, e := links[..|links| - 1], links[|links| - 1];
      FirstOccurrencesUnique(init);
      FirstOccurrencesHrefs(init);
      var u := FirstOccurrences(init);
      if e.href !in Hrefs(init) {
        forall i | 0 <= i < |u| ensures u[i].href != e.href {
          assert u[i] in u;
        }
      }
    }
  }

  /** Every entry kept is an entry of `links`, kept in order, and there are no more of them. */
  lemma {:induction false} FirstOccurrencesSubsequence(links: seq<Entry>)
    ensures IsSubsequence(FirstOccurrences(links), links)
    ensures |FirstOccurrences(links)| <= |links|
  {
    if links != [] {
      var init, e := links[..|links| - 1], links[|links| - 1];
      FirstOccurrencesSubsequence(init);
      var u := FirstOccurrences(init);
      if e.href !in Hrefs(init) {
        SubsequenceSnoc(u, links);
      } else {
        SubsequenceOfInit(u, links);
      }
    }
  }

  /** Keeping the last entry extends a subsequence of all but the last entry. */
  lemma SubsequenceSnoc(a: seq<Entry>, b: seq<Entry>)
    requires b != [] && IsSubsequence(a, b[..|b| - 1])
    ensures IsSubsequence(a + [b[|b| - 1]], b)
  {
  }

  /** Every entry kept is an entry of `links`. */
  lemma {:induction false} FirstOccurrencesIn(links: seq<Entry>)
    ensures forall e :: e in FirstOccurrences(links) ==> e in links
  {
    if links != [] {
      var init := links[..|links| - 1];
      FirstOccurrencesIn(init);
      assert links == init + [links[|links| - 1]];
    }
  }

  /** A subsequence of all but the last entry is a subsequence of the whole. */
  lemma SubsequenceOfInit(a: seq<Entry>, b: seq<Entry>)
    requires b != [] && IsSubsequence(a, b[..|b| - 1])
    ensures IsSubsequence(a, b)
  {
  }

  /** Each kept entry is the first entry of `links` with its href: later duplicates are the ones dropped. */
  lemma {:induction false} FirstOccurrencesAreFirst(links: seq<Entry>)
    ensures forall e :: e in FirstOccurrences(links) ==>
      exists i :: 0 <= i < |links| && links[i] == e && IsFirstOccurrence(links, i)
  {
    if links != [] {
      var init, last := links[..|links| - 1], links[|links| - 1];
      FirstOccurrencesAreFirst(init);
      forall e | e in FirstOccurrences(links)
        ensures exists i :: 0 <= i < |links| && links[i] == e && IsFirstOccurrence(links, i)
      {
        if e in FirstOccurrences(init) {
          var i :| 0 <= i < |init| && init[i] == e && IsFirstOccurrence(init, i);
          assert links[i] == init[i];
          assert forall j :: 0 <= j < i ==> links[j] == init[j];
        } else {
          assert e == last && last.href !in Hrefs(init);
          var i := |links| - 1;
          forall j | 0 <= j < i ensures links[j].href != e.href {
            assert links[j] == init[j] && init[j] in init;
          }
        }
      }
    }
  }
}
