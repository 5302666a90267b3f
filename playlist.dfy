/**
 * `buildM3U` (app.js:56-64): the `#EXTM3U` header line, then for every
 * entry an `#EXTINF:-1,<name>` line followed by its URL, joined with a
 * single line feed and no final one. `ParsePlaylist` reads such a text back
 * and is its inverse on entries whose names and URLs hold no line feed.
 */
module Playlist {
  import opened Wrappers
  import opened Extraction

  /** The first line of every playlist. */
  const Header: string := "#EXTM3U"

  /** What each entry's info line starts with: unknown duration, then the title. */
  const InfPrefix: string := "#EXTINF:-1,"

  /** The two lines each entry contributes, in the order of the entries. */
  function PairLines(es: seq<Entry>): seq<string>
  {
    if es == [] then [] else [InfPrefix + es[0].name, es[0].href] + PairLines(es[1..])
  }

  /** The `lines` array just before it is joined. */
  function M3ULines(es: seq<Entry>): seq<string>
  {
    [Header] + PairLines(es)
  }

  /** `lines.join('\n')`: the lines with one line feed between each two. */
  function Join(ls: seq<string>): string
  {
    if ls == [] then "" else if |ls| == 1 then ls[0] else ls[0] + "\n" + Join(ls[1..])
  }

  /** The text `buildM3U(es)` returns. */
  function PlaylistText(es: seq<Entry>): string
  {
    Join(M3ULines(es))
  }

  /** The lines of two runs of entries follow each other. */
  lemma {:induction false} PairLinesAppend(a: seq<Entry>, b: seq<Entry>)
    ensures PairLines(a + b) == PairLines(a) + PairLines(b)
  {
    if a == [] {
      assert a + b == b;
    } else {
      assert (a + b)[1..] == a[1..] + b;
      PairLinesAppend(a[1..], b);
    }
  }

  /**
   * `buildM3U` as the source writes it: the header, then two pushes per
   * entry, then the join.
   */
  method BuildM3U(entries: seq<Entry>) returns (m3u: string)
    ensures m3u == PlaylistText(entries)
  {
    var lines := [Header];
    for i := 0 to |entries|
      invariant lines == [Header] + PairLines(entries[..i])
    {
      var e := entries[i];
      lines := lines + [InfPrefix + e.name];
      lines := lines + [e.href];
      assert entries[..i + 1] == entries[..i] + [e];
      PairLinesAppend(entries[..i], [e]);
      assert PairLines([e]) == [InfPrefix + e.name, e.href] + PairLines([]);
    }
    assert entries[..|entries|] == entries;
    m3u := Join(lines);
  }

  /** Entry `i` gives lines `2i` and `2i + 1` of the pairs: its info line, then its URL. */
  lemma {:induction false} PairLinesShape(es: seq<Entry>)
    ensures |PairLines(es)| == 2 * |es|
    ensures forall i :: 0 <= i < |es| ==>
      PairLines(es)[2 * i] == InfPrefix + es[i].name && PairLines(es)[2 * i + 1] == es[i].href
  {
    if es != [] {
      PairLinesShape(es[1..]);
      forall i | 1 <= i < |es|
        ensures PairLines(es)[2 * i] == InfPrefix + es[i].name && PairLines(es)[2 * i + 1] == es[i].href
      {
        assert es[1..][i - 1] == es[i];
      }
    }
  }

  /**
   * For n entries there are 1 + 2n lines: line 0 is the header, line
   * 2i + 1 the info line of entry i and line 2i + 2 its URL.
   */
  lemma M3ULinesShape(es: seq<Entry>)
    ensures |M3ULines(es)| == 1 + 2 * |es|
    ensures M3ULines(es)[0] == Header
    ensures forall i :: 0 <= i < |es| ==>
      M3ULines(es)[2 * i + 1] == InfPrefix + es[i].name && M3ULines(es)[2 * i + 2] == es[i].href
  {
    PairLinesShape(es);
  }

  /** With no entries the playlist is the header alone. */
  lemma PlaylistEmpty()
    ensures PlaylistText([]) == Header
  {
  }

  /** One entry gives the header, its info line and its URL, on three lines. */
  lemma PlaylistOne(e: Entry)
    ensures PlaylistText([e]) == Header + "\n" + InfPrefix + e.name + "\n" + e.href
  {
    assert PairLines([e]) == [InfPrefix + e.name, e.href] + PairLines([]);
    var ls := M3ULines([e]);
    assert ls == [Header, InfPrefix + e.name, e.href];
    assert ls[1..][1..] == [e.href];
    assert Join(ls[1..][1..]) == e.href;
    assert Join(ls[1..]) == InfPrefix + e.name + "\n" + e.href;
  }

  /** Every playlist starts with the header. */
  lemma PlaylistStartsWithHeader(es: seq<Entry>)
    ensures Header <= PlaylistText(es)
  {
  }

  /** The position of the first line feed in `s`, or -1 when there is none. */
  function IndexOfNewline(s: string): (r: int)
    ensures -1 <= r < |s|
    ensures r >= 0 ==> s[r] == '\n' && '\n' !in s[..r]
    ensures r == -1 ==> '\n' !in s
  {
    if s == [] then -1
    else if s[0] == '\n' then 0
    else
      var k := IndexOfNewline(s[1..]);
      assert s == [s[0]] + s[1..];
      if k < 0 then -1 else (assert s[..k + 1] == [s[0]] + s[1..][..k]; k + 1)
  }

  /** `text.split('\n')`: the pieces between line feeds, none of which holds one. */
  function Split(s: string): (r: seq<string>)
    ensures |r| >= 1
    ensures forall i :: 0 <= i < |r| ==> '\n' !in r[i]
    decreases |s|
  {
    var k := IndexOfNewline(s);
    if k < 0 then [s] else [s[..k]] + Split(s[k + 1..])
  }

  /** The first line feed of `a + "\n" + b` is the one after `a` when `a` holds none. */
  lemma {:induction false} IndexAfterLine(a: string, b: string)
    requires '\n' !in a
    ensures IndexOfNewline(a + "\n" + b) == |a|
  {
    if a != [] {
      assert a[0] in a;
      assert (a + "\n" + b)[1..] == a[1..] + "\n" + b;
      assert forall c :: c in a[1..] ==> c in a;
      IndexAfterLine(a[1..], b);
    }
  }

  /** A text without line feeds has none to find. */
  lemma IndexNone(s: string)
    requires '\n' !in s
    ensures IndexOfNewline(s) == -1
  {
  }

  /** Splitting a line, a line feed and more gives that line, then the pieces of the rest. */
  lemma SplitLine(first: string, j: string)
    requires '\n' !in first
    ensures Split(first + "\n" + j) == [first] + Split(j)
  {
    var s := first + "\n" + j;
    IndexAfterLine(first, j);
    assert s[..|first|] == first;
    assert s[|first| + 1..] == j;
  }

  /** Splitting the joined lines gives the lines back, when none holds a line feed. */
  lemma {:induction false} SplitJoin(ls: seq<string>)
    requires |ls| >= 1 && forall l :: l in ls ==> '\n' !in l
    ensures Split(Join(ls)) == ls
  {
    assert ls[0] in ls;
    if |ls| > 1 {
      var rest := ls[1..];
      assert forall l :: l in rest ==> l in ls;
      SplitJoin(rest);
      SplitLine(ls[0], Join(rest));
      assert ls == [ls[0]] + rest;
    } else {
      IndexNone(ls[0]);
    }
  }

  /** Joining the pieces of a split gives the text back. */
  lemma {:induction false} JoinSplit(s: string)
    ensures Join(Split(s)) == s
    decreases |s|
  {
    var k := IndexOfNewline(s);
    if k >= 0 {
      var rest := Split(s[k + 1..]);
      JoinSplit(s[k + 1..]);
      var ls := [s[..k]] + rest;
      assert ls[1..] == rest;
      assert Join(ls) == s[..k] + "\n" + Join(rest);
      assert s == s[..k] + "\n" + s[k + 1..];
    }
  }

  /** Reads info-line / URL pairs back into entries; `None` when the lines are not such pairs. */
  function ParsePairs(ls: seq<string>): Option<seq<Entry>>
  {
    if ls == [] then Some([])
    else if |ls| == 1 || !(InfPrefix <= ls[0]) then None
    else match ParsePairs(ls[2..])
      case None => None
      case Some(rest) => Some([Entry(ls[1], ls[0][|InfPrefix|..])] + rest)
  }

  /** Reads a playlist text back into its entries; `None` when it is not one `buildM3U` could produce. */
  function ParsePlaylist(text: string): Option<seq<Entry>>
  {
    var ls := Split(text);
    if ls[0] != Header then None else ParsePairs(ls[1..])
  }

  /** No entry's name or URL holds a line feed. */
  ghost predicate NewlineFree(es: seq<Entry>)
  {
    forall i :: 0 <= i < |es| ==> '\n' !in es[i].name && '\n' !in es[i].href
  }

  /** The pairs read back as the entries they came from. */
  lemma {:induction false} ParsePairLines(es: seq<Entry>)
    ensures ParsePairs(PairLines(es)) == Some(es)
  {
    if es != [] {
      var ls := PairLines(es);
      ParsePairLines(es[1..]);
      assert ls[2..] == PairLines(es[1..]);
      assert ls[0][|InfPrefix|..] == es[0].name;
      assert es == [es[0]] + es[1..];
    }
  }

  /** Pairs that read back as entries are those entries' lines. */
  lemma {:induction false} PairLinesOfParse(ls: seq<string>, es: seq<Entry>)
    requires ParsePairs(ls) == Some(es)
    ensures PairLines(es) == ls
  {
    if ls != [] {
      var rest := ParsePairs(ls[2..]).value;
      PairLinesOfParse(ls[2..], rest);
      assert es == [Entry(ls[1], ls[0][|InfPrefix|..])] + rest;
      assert es[1..] == rest;
      assert InfPrefix + ls[0][|InfPrefix|..] == ls[0];
      assert ls == [ls[0], ls[1]] + ls[2..];
    }
  }

  /** The header holds no line feed. */
  lemma HeaderOneLine()
    ensures '\n' !in Header
  {
    assert Header == ['#', 'E', 'X', 'T', 'M', '3', 'U'];
  }

  /** The info-line prefix holds no line feed. */
  lemma InfPrefixOneLine()
    ensures '\n' !in InfPrefix
  {
    assert InfPrefix == ['#', 'E', 'X', 'T', 'I', 'N', 'F', ':', '-', '1', ','];
  }

  /** An info line holds a line feed exactly when the name does. */
  lemma InfLineOneLine(name: string)
    ensures '\n' in InfPrefix + name <==> '\n' in name
  {
    InfPrefixOneLine();
    assert forall c :: c in InfPrefix + name <==> c in InfPrefix || c in name;
  }

  /** The pairs of newline-free entries are single lines. */
  lemma {:induction false} PairLinesOneLine(es: seq<Entry>)
    requires NewlineFree(es)
    ensures forall l :: l in PairLines(es) ==> '\n' !in l
  {
    if es != [] {
      assert forall i :: 0 <= i < |es[1..]| ==> es[1..][i] == es[i + 1];
      PairLinesOneLine(es[1..]);
      InfLineOneLine(es[0].name);
    }
  }

  /** Every line of a playlist of newline-free entries is one line. */
  lemma LinesOneLine(es: seq<Entry>)
    requires NewlineFree(es)
    ensures forall l :: l in M3ULines(es) ==> '\n' !in l
  {
    HeaderOneLine();
    PairLinesOneLine(es);
  }

  /** A playlist of entries without line feeds reads back as those entries. */
  lemma PlaylistRoundTrip(es: seq<Entry>)
    requires NewlineFree(es)
    ensures ParsePlaylist(PlaylistText(es)) == Some(es)
  {
    LinesOneLine(es);
    SplitJoin(M3ULines(es));
    assert M3ULines(es)[1..] == PairLines(es);
    ParsePairLines(es);
  }

  /** A text that reads back as entries is exactly their playlist, and they hold no line feed. */
  lemma ParsedIsPlaylist(text: string, es: seq<Entry>)
    requires ParsePlaylist(text) == Some(es)
    ensures NewlineFree(es) && PlaylistText(es) == text
  {
    var ls := Split(text);
    PairLinesOfParse(ls[1..], es);
    assert M3ULines(es) == ls;
    JoinSplit(text);
    M3ULinesShape(es);
    forall i | 0 <= i < |es| ensures '\n' !in es[i].name && '\n' !in es[i].href {
      InfLineOneLine(es[i].name);
    }
  }

  /** Reading back is the exact inverse of `buildM3U` on entries without line feeds. */
  lemma ParsePlaylistIff(text: string, es: seq<Entry>)
    ensures ParsePlaylist(text) == Some(es) <==> NewlineFree(es) && text == PlaylistText(es)
  {
    if ParsePlaylist(text) == Some(es) {
      ParsedIsPlaylist(text, es);
    }
    if NewlineFree(es) && text == PlaylistText(es) {
      PlaylistRoundTrip(es);
    }
  }
}
