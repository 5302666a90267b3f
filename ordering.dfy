/**
 * The sort step of `fetchFolderLinks` (app.js:52): `uniq.sort` in place by
 * `name` under the locale collator. `Array.prototype.sort` is stable, so
 * for a comparator that is a total preorder its result is the one an
 * insertion sort produces; that is what the method below does, on an array.
 */
module Ordering {
  import opened Extraction

  /** Any two names compare one way or the other. */
  ghost predicate Total(le: (string, string) -> bool)
  {
    forall a, b :: le(a, b) || le(b, a)
  }

  /** The comparator is a total preorder: total and transitive. */
  ghost predicate TotalPreorder(le: (string, string) -> bool)
  {
    Total(le) && forall a, b, c :: le(a, b) && le(b, c) ==> le(a, c)
  }

  /** Every entry's name comes no later than the next entry's. */
  ghost predicate AdjacentSorted(s: seq<Entry>, le: (string, string) -> bool)
  {
    forall i :: 0 < i < |s| ==> le(s[i - 1].name, s[i].name)
  }

  /** Every entry's name comes no later than any later entry's. */
  ghost predicate SortedByName(s: seq<Entry>, le: (string, string) -> bool)
  {
    forall i, j :: 0 <= i < j < |s| ==> le(s[i].name, s[j].name)
  }

  /** `x` put into `s` after the last entry whose name comes no later than its own, walking back from the end. */
  function InsertByName(s: seq<Entry>, x: Entry, le: (string, string) -> bool): seq<Entry>
  {
    if s == [] || le(s[|s| - 1].name, x.name) then s + [x]
    else InsertByName(s[..|s| - 1], x, le) + [s[|s| - 1]]
  }

  /** The order `uniq.sort` leaves the entries in. */
  function SortByName(s: seq<Entry>, le: (string, string) -> bool): seq<Entry>
  {
    if s == [] then [] else InsertByName(SortByName(s[..|s| - 1], le), s[|s| - 1], le)
  }

  /** Inserting adds exactly the one entry. */
  lemma {:induction false} InsertPermutes(s: seq<Entry>, x: Entry, le: (string, string) -> bool)
    ensures multiset(InsertByName(s, x, le)) == multiset(s) + multiset{x}
  {
    if !(s == [] || le(s[|s| - 1].name, x.name)) {
      var init := s[..|s| - 1];
      InsertPermutes(init, x, le);
      assert s == init + [s[|s| - 1]];
    }
  }

  /** Sorting neither adds, drops nor alters an entry: the result is a permutation of its input. */
  lemma {:induction false} SortPermutes(s: seq<Entry>, le: (string, string) -> bool)
    ensures multiset(SortByName(s, le)) == multiset(s)
  {
    if s != [] {
      var init := s[..|s| - 1];
      SortPermutes(init, le);
      InsertPermutes(SortByName(init, le), s[|s| - 1], le);
      assert s == init + [s[|s| - 1]];
    }
  }

  /** The last entry after inserting is either `x` or the old last entry. */
  lemma {:induction false} InsertLast(s: seq<Entry>, x: Entry, le: (string, string) -> bool)
    ensures var r := InsertByName(s, x, le);
      |r| == |s| + 1 && (r[|r| - 1] == x || (s != [] && r[|r| - 1] == s[|s| - 1]))
  {
    if !(s == [] || le(s[|s| - 1].name, x.name)) {
      InsertLast(s[..|s| - 1], x, le);
    }
  }

  /** Under a total comparator, inserting into a sorted sequence keeps it sorted. */
  lemma {:induction false} InsertSorted(s: seq<Entry>, x: Entry, le: (string, string) -> bool)
    requires Total(le) && AdjacentSorted(s, le)
    ensures AdjacentSorted(InsertByName(s, x, le), le)
  {
    if !(s == [] || le(s[|s| - 1].name, x.name)) {
      var init, last := s[..|s| - 1], s[|s| - 1];
      assert AdjacentSorted(init, le) by {
        forall i | 0 < i < |init| ensures le(init[i - 1].name, init[i].name) {
          assert init[i - 1] == s[i - 1] && init[i] == s[i];
        }
      }
      InsertSorted(init, x, le);
      InsertLast(init, x, le);
      var r := InsertByName(init, x, le);
      assert le(x.name, last.name);
      if |init| > 0 { assert le(init[|init| - 1].name, last.name) by { assert s[|s| - 2] == init[|init| - 1]; } }
      assert le(r[|r| - 1].name, last.name);
    }
  }

  /** Under a total comparator each entry of the sorted result comes no later than the next. */
  lemma {:induction false} SortAdjacentSorted(s: seq<Entry>, le: (string, string) -> bool)
    requires Total(le)
    ensures AdjacentSorted(SortByName(s, le), le)
  {
    if s != [] {
      SortAdjacentSorted(s[..|s| - 1], le);
      InsertSorted(SortByName(s[..|s| - 1], le), s[|s| - 1], le);
    }
  }

  /** Under a transitive comparator, being sorted pair by pair is being sorted. */
  lemma AdjacentToSorted(s: seq<Entry>, le: (string, string) -> bool)
    requires TotalPreorder(le) && AdjacentSorted(s, le)
    ensures SortedByName(s, le)
  {
    forall i, j | 0 <= i < j < |s| ensures le(s[i].name, s[j].name) {
      var k := i + 1;
      while k < j
        invariant i < k <= j
        invariant le(s[i].name, s[k].name)
      {
        assert le(s[k].name, s[k + 1].name);
        k := k + 1;
      }
    }
  }

  /** The sorted result is a permutation of the input and is non-decreasing by name under a total preorder. */
  lemma SortCorrect(s: seq<Entry>, le: (string, string) -> bool)
    requires TotalPreorder(le)
    ensures multiset(SortByName(s, le)) == multiset(s)
    ensures SortedByName(SortByName(s, le), le)
  {
    SortPermutes(s, le);
    SortAdjacentSorted(s, le);
    AdjacentToSorted(SortByName(s, le), le);
  }

  /**
   * Where the insertion lands: if the entry before position `j` comes no
   * later than `x` (or `j` is the start) and every entry from `j` on does
   * not, `x` goes exactly at `j`.
   */
  lemma {:induction false} InsertAtGap(s: seq<Entry>, j: nat, x: Entry, le: (string, string) -> bool)
    requires j <= |s| && (j == 0 || le(s[j - 1].name, x.name))
    requires forall k :: j <= k < |s| ==> !le(s[k].name, x.name)
    ensures InsertByName(s, x, le) == s[..j] + [x] + s[j..]
  {
    if j < |s| {
      var init := s[..|s| - 1];
      assert init[..j] == s[..j];
      if j > 0 { assert init[j - 1] == s[j - 1]; }
      forall k | j <= k < |init| ensures !le(init[k].name, x.name) {
        assert init[k] == s[k];
      }
      InsertAtGap(init, j, x, le);
      assert s[j..] == init[j..] + [s[|s| - 1]];
    } else {
      assert s[..j] == s;
    }
  }

  /** The array after the shifts: the prefix, then `x` in the gap, then the shifted entries. */
  lemma ShiftedIsSplice(b: seq<Entry>, s: seq<Entry>, j: nat, x: Entry)
    requires j <= |s| && |b| == |s| + 1 && b[j] == x
    requires forall k :: 0 <= k < j ==> b[k] == s[k]
    requires forall k :: j < k < |b| ==> b[k] == s[k - 1]
    ensures b == s[..j] + [x] + s[j..]
  {
  }

  /**
   * The inner loop of one sort step: walking back from `i`, every entry of
   * `a[..i]` whose name does not come before `x`'s moves right by one,
   * and the returned `j` is the gap left behind, just after the last entry
   * that comes no later than `x`.
   */
  method ShiftRight(a: array<Entry>, i: nat, x: Entry, le: (string, string) -> bool) returns (j: nat)
    requires i < a.Length
    modifies a
    ensures j <= i && (j == 0 || le(old(a[j - 1]).name, x.name))
    ensures forall k :: j <= k < i ==> !le(old(a[k]).name, x.name)
    ensures forall k :: 0 <= k < j ==> a[k] == old(a[k])
    ensures forall k :: j < k <= i ==> a[k] == old(a[k - 1])
    ensures forall k :: i < k < a.Length ==> a[k] == old(a[k])
  {
    j := i;
    while j > 0 && !le(a[j - 1].name, x.name)
      invariant 0 <= j <= i
      invariant forall k :: 0 <= k < j ==> a[k] == old(a[k])
      invariant forall k :: j < k <= i ==> a[k] == old(a[k - 1])
      invariant forall k :: i < k < a.Length ==> a[k] == old(a[k])
      invariant forall k :: j <= k < i ==> !le(old(a[k]).name, x.name)
    {
      a[j] := a[j - 1];
      j := j - 1;
    }
  }

  /**
   * One step of the sort: `a[i]` moves left into the sorted prefix
   * `a[..i]`, past every entry that does not come before it, by shifting
   * those entries right by one.
   */
  method InsertAt(a: array<Entry>, i: nat, le: (string, string) -> bool)
    requires i < a.Length
    modifies a
    ensures a[..i + 1] == InsertByName(old(a[..i]), old(a[i]), le)
    ensures forall k :: i < k < a.Length ==> a[k] == old(a[k])
  {
    ghost var sorted := a[..i];
    var x := a[i];
    var j := ShiftRight(a, i, x, le);
    a[j] := x;
    InsertAtGap(sorted, j, x, le);
    ShiftedIsSplice(a[..i + 1], sorted, j, x);
  }

  /** Sorting one more entry is inserting it into the sorted prefix. */
  lemma SortSnoc(s: seq<Entry>, i: nat, le: (string, string) -> bool)
    requires i < |s|
    ensures SortByName(s[..i + 1], le) == InsertByName(SortByName(s[..i], le), s[i], le)
  {
    assert s[..i + 1][..i] == s[..i];
  }

  /**
   * `uniq.sort(...)` in place: after the `i`-th step the prefix `a[..i]` is
   * the sorted prefix of the input, and the rest is untouched.
   */
  method SortInPlace(a: array<Entry>, le: (string, string) -> bool)
    modifies a
    ensures a[..] == SortByName(old(a[..]), le)
  {
    ghost var input := a[..];
    var i := 0;
    while i < a.Length
      invariant 0 <= i <= a.Length
      invariant a[..i] == SortByName(input[..i], le)
      invariant forall k :: i <= k < a.Length ==> a[k] == input[k]
    {
      InsertAt(a, i, le);
      SortSnoc(input, i, le);
      i := i + 1;
    }
    assert input[..a.Length] == input;
    assert a[..] == a[..a.Length];
  }
}
