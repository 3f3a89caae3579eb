/**
 * The "recent entries" feed: a copy of the entries sorted newest first
 * (a stable sort, so equal timestamps keep document order), cut to ten.
 */
module Recent {
  import opened Wrappers
  import opened Features

  /** `recentEntryCount`. */
  const RecentEntryCount := 10

  /** Entries are ordered by non-increasing creation time. */
  ghost predicate NewestFirst(s: seq<Feature>)
  {
    forall i, j :: 0 <= i < j < |s| ==> s[j].createdAt <= s[i].createdAt
  }

  /** Putting an entry at least as new as the first one in front keeps the order. */
  lemma ConsNewestFirst(h: Feature, rest: seq<Feature>)
    requires NewestFirst(rest)
    requires rest == [] || rest[0].createdAt <= h.createdAt
    ensures NewestFirst([h] + rest)
  {
    assert forall k :: 0 < k < |rest| ==> rest[k].createdAt <= rest[0].createdAt;
  }

  /**
   * Puts `f` in front of the first entry that is not newer than it, so that
   * `f` stays ahead of later entries with the same time.
   */
  function InsertNewest(f: Feature, s: seq<Feature>): (r: seq<Feature>)
    requires NewestFirst(s)
    ensures NewestFirst(r)
    ensures multiset(r) == multiset(s) + multiset{f}
    ensures r[0] == f || (s != [] && r[0] == s[0])
  {
    if s == [] then [f]
    else if s[0].createdAt <= f.createdAt then
      ConsNewestFirst(f, s);
      [f] + s
    else
      var rest := InsertNewest(f, s[1..]);
      ConsNewestFirst(s[0], rest);
      assert multiset(s) == multiset{s[0]} + multiset(s[1..]) by { assert s == [s[0]] + s[1..]; }
      [s[0]] + rest
  }

  /** The comparator sort `(a, b) => time(b) - time(a)` applied to a copy. */
  function SortNewestFirst(fs: seq<Feature>): (r: seq<Feature>)
    ensures NewestFirst(r)
    ensures multiset(r) == multiset(fs)
  {
    if fs == [] then []
    else
      var r := InsertNewest(fs[0], SortNewestFirst(fs[1..]));
      assert fs == [fs[0]] + fs[1..];
      r
  }

  lemma TakeDrop(s: seq<Feature>, n: nat)
    requires n <= |s|
    ensures multiset(s) == multiset(s[..n]) + multiset(s[n..])
  {
    assert s == s[..n] + s[n..];
  }

  /** `populateRecentEntries`' selection: sorted copy, first ten. */
  function RecentEntries(fs: seq<Feature>): (r: seq<Feature>)
    ensures |r| == if |fs| < RecentEntryCount then |fs| else RecentEntryCount
    ensures NewestFirst(r)
    ensures multiset(r) <= multiset(fs)
  {
    var sorted := SortNewestFirst(fs);
    assert |sorted| == |fs| by { assert |multiset(sorted)| == |multiset(fs)|; }
    var n := if |sorted| < RecentEntryCount then |sorted| else RecentEntryCount;
    TakeDrop(sorted, n);
    sorted[..n]
  }

  /** In a newest-first sequence, nothing after position `n` is newer than anything before it. */
  lemma PrefixIsNewest(sorted: seq<Feature>, n: nat, shown: Feature, omitted: Feature)
    requires NewestFirst(sorted) && n <= |sorted|
    requires shown in sorted[..n] && omitted in sorted[n..]
    ensures omitted.createdAt <= shown.createdAt
  {
    var j :| 0 <= j < |sorted| - n && sorted[n..][j] == omitted;
    var i :| 0 <= i < n && sorted[..n][i] == shown;
    assert sorted[i] == shown && sorted[n + j] == omitted;
  }

  /** The entries the feed leaves out are, as a multiset, the tail of the sorted copy. */
  lemma OmittedAreTail(fs: seq<Feature>)
    ensures multiset(fs) - multiset(RecentEntries(fs)) ==
            multiset(SortNewestFirst(fs)[|RecentEntries(fs)|..])
  {
    var sorted := SortNewestFirst(fs);
    TakeDrop(sorted, |RecentEntries(fs)|);
  }

  /**
   * The feed shows the newest entries: no entry left out is newer than any
   * entry shown.
   */
  lemma RecentEntriesAreNewest(fs: seq<Feature>, shown: Feature, omitted: Feature)
    requires shown in RecentEntries(fs)
    requires omitted in multiset(fs) - multiset(RecentEntries(fs))
    ensures omitted.createdAt <= shown.createdAt
  {
    var sorted := SortNewestFirst(fs);
    var n := |RecentEntries(fs)|;
    OmittedAreTail(fs);
    assert omitted in multiset(sorted[n..]);
    PrefixIsNewest(sorted, n, shown, omitted);
  }

  /** Every entry in the feed is one of the entries. */
  lemma RecentEntriesDrawnFromInput(fs: seq<Feature>, x: Feature)
    requires x in RecentEntries(fs)
    ensures x in fs
  {
    assert x in multiset(RecentEntries(fs));
  }

  /** `v.toLowerCase()` can be called: the value is a string. */
  predicate LowerCasable(v: Option<Value>)
  {
    v.Some? && v.value.Str?
  }

  /**
   * A feed card can be written: the two fields its text lower-cases,
   * `Wall_Condition` and `Vegetation_Cover`, hold strings. Otherwise the
   * `toLowerCase` call throws.
   */
  predicate CardRenders(f: Feature)
  {
    LowerCasable(Get(f.properties, "Wall_Condition")) &&
    LowerCasable(Get(f.properties, "Vegetation_Cover"))
  }

  /** Every card of the feed can be written. */
  ghost predicate FeedRenders(s: seq<Feature>)
  {
    forall i :: 0 <= i < |s| ==> CardRenders(s[i])
  }

  /** The longest prefix of `s` whose elements all satisfy `ok`. */
  function TakeWhile(s: seq<Feature>, ok: Feature -> bool): (r: seq<Feature>)
    ensures |r| <= |s| && r == s[..|r|]
    ensures forall k :: 0 <= k < |r| ==> ok(r[k])
    ensures |r| < |s| ==> !ok(s[|r|])
  {
    if s == [] || !ok(s[0]) then []
    else [s[0]] + TakeWhile(s[1..], ok)
  }

  /** The prefix ends at the first element that fails `ok`. */
  lemma TakeWhileStops(s: seq<Feature>, ok: Feature -> bool, i: nat)
    requires i < |s| && !ok(s[i])
    requires forall k :: 0 <= k < i ==> ok(s[k])
    ensures TakeWhile(s, ok) == s[..i]
  {
    var r := TakeWhile(s, ok);
    assert |r| <= i by {
      assert forall k :: 0 <= k < |r| ==> r[k] == s[k];
    }
  }

  /**
   * The cards `sorted.forEach` appends before a card throws: the longest
   * prefix whose cards can all be written. The failing card is not appended.
   */
  function RenderedCards(s: seq<Feature>): (r: seq<Feature>)
    ensures |r| <= |s| && r == s[..|r|]
    ensures FeedRenders(r)
    ensures |r| < |s| ==> !CardRenders(s[|r|])
  {
    TakeWhile(s, CardRenders)
  }

  /** The whole feed is appended exactly when every card can be written. */
  lemma RenderedCardsComplete(s: seq<Feature>)
    ensures RenderedCards(s) == s <==> FeedRenders(s)
  {
  }

  /**
   * The card loop of `populateRecentEntries`: appends one card per entry
   * until a card throws. `completed` says whether the loop ran to the end.
   */
  method RenderCards(feed: seq<Feature>) returns (cards: seq<Feature>, completed: bool)
    ensures cards == RenderedCards(feed)
    ensures completed <==> FeedRenders(feed)
  {
    cards := [];
    var i := 0;
    while i < |feed|
      invariant 0 <= i <= |feed|
      invariant cards == feed[..i] && FeedRenders(cards)
    {
      if !CardRenders(feed[i]) {
        assert forall k :: 0 <= k < i ==> CardRenders(feed[k]) by {
          assert forall k :: 0 <= k < i ==> cards[k] == feed[k];
        }
        TakeWhileStops(feed, CardRenders, i);
        return cards, false;
      }
      cards := cards + [feed[i]];
      assert cards == feed[..i + 1];
      i := i + 1;
    }
    assert cards == feed;
    RenderedCardsComplete(feed);
    completed := true;
  }
}
