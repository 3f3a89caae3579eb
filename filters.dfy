/**
 * The filter behind the search bar and the two drop-downs: a stable
 * selection of the entries that satisfy every non-empty criterion.
 */
module Filters {
  import opened Wrappers
  import opened Text
  import opened Features

  /** The search-bar text, the selected wall type and the selected vegetation cover; "" means "any". */
  datatype Criteria = Criteria(text: string, wallType: string, vegetation: string)

  /** The state after the reset action: every criterion empty. */
  const NoCriteria := Criteria("", "", "")

  /**
   * The predicate handed to `featureData.filter`, with its early returns:
   * the query is lower-cased first; an empty criterion imposes nothing.
   */
  predicate Keep(f: Feature, c: Criteria)
  {
    var txt := Lower(c.text);
    var p := f.properties;
    if txt != "" && !Includes(SearchText(p), txt) then false
    else if c.wallType != "" && Get(p, "Wall_Type") != Some(Str(c.wallType)) then false
    else if c.vegetation != "" && Get(p, "Vegetation_Cover") != Some(Str(c.vegetation)) then false
    else true
  }

  /** The text criterion: an empty query, or one whose lower-case form stands in the entry's search text. */
  ghost predicate TextCriterion(f: Feature, c: Criteria)
  {
    c.text == "" || Occurs(Lower(c.text), SearchText(f.properties))
  }

  /** The wall-type criterion: none selected, or `Wall_Type` is exactly the selected string. */
  predicate WallCriterion(f: Feature, c: Criteria)
  {
    c.wallType == "" || Get(f.properties, "Wall_Type") == Some(Str(c.wallType))
  }

  /** The vegetation criterion: none selected, or `Vegetation_Cover` is exactly the selected string. */
  predicate VegetationCriterion(f: Feature, c: Criteria)
  {
    c.vegetation == "" || Get(f.properties, "Vegetation_Cover") == Some(Str(c.vegetation))
  }

  /** An entry is kept exactly when all three criteria hold (AND, never OR). */
  lemma KeepIffAllCriteria(f: Feature, c: Criteria)
    ensures Keep(f, c) <==> TextCriterion(f, c) && WallCriterion(f, c) && VegetationCriterion(f, c)
  {
    IncludesIffOccurs(SearchText(f.properties), Lower(c.text));
  }

  /** Each lower-cased property string, including each element of a list value, stands in the search text. */
  lemma PropertyStringInSearchText(f: Feature, i: nat, s: string) returns (at: nat)
    requires i < |f.properties|
    requires s in ValueStrings(f.properties[i].value)
    ensures OccursAt(Lower(s), SearchText(f.properties), at)
  {
    var items := FlatValues(f.properties);
    FlatValuesHoldPropertyStrings(f.properties, i, s);
    var k :| 0 <= k < |items| && items[k] == s;
    ItemOccursInJoin(items, " ", k);
    at :| OccursAt(s, Join(items, " "), at);
    LowerKeepsOccurrence(s, Join(items, " "), at);
  }

  /**
   * A query that is a substring of any lower-cased property string, including
   * one element of a list value, keeps the entry as far as text goes.
   */
  lemma SubstringOfAnyValueMatches(f: Feature, i: nat, s: string, q: string)
    requires i < |f.properties|
    requires s in ValueStrings(f.properties[i].value)
    requires Occurs(q, Lower(s))
    ensures TextCriterion(f, Criteria(q, "", ""))
  {
    var at := PropertyStringInSearchText(f, i, s);
    var j: nat :| OccursAt(q, Lower(s), j);
    LowerFixesPiece(q, s, j);
    OccursTransitive(q, Lower(s), SearchText(f.properties), at, j);
  }

  /** `featureData.filter(...)`: the kept entries, in their original order. */
  function Filter(fs: seq<Feature>, c: Criteria): (r: seq<Feature>)
    ensures |r| <= |fs|
    ensures forall x :: x in r ==> x in fs && Keep(x, c)
  {
    if fs == [] then []
    else
      var init := Filter(fs[..|fs| - 1], c);
      var last := fs[|fs| - 1];
      assert forall x :: x in fs[..|fs| - 1] ==> x in fs;
      if Keep(last, c) then init + [last] else init
  }

  /** The positions of `fs` that `Filter` keeps, in increasing order. */
  function KeptPositions(fs: seq<Feature>, c: Criteria): seq<nat>
  {
    if fs == [] then []
    else
      var init := KeptPositions(fs[..|fs| - 1], c);
      if Keep(fs[|fs| - 1], c) then init + [|fs| - 1] else init
  }

  /**
   * The filter is a stable selection: its result is `fs` at strictly
   * increasing positions, and a position is selected iff its entry is kept.
   */
  lemma {:induction false} FilterIsStableSelection(fs: seq<Feature>, c: Criteria)
    ensures |KeptPositions(fs, c)| == |Filter(fs, c)|
    ensures forall k :: 0 <= k < |Filter(fs, c)| ==>
      KeptPositions(fs, c)[k] < |fs| && Filter(fs, c)[k] == fs[KeptPositions(fs, c)[k]]
    ensures forall k, l :: 0 <= k < l < |KeptPositions(fs, c)| ==> KeptPositions(fs, c)[k] < KeptPositions(fs, c)[l]
    ensures forall i :: 0 <= i < |fs| ==> (i in KeptPositions(fs, c) <==> Keep(fs[i], c))
  {
    if fs != [] {
      var n := |fs| - 1;
      var init := fs[..n];
      FilterIsStableSelection(init, c);
      forall i | 0 <= i < n
        ensures fs[i] == init[i]
      {
      }
      assert forall k :: 0 <= k < |KeptPositions(init, c)| ==> KeptPositions(init, c)[k] < n;
    }
  }

  /** With every criterion empty, the filter returns all entries in their order. */
  lemma {:induction false} FilterNoCriteriaIsIdentity(fs: seq<Feature>)
    ensures Filter(fs, NoCriteria) == fs
  {
    if fs != [] {
      FilterNoCriteriaIsIdentity(fs[..|fs| - 1]);
      assert fs[..|fs| - 1] + [fs[|fs| - 1]] == fs;
    }
  }

  /** Filtering by `c` is filtering by `c1` and then by `c2` whenever `c` keeps what both keep. */
  lemma {:induction false} FilterConjunction(fs: seq<Feature>, c: Criteria, c1: Criteria, c2: Criteria)
    requires forall x :: Keep(x, c) <==> Keep(x, c1) && Keep(x, c2)
    ensures Filter(fs, c) == Filter(Filter(fs, c1), c2)
  {
    if fs != [] {
      var n := |fs| - 1;
      FilterConjunction(fs[..n], c, c1, c2);
      var mid := Filter(fs[..n], c1);
      if Keep(fs[n], c1) {
        assert (mid + [fs[n]])[..|mid|] == mid;
      }
    }
  }

  /** Filtering an already filtered list with the same criteria changes nothing. */
  lemma FilterIdempotent(fs: seq<Feature>, c: Criteria)
    ensures Filter(Filter(fs, c), c) == Filter(fs, c)
  {
    FilterConjunction(fs, c, c, c);
  }

  /** AND semantics: the three criteria applied together equal the three applied one after another. */
  lemma FilterIsConjunctionOfCriteria(fs: seq<Feature>, c: Criteria)
    ensures Filter(fs, c) ==
      Filter(Filter(Filter(fs, Criteria(c.text, "", "")), Criteria("", c.wallType, "")), Criteria("", "", c.vegetation))
  {
    var t, w, v := Criteria(c.text, "", ""), Criteria("", c.wallType, ""), Criteria("", "", c.vegetation);
    var tw := Criteria(c.text, c.wallType, "");
    FilterConjunction(fs, tw, t, w);
    FilterConjunction(fs, c, tw, v);
  }

  /** Distinct entry ids stay distinct after filtering. */
  lemma FilterKeepsUniqueIds(fs: seq<Feature>, c: Criteria)
    requires UniqueEntryIds(fs)
    ensures UniqueEntryIds(Filter(fs, c))
  {
    FilterIsStableSelection(fs, c);
  }
}
