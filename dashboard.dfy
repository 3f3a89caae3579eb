/**
 * The page's filter-and-sync state: the loaded entries, the index from
 * `entry_id` to the marker drawn for each entry, and the markers the
 * cluster layer currently shows.
 */
module Dashboard {
  import opened Wrappers
  import opened Features
  import opened Filters
  import opened Vocabulary
  import opened Recent

  /**
   * A map marker and the entry it was drawn for. On the page, Leaflet sets
   * `marker.feature` to the kept entry each time a filter pass adds the
   * marker, so under a shared id it can name another entry with that id;
   * `feature` here keeps the entry the marker was drawn for.
   */
  class Marker {
    const feature: Feature

    constructor (feature: Feature)
      ensures this.feature == feature
    {
      this.feature := feature;
    }
  }

  /** The position of the last entry whose key is `key`, or -1. */
  function LastIndex(fs: seq<Feature>, key: string): (r: int)
    ensures -1 <= r < |fs|
    ensures r >= 0 ==> EntryKey(fs[r]) == key
    ensures forall j :: r < j < |fs| ==> EntryKey(fs[j]) != key
  {
    if fs == [] then -1
    else if EntryKey(fs[|fs| - 1]) == key then |fs| - 1
    else LastIndex(fs[..|fs| - 1], key)
  }

  /** `markerIndex` after `markerIndex[entry_id] = marker` for each entry and its marker, in order. */
  function IndexOver(fs: seq<Feature>, ms: seq<Marker>): map<string, Marker>
    requires |fs| == |ms|
  {
    if fs == [] then map[]
    else IndexOver(fs[..|fs| - 1], ms[..|ms| - 1])[EntryKey(fs[|fs| - 1]) := ms[|ms| - 1]]
  }

  /**
   * The index holds a key exactly when some entry has it, and then the
   * marker of the LAST such entry: a later write replaces an earlier one.
   */
  lemma {:induction false} IndexLastWriteWins(fs: seq<Feature>, ms: seq<Marker>, key: string)
    requires |fs| == |ms|
    ensures key in IndexOver(fs, ms) <==> LastIndex(fs, key) >= 0
    ensures key in IndexOver(fs, ms) ==> IndexOver(fs, ms)[key] == ms[LastIndex(fs, key)]
  {
    if fs != [] {
      var n := |fs| - 1;
      IndexLastWriteWins(fs[..n], ms[..n], key);
      if EntryKey(fs[n]) != key {
        assert forall j :: 0 <= j < n ==> fs[..n][j] == fs[j];
      }
    }
  }

  /**
   * The markers `L.geoJSON` hands to the cluster layer for `fs`: each
   * entry's indexed marker, in order; an entry whose key is not indexed
   * yields no marker.
   */
  function LayerFor(fs: seq<Feature>, index: map<string, Marker>): seq<Marker>
  {
    if fs == [] then []
    else
      var key := EntryKey(fs[|fs| - 1]);
      LayerFor(fs[..|fs| - 1], index) + (if key in index then [index[key]] else [])
  }

  /**
   * The markers a layer shows, as a set: a marker is in the layer exactly
   * when it is the indexed marker of one of the entries.
   */
  lemma {:induction false} LayerShowsIndexedMarkers(fs: seq<Feature>, index: map<string, Marker>, m: Marker)
    ensures m in LayerFor(fs, index) <==> exists f :: f in fs && EntryKey(f) in index && index[EntryKey(f)] == m
  {
    if fs != [] {
      var n := |fs| - 1;
      LayerShowsIndexedMarkers(fs[..n], index, m);
      assert fs == fs[..n] + [fs[n]];
      if exists f :: f in fs && EntryKey(f) in index && index[EntryKey(f)] == m {
        var f :| f in fs && EntryKey(f) in index && index[EntryKey(f)] == m;
        if f != fs[n] {
          assert f in fs[..n];
        }
      }
    }
  }

  /** An empty index yields an empty layer. */
  lemma {:induction false} LayerForEmptyIndex(fs: seq<Feature>)
    ensures LayerFor(fs, map[]) == []
  {
    if fs != [] {
      LayerForEmptyIndex(fs[..|fs| - 1]);
    }
  }

  /** When every entry is indexed, the layer has one marker per entry, the indexed one, in order. */
  lemma {:induction false} LayerForIndexed(fs: seq<Feature>, index: map<string, Marker>)
    requires forall f :: f in fs ==> EntryKey(f) in index
    ensures |LayerFor(fs, index)| == |fs|
    ensures forall k :: 0 <= k < |fs| ==> LayerFor(fs, index)[k] == index[EntryKey(fs[k])]
  {
    if fs != [] {
      var n := |fs| - 1;
      assert forall f :: f in fs[..n] ==> f in fs;
      LayerForIndexed(fs[..n], index);
      assert forall k :: 0 <= k < n ==> fs[..n][k] == fs[k];
    }
  }

  /** `ms[i]` is the marker drawn for `fs[i]`, and no marker object is drawn twice. */
  ghost predicate Drawn(fs: seq<Feature>, ms: seq<Marker>)
  {
    |ms| == |fs| &&
    (forall i :: 0 <= i < |ms| ==> ms[i].feature == fs[i]) &&
    (forall i, j :: 0 <= i < j < |ms| ==> ms[i] != ms[j])
  }

  /** Every entry's key is indexed, under one of the drawn markers, drawn for an entry with that key. */
  lemma IndexCoversEntries(fs: seq<Feature>, ms: seq<Marker>, f: Feature)
    requires Drawn(fs, ms) && f in fs
    ensures EntryKey(f) in IndexOver(fs, ms)
    ensures IndexOver(fs, ms)[EntryKey(f)] in ms
    ensures EntryKey(IndexOver(fs, ms)[EntryKey(f)].feature) == EntryKey(f)
  {
    var i :| 0 <= i < |fs| && fs[i] == f;
    IndexLastWriteWins(fs, ms, EntryKey(f));
  }

  /** With unique ids, an entry's key leads to the marker drawn for that very entry. */
  lemma IndexIdentityWhenUnique(fs: seq<Feature>, ms: seq<Marker>, k: nat)
    requires Drawn(fs, ms) && UniqueEntryIds(fs) && k < |fs|
    ensures EntryKey(fs[k]) in IndexOver(fs, ms) && IndexOver(fs, ms)[EntryKey(fs[k])] == ms[k]
  {
    IndexLastWriteWins(fs, ms, EntryKey(fs[k]));
  }

  /**
   * What one filter pass shows: one marker per kept entry, in filter order,
   * each the indexed marker for that entry's id and one of the drawn
   * markers; with unique ids, the marker drawn for that very entry, and no
   * marker twice.
   */
  lemma FilterPassShowsIndexedMarkers(fs: seq<Feature>, ms: seq<Marker>, c: Criteria)
    requires Drawn(fs, ms)
    ensures |LayerFor(Filter(fs, c), IndexOver(fs, ms))| == |Filter(fs, c)|
    ensures forall k :: 0 <= k < |Filter(fs, c)| ==>
      EntryKey(Filter(fs, c)[k]) in IndexOver(fs, ms) &&
      LayerFor(Filter(fs, c), IndexOver(fs, ms))[k] == IndexOver(fs, ms)[EntryKey(Filter(fs, c)[k])] &&
      LayerFor(Filter(fs, c), IndexOver(fs, ms))[k] in ms &&
      EntryKey(LayerFor(Filter(fs, c), IndexOver(fs, ms))[k].feature) == EntryKey(Filter(fs, c)[k])
    ensures UniqueEntryIds(fs) ==>
      (forall k :: 0 <= k < |Filter(fs, c)| ==> LayerFor(Filter(fs, c), IndexOver(fs, ms))[k].feature == Filter(fs, c)[k]) &&
      (forall k, l :: 0 <= k < l < |Filter(fs, c)| ==> LayerFor(Filter(fs, c), IndexOver(fs, ms))[k] != LayerFor(Filter(fs, c), IndexOver(fs, ms))[l])
  {
    var filtered := Filter(fs, c);
    var index := IndexOver(fs, ms);
    forall f | f in filtered
      ensures EntryKey(f) in index && index[EntryKey(f)] in ms && EntryKey(index[EntryKey(f)].feature) == EntryKey(f)
    {
      IndexCoversEntries(fs, ms, f);
    }
    LayerForIndexed(filtered, index);
    if UniqueEntryIds(fs) {
      var layer := LayerFor(filtered, index);
      FilterKeepsUniqueIds(fs, c);
      FilterIsStableSelection(fs, c);
      forall k | 0 <= k < |filtered|
        ensures layer[k].feature == filtered[k]
      {
        IndexIdentityWhenUnique(fs, ms, KeptPositions(fs, c)[k]);
      }
      forall k, l | 0 <= k < l < |filtered|
        ensures layer[k] != layer[l]
      {
        assert EntryKey(layer[k].feature) != EntryKey(layer[l].feature);
      }
    }
  }

  /** Drawing a marker per entry in order, indexing each by key: the body of `pointToLayer`. */
  method DrawMarkers(data: seq<Feature>) returns (created: seq<Marker>, index: map<string, Marker>)
    ensures Drawn(data, created)
    ensures index == IndexOver(data, created)
    ensures forall i :: 0 <= i < |created| ==> fresh(created[i])
  {
    created := [];
    index := map[];
    var k := 0;
    while k < |data|
      invariant 0 <= k <= |data| && |created| == k
      invariant forall i :: 0 <= i < k ==> created[i].feature == data[i] && fresh(created[i])
      invariant forall i, j :: 0 <= i < j < k ==> created[i] != created[j]
      invariant index == IndexOver(data[..k], created)
    {
      var m := new Marker(data[k]);
      index := index[EntryKey(data[k]) := m];
      assert data[..k + 1][..k] == data[..k];
      assert (created + [m])[..k] == created;
      created := created + [m];
      k := k + 1;
    }
    assert data[..k] == data;
  }

  /** `L.geoJSON(filtered, { pointToLayer })`: a fresh layer holding each kept entry's indexed marker. */
  method BuildLayer(filtered: seq<Feature>, index: map<string, Marker>) returns (layer: seq<Marker>)
    ensures layer == LayerFor(filtered, index)
  {
    layer := [];
    var k := 0;
    while k < |filtered|
      invariant 0 <= k <= |filtered|
      invariant layer == LayerFor(filtered[..k], index)
    {
      var key := EntryKey(filtered[k]);
      if key in index {
        layer := layer + [index[key]];
      }
      assert filtered[..k + 1][..k] == filtered[..k];
      k := k + 1;
    }
    assert filtered[..k] == filtered;
  }

  /**
   * The popup of an entry can be written. `Stone_Shape?.length` is truthy
   * for a non-empty string as well as for a non-empty list, and a string
   * has no `join`: a non-empty string there makes `onEachFeature` throw.
   */
  predicate PopupRenders(f: Feature)
  {
    match Get(f.properties, "Stone_Shape")
    case Some(Str(s)) => s == ""
    case _ => true
  }

  /** Every entry's popup can be written. */
  ghost predicate PopupsRender(fs: seq<Feature>)
  {
    forall i :: 0 <= i < |fs| ==> PopupRenders(fs[i])
  }

  /**
   * How many entries the `L.geoJSON` pass of the load handler reaches: all
   * of them when every popup can be written, otherwise those up to and
   * including the first whose popup throws, since `pointToLayer` has
   * already drawn and indexed that entry's marker when `onEachFeature` runs.
   */
  function EntriesReached(fs: seq<Feature>): (n: nat)
    ensures n <= |fs|
    ensures PopupsRender(fs) ==> n == |fs|
    ensures !PopupsRender(fs) ==>
      0 < n && !PopupRenders(fs[n - 1]) && forall k :: 0 <= k < n - 1 ==> PopupRenders(fs[k])
  {
    var written := TakeWhile(fs, PopupRenders);
    if |written| < |fs| then |written| + 1 else |fs|
  }

  class Dashboard {
    /** `featureData`: the entries of the point-data document. */
    var featureData: seq<Feature>
    /** `markerIndex`: `entry_id` to marker. */
    var markerIndex: map<string, Marker>
    /** The markers the cluster group holds, in the order they were added. */
    var visible: seq<Marker>
    /** The marker drawn for each entry the load handler reached, position by position. */
    ghost var markers: seq<Marker>
    /** Whether the cluster group has been added to the map; only then are its markers seen. */
    ghost var onMap: bool

    /**
     * The drawn markers belong to a prefix of the entries, one distinct
     * marker per entry; the index is what writing those markers in order
     * produces; the cluster group holds only drawn markers; and the group is
     * on the map only once every entry has its marker.
     */
    ghost predicate Valid()
      reads this
    {
      |markers| <= |featureData| &&
      Drawn(featureData[..|markers|], markers) &&
      markerIndex == IndexOver(featureData[..|markers|], markers) &&
      (forall m :: m in visible ==> m in markers) &&
      (onMap ==> |markers| == |featureData|)
    }

    /** Every entry has its marker. */
    ghost predicate AllDrawn()
      reads this
    {
      |markers| == |featureData|
    }

    /** The page before the point data arrives: no entries, no markers, an empty group off the map. */
    ghost predicate BeforeLoad()
      reads this
    {
      featureData == [] && markers == [] && visible == [] && !onMap
    }

    constructor ()
      ensures Valid() && BeforeLoad()
      ensures markerIndex == map[]
    {
      featureData := [];
      markerIndex := map[];
      visible := [];
      markers := [];
      onMap := false;
    }

    /**
     * The handler of the point-data fetch as it is meant to work: stores the
     * entries, derives the drop-down options, writes every card of the
     * recent-entries feed (a missing field shown with a fallback, as the
     * popup does), draws one marker per entry, indexes it by `entry_id`,
     * writes every popup and puts the cluster group, holding every marker,
     * on the map.
     */
    method Load(data: seq<Feature>) returns (wallTypes: seq<string>, vegOptions: seq<string>, recent: seq<Feature>)
      requires Valid() && BeforeLoad()
      modifies this
      ensures Valid() && onMap && AllDrawn()
      ensures featureData == data
      ensures markerIndex == IndexOver(data, markers)
      ensures visible == markers
      ensures forall i :: 0 <= i < |markers| ==> fresh(markers[i])
      ensures forall f :: f in data ==> EntryKey(f) in markerIndex
      ensures wallTypes == DistinctTruthy(data, "Wall_Type")
      ensures forall v :: v in vegOptions <==> HasTruthy(data, "Vegetation_Cover", v)
      ensures NoDuplicates(vegOptions) && VegSorted(vegOptions)
      ensures recent == RecentEntries(data)
    {
      wallTypes, vegOptions := PopulateFilters(data);
      recent := RecentEntries(data);
      ShowEntries(data);
      forall f | f in data
        ensures EntryKey(f) in markerIndex
      {
        IndexCoversEntries(data, markers, f);
      }
    }

    /**
     * The handler of the point-data fetch as written. The feed is written
     * before any marker is drawn, so a card that throws ends the handler
     * with no marker drawn. Otherwise the `L.geoJSON` pass draws and indexes
     * markers until a popup throws; the cluster group then stays empty and
     * never reaches the map. Only when every card and every popup can be
     * written is every marker shown.
     */
    method LoadAsWritten(data: seq<Feature>) returns (wallTypes: seq<string>, vegOptions: seq<string>, cards: seq<Feature>)
      requires Valid() && BeforeLoad()
      modifies this
      ensures Valid()
      ensures featureData == data
      ensures wallTypes == DistinctTruthy(data, "Wall_Type")
      ensures forall v :: v in vegOptions <==> HasTruthy(data, "Vegetation_Cover", v)
      ensures NoDuplicates(vegOptions) && VegSorted(vegOptions)
      ensures cards == RenderedCards(RecentEntries(data))
      ensures onMap <==> FeedRenders(RecentEntries(data)) && PopupsRender(data)
      ensures FeedRenders(RecentEntries(data)) ==>
        |markers| == EntriesReached(data) &&
        markerIndex == IndexOver(data[..|markers|], markers) &&
        forall i :: 0 <= i < |markers| ==> fresh(markers[i])
      ensures !FeedRenders(RecentEntries(data)) ==> markers == [] && markerIndex == map[]
      ensures onMap ==> visible == markers
      ensures !onMap ==> visible == []
    {
      wallTypes, vegOptions := PopulateFilters(data);
      var completed;
      cards, completed := RenderCards(RecentEntries(data));
      if completed {
        ShowEntriesAsWritten(data);
      } else {
        featureData := data;
      }
    }

    /**
     * Stores the entries, then the `L.geoJSON` pass as it is meant to work:
     * one new marker per entry, indexed by `entry_id`, all of them in the
     * cluster group, and the group on the map.
     */
    method ShowEntries(data: seq<Feature>)
      requires Valid() && BeforeLoad()
      modifies this
      ensures Valid() && onMap
      ensures featureData == data
      ensures markerIndex == IndexOver(data, markers)
      ensures visible == markers
      ensures forall i :: 0 <= i < |markers| ==> fresh(markers[i])
    {
      featureData := data;
      var created;
      created, markerIndex := DrawMarkers(data);
      markers := created;
      visible := created;
      onMap := true;
      assert data[..|created|] == data;
    }

    /**
     * Stores the entries, then the `L.geoJSON` pass as written: markers are
     * drawn and indexed for the entries it reaches; the cluster group gets
     * them and goes on the map only when no popup throws.
     */
    method ShowEntriesAsWritten(data: seq<Feature>)
      requires Valid() && BeforeLoad()
      modifies this
      ensures Valid()
      ensures featureData == data
      ensures |markers| == EntriesReached(data)
      ensures markerIndex == IndexOver(data[..|markers|], markers)
      ensures forall i :: 0 <= i < |markers| ==> fresh(markers[i])
      ensures onMap <==> PopupsRender(data)
      ensures onMap ==> visible == markers
      ensures !onMap ==> visible == []
    {
      featureData := data;
      var written := TakeWhile(data, PopupRenders);
      var reached := if |written| < |data| then |written| + 1 else |data|;
      var created;
      created, markerIndex := DrawMarkers(data[..reached]);
      markers := created;
      if |written| == |data| {
        assert written == data;
        visible := created;
        onMap := true;
      }
    }

    /**
     * `applyFilters`: clears the cluster group, filters the entries, and
     * adds the indexed marker of each kept entry.
     */
    method ApplyFilters(c: Criteria)
      requires Valid()
      modifies this`visible
      ensures Valid()
      ensures visible == LayerFor(Filter(featureData, c), markerIndex)
      ensures forall m :: m in visible <==>
        exists f :: f in Filter(featureData, c) && EntryKey(f) in markerIndex && markerIndex[EntryKey(f)] == m
      ensures AllDrawn() ==> |visible| == |Filter(featureData, c)|
      ensures AllDrawn() ==> forall k :: 0 <= k < |visible| ==>
        EntryKey(Filter(featureData, c)[k]) in markerIndex &&
        visible[k] == markerIndex[EntryKey(Filter(featureData, c)[k])] &&
        EntryKey(visible[k].feature) == EntryKey(Filter(featureData, c)[k])
      ensures AllDrawn() && UniqueEntryIds(featureData) ==>
        (forall k :: 0 <= k < |visible| ==> visible[k].feature == Filter(featureData, c)[k]) &&
        (forall k, l :: 0 <= k < l < |visible| ==> visible[k] != visible[l])
      ensures markerIndex == map[] ==> visible == []
    {
      visible := [];
      var newLayer := BuildLayer(Filter(featureData, c), markerIndex);
      visible := visible + newLayer;
      forall m
        ensures m in visible <==>
          exists f :: f in Filter(featureData, c) && EntryKey(f) in markerIndex && markerIndex[EntryKey(f)] == m
        ensures m in visible ==> m in markers
      {
        LayerShowsIndexedMarkers(Filter(featureData, c), markerIndex, m);
        if m in visible {
          var f :| f in Filter(featureData, c) && EntryKey(f) in markerIndex && markerIndex[EntryKey(f)] == m;
          IndexLastWriteWins(featureData[..|markers|], markers, EntryKey(f));
        }
      }
      if AllDrawn() {
        assert featureData[..|markers|] == featureData;
        FilterPassShowsIndexedMarkers(featureData, markers, c);
      }
      if markerIndex == map[] {
        LayerForEmptyIndex(Filter(featureData, c));
      }
    }

    /** The reset action: empties the three criteria and filters again, adding every entry's marker. */
    method ResetFilters()
      requires Valid()
      modifies this`visible
      ensures Valid()
      ensures visible == LayerFor(featureData, markerIndex)
      ensures AllDrawn() ==> |visible| == |featureData|
      ensures AllDrawn() ==> forall k :: 0 <= k < |visible| ==>
        EntryKey(featureData[k]) in markerIndex && visible[k] == markerIndex[EntryKey(featureData[k])]
      ensures markerIndex == map[] ==> visible == []
    {
      ApplyFilters(NoCriteria);
      FilterNoCriteriaIsIdentity(featureData);
    }

    /**
     * A click on a recent-entry card: looks the entry's marker up by
     * `entry_id`; the map is focused only when one is found.
     */
    method SelectEntry(f: Feature) returns (m: Option<Marker>)
      requires Valid()
      ensures m.Some? <==> EntryKey(f) in markerIndex
      ensures m.Some? ==>
        m.value == markerIndex[EntryKey(f)] && m.value in markers && EntryKey(m.value.feature) == EntryKey(f)
      ensures AllDrawn() && f in featureData ==> m.Some?
      ensures markers == [] ==> m == None
    {
      var key := EntryKey(f);
      if key in markerIndex {
        m := Some(markerIndex[key]);
        IndexLastWriteWins(featureData[..|markers|], markers, key);
      } else {
        m := None;
      }
      if AllDrawn() && f in featureData {
        assert featureData[..|markers|] == featureData;
        IndexCoversEntries(featureData, markers, f);
      }
    }
  }

  /** An entry whose only property is its id, "1". */
  const OnlyId := Feature([Prop("entry_id", Str("1"))], 0)

  /** For that entry alone, the feed is the entry, its card throws, and no card is shown. */
  lemma LoadAbortExample()
    ensures EntryKey(OnlyId) == "1"
    ensures RecentEntries([OnlyId]) == [OnlyId]
    ensures !FeedRenders(RecentEntries([OnlyId]))
    ensures RenderedCards(RecentEntries([OnlyId])) == []
  {
    var r := RecentEntries([OnlyId]);
    assert r[0] in multiset(r);
    assert r == [OnlyId];
    assert !CardRenders(OnlyId);
  }

  /**
   * The as-written handler on that entry, then the reset action and a
   * lookup of its id: the entry is loaded, yet no marker is indexed, the
   * cluster group stays empty and off the map, and the id finds no marker.
   */
  method LoadAbortShowsNothing() returns (d: Dashboard, shown: seq<Marker>, found: Option<Marker>)
    ensures d.featureData == [OnlyId] && !d.onMap
    ensures d.markerIndex == map[] && shown == [] && found == None
  {
    d := new Dashboard();
    LoadAbortExample();
    var wallTypes, vegOptions, cards := d.LoadAsWritten([OnlyId]);
    d.ResetFilters();
    shown := d.visible;
    found := d.SelectEntry(OnlyId);
  }

  /** An entry with id "1", both fields its card lower-cases, and its stone shape as one string. */
  const RoundStones := Feature([
    Prop("entry_id", Str("1")),
    Prop("Wall_Condition", Str("Good")),
    Prop("Vegetation_Cover", Str("Bare")),
    Prop("Stone_Shape", Str("Round"))], 0)

  /** That entry's card can be written but its popup throws. */
  lemma PopupAbortExample()
    ensures EntryKey(RoundStones) == "1"
    ensures CardRenders(RoundStones) && !PopupRenders(RoundStones)
  {
  }

  /** For one entry alone, the feed is that entry, and the marker pass reaches it whatever its popup does. */
  lemma SingleEntryPasses(f: Feature)
    ensures RecentEntries([f]) == [f]
    ensures FeedRenders([f]) <==> CardRenders(f)
    ensures PopupsRender([f]) <==> PopupRenders(f)
    ensures EntriesReached([f]) == 1
  {
    var feed := RecentEntries([f]);
    assert feed[0] in multiset(feed);
  }

  /**
   * The as-written handler on one entry whose card can be written but whose
   * popup throws: its marker is drawn and indexed, yet the cluster group is
   * empty and off the map.
   */
  method LoadPopupAbort(f: Feature) returns (d: Dashboard)
    requires CardRenders(f) && !PopupRenders(f)
    ensures fresh(d) && d.Valid() && d.AllDrawn()
    ensures d.featureData == [f] && !d.onMap && d.visible == []
    ensures d.markerIndex == map[EntryKey(f) := d.markers[0]]
  {
    SingleEntryPasses(f);
    d := new Dashboard();
    var wallTypes, vegOptions, cards := d.LoadAsWritten([f]);
    assert |d.markers| == 1 && [f][..1] == [f];
    assert IndexOver([f], d.markers) == IndexOver([], [])[EntryKey(f) := d.markers[0]];
  }

  /**
   * That load, then the reset action and a lookup of the entry's id: the
   * id finds the marker and the reset puts it in the cluster group, which
   * is still not on the map.
   */
  method PopupAbortHidesMarker(f: Feature) returns (d: Dashboard, afterLoad: seq<Marker>, afterReset: seq<Marker>, found: Option<Marker>)
    requires CardRenders(f) && !PopupRenders(f)
    ensures d.featureData == [f] && !d.onMap
    ensures EntryKey(f) in d.markerIndex && found == Some(d.markerIndex[EntryKey(f)])
    ensures afterLoad == [] && afterReset == [d.markerIndex[EntryKey(f)]]
  {
    d := LoadPopupAbort(f);
    afterLoad := d.visible;
    d.ResetFilters();
    afterReset := d.visible;
    assert |afterReset| == 1 && afterReset[0] == d.markerIndex[EntryKey(f)];
    found := d.SelectEntry(f);
  }

  /** Once every entry has its marker, every card in the recent-entries feed finds its marker. */
  lemma RecentEntriesHaveMarkers(d: Dashboard, f: Feature)
    requires d.Valid() && d.AllDrawn() && f in RecentEntries(d.featureData)
    ensures EntryKey(f) in d.markerIndex
  {
    assert d.featureData[..|d.markers|] == d.featureData;
    RecentEntriesDrawnFromInput(d.featureData, f);
    IndexCoversEntries(d.featureData, d.markers, f);
  }
}
