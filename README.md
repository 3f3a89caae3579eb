# Dry-stone wall survey map: filter and sync core

This project models the data core of the survey map page (`script.js`), which shows the surveyed dry-stone wall entries as clustered point markers. It covers four parts:

- **Vocabulary derivation** (`populateFilters`). One pass over the entries collects the distinct non-empty wall types in first-seen order. It also collects the distinct non-empty vegetation covers, which are then sorted. The vegetation order puts the four canonical coverage bands first, low to high, and sorts every other value alphabetically after them.
- **The filter** (`applyFilters`). An entry is kept when all three criteria hold:
  - the lower-cased text query occurs in the lower-cased, space-joined, one-level-flattened property values;
  - the wall type is equal to the chosen one, when one is chosen;
  - the vegetation cover is equal to the chosen one, when one is chosen.
- **Marker index and layer reconciliation.** Every entry gets one marker when the data loads. The marker is stored in `markerIndex` under the entry's `entry_id`, and a later write replaces an earlier one. A filter pass clears the cluster layer and then adds the indexed marker of every kept entry, in filter order.
- **Recent-entries feed.** A copy of the entries is sorted newest first by creation time, and the first ten are kept. Clicking a card looks its marker up by `entry_id`.

Modules:

| module | file | contents |
|---|---|---|
| `Wrappers` | `wrappers.dfy` | `Option` |
| `Text` | `text.dfy` | `toLowerCase`, `includes`, `join` and `localeCompare` on strings, with their lemmas |
| `Features` | `features.dfy` | entries, property values, `entry_id` as an object key, the search text |
| `Filters` | `filters.dfy` | the filter predicate and `featureData.filter` |
| `Sorting` | `sorting.dfy` | an in-place array sort by a comparator function |
| `Vocabulary` | `vocabulary.dfy` | `populateFilters` and the vegetation comparator |
| `Recent` | `recent.dfy` | the newest-first sort and the top ten |
| `Dashboard` | `dashboard.dfy` | markers, `markerIndex`, the visible layer, and the page's handlers as a `Dashboard` class |

An entry's properties are an ordered sequence of name/value pairs rather than a map, because their order decides the joined search text. For a parsed JSON object whose keys are distinct and are not array indices (`Features.PlainObject`), `Object.values` yields the values in document order, which is the order of the sequence. A property value is one of three things:

- a string;
- a list of strings (such as the stone-shape list), which `.flat()` spreads into its elements;
- `null`, which `join` writes as the empty string.

`markerIndex` is a plain object, so a key is the string form of `entry_id`:

- a missing id gives `"undefined"`;
- `null` gives `"null"`;
- a list gives its elements joined with `,`.

Markers are objects of a `Marker` class, so "the same marker" means object identity.

Five behaviours of the page are worth stating:

- **Wall-type order.** The wall types keep the insertion order of the JavaScript `Set` (first appearance). They are not an unordered set.
- **Missing properties in text search.** An absent property contributes nothing to the search text. It is not an empty string, so it adds no extra separator.
- **Duplicate ids.** The layer holds "one marker per kept entry, no duplicates" only when `entry_id` is unique. With a shared id, every kept entry with that id yields the marker written last. The Leaflet layer group holds that marker once, and the other markers with that id are never shown again after a filter pass. `Dashboard.FilterPassShowsIndexedMarkers` and `Dashboard.Dashboard.ApplyFilters` state both cases, and `Dashboard.LayerShowsIndexedMarkers` states which markers are shown. Each time a filter pass adds a marker, Leaflet sets that marker's `feature` field to the kept entry it was added for. So with a shared id the field ends up holding the last kept entry with that id, not the entry the marker was drawn for. The model's `Marker.feature` keeps the entry the marker was drawn for, so under a shared id the contracts state only that the marker's entry has the same key.
- **Feed before markers.** The load handler writes the recent-entries feed before it draws any marker, and a feed card lower-cases `Wall_Condition` and `Vegetation_Cover`. When one of the ten newest entries lacks either field, or holds null or a list there, the handler throws and no marker is drawn (see "## Findings").
- **Popups before the map.** While `L.geoJSON` draws the markers, each entry's popup is written right after its marker is drawn and indexed. A popup with a non-empty string `Stone_Shape` throws, because `?.length` lets the string through to `.join`. The cluster group then stays empty and is never added to the map, yet the index keeps the markers drawn so far. Later filter passes fill a group that is not on the map (see "## Findings").

## Model

| member | source | states |
|---|---|---|
| `Text.IncludesIffOccurs` | script.js:224 | `Includes(s, t)` holds exactly when `t` occurs in `s` at some position, which is the meaning of `String.prototype.includes` |
| `Text.Includes` | script.js:224 | `blob.includes(txt)`; its meaning is stated by `Text.IncludesIffOccurs` |
| `Text.Lower` | script.js:210 | `toLowerCase`: same length, each character lower-cased (ASCII) |
| `Text.Join` | script.js:222 | `join(" ")`; `Text.ItemOccursInJoin` states what the joined string contains |
| `Text.LexCompare` | script.js:197 | the stand-in for `localeCompare`: -1, 0 or 1; `Text.LexCompareAntisymmetric` and `Text.LexCompareTransitive` state that it is a total order |
| `Text.ItemOccursInJoin` | script.js:222 | every item of a list occurs, as a contiguous piece, in the list joined with a separator |
| `Text.LexCompareAntisymmetric` | script.js:197 | the string comparison standing in for `localeCompare` flips sign when its arguments swap, and is zero exactly on equal strings |
| `Text.LexCompareTransitive` | script.js:197 | the string comparison is transitive |
| `Features.Get` | script.js:226-227 | `p.Wall_Type` / `p.Vegetation_Cover`: absent exactly when no property has that name, otherwise the value of a property with that name |
| `Features.GetOwnValue` | script.js:226-227 | in a plain object (distinct names), looking a property up by its own name gives its own value |
| `Features.KeyString` | script.js:126 | the string a property value becomes as an object key: missing gives "undefined", null gives "null", a string is itself, a list is joined with "," |
| `Features.EntryKey` | script.js:126 | the key `markerIndex[...]` uses for an entry (also at script.js:235 and 278); `Dashboard.IndexLastWriteWins` states what the index holds under it |
| `Features.FlatValuesHoldPropertyStrings` | script.js:220-221 | every string a property holds, plain or inside a list, is among the values `Object.values(p).flat()` yields |
| `Features.FlatValues` | script.js:220-221 | `Object.values(p).flat()`; `Features.FlatValuesHoldPropertyStrings` states that it holds every string of every property |
| `Features.SearchText` | script.js:220-223 | the lower-cased, space-joined text that free-text search looks at; `Filters.SubstringOfAnyValueMatches` states which queries it matches |
| `Filters.Keep` | script.js:216-230 | the filter callback; its meaning is stated by `Filters.KeepIffAllCriteria` |
| `Filters.KeepIffAllCriteria` | script.js:216-230 | the filter callback keeps an entry exactly when all three hold: the text criterion (the query occurs in the search text), the wall criterion (none chosen or equal) and the vegetation criterion (none chosen or equal) |
| `Filters.SubstringOfAnyValueMatches` | script.js:209-224 | a text query that is a substring of any string property value (after lower-casing) keeps that entry |
| `Filters.Filter` | script.js:216-230 | the filtered list is no longer than the input, and each of its elements comes from the input and passes the criteria |
| `Filters.FilterIsStableSelection` | script.js:216-230 | the filtered list is exactly the passing entries, in input order: element `k` is the input at the `k`-th passing position, positions strictly increase, and a position is selected exactly when its entry passes |
| `Filters.FilterNoCriteriaIsIdentity` | script.js:216-230 | with an empty query and no wall or vegetation choice, the filter returns the whole input in order |
| `Filters.FilterConjunction` | script.js:216-230 | filtering by criteria that keep exactly what two other criteria both keep equals filtering by one and then by the other |
| `Filters.FilterIdempotent` | script.js:216-230 | filtering a filtered list again by the same criteria changes nothing |
| `Filters.FilterIsConjunctionOfCriteria` | script.js:219-229 | the three criteria act as independent successive filters: text, then wall type, then vegetation |
| `Filters.FilterKeepsUniqueIds` | script.js:216 | filtering entries with unique ids yields entries with unique ids |
| `Sorting.SortBy` | script.js:190 | `Array.prototype.sort` with a total, transitive comparator: afterwards the array is ordered by the comparator and holds the same multiset of elements |
| `Sorting.InsertInto` | script.js:190 | one insertion step: afterwards `a[..i + 1]` is sorted and is a rearrangement of what it held before, `a[i + 1..]` is untouched, and the whole array keeps its multiset |
| `Sorting.SortedUnique` | script.js:190-198 | two lists ordered by an antisymmetric comparator that hold the same multiset are equal, so the sorted drop-down does not depend on the sort algorithm |
| `Vocabulary.IndexOf` | script.js:191-192 | `vegOrder.indexOf(x)`: -1 exactly when `x` is absent, otherwise the first position holding `x` |
| `Vocabulary.VegCompare` | script.js:190-198 | the comparator handed to `vegArray.sort`; `Vocabulary.VegCompareIsTotalOrder` and the three lemmas below state its order |
| `Vocabulary.CanonicalBeforeOthers` | script.js:194-196 | a canonical coverage band sorts before any value outside the four bands |
| `Vocabulary.CanonicalInBandOrder` | script.js:183-194 | two canonical bands sort in band order: band `i` before band `j` exactly when `i < j` |
| `Vocabulary.OthersAlphabetical` | script.js:197 | two values outside the bands sort in string-comparison order |
| `Vocabulary.VegCompareIsTotalOrder` | script.js:190-198 | the vegetation comparator is zero exactly on equal values, flips sign under swap, and is transitive |
| `Vocabulary.VegCompareIsSortable` | script.js:190-198 | the vegetation comparator meets the total, transitive and antisymmetric conditions the sort and its uniqueness rely on |
| `Vocabulary.VegOrderingExample` | script.js:182-198 | the only ordering of {"Hidden (75-100% covered)", "Clear (0-25% covered)", "Unknown"} the comparator accepts is Clear, Hidden, Unknown |
| `Vocabulary.DistinctTruthy` | script.js:174-180 | the collected `Set` contents have no duplicates |
| `Vocabulary.DistinctTruthyExactly` | script.js:174-180 | a value is in the collected set exactly when some entry carries it as a non-empty string in that field |
| `Vocabulary.PopulateFilters` | script.js:173-198 | the wall types are the distinct non-empty values in first-seen order; the vegetation options are exactly the distinct non-empty values, without duplicates, ordered by the vegetation comparator |
| `Recent.InsertNewest` | script.js:261-262 | inserting an entry into a newest-first list keeps it newest first and adds exactly that entry |
| `Recent.SortNewestFirst` | script.js:261-262 | the sorted copy is ordered by descending creation time and is a permutation of the entries |
| `Recent.RecentEntries` | script.js:253-263 | the feed has ten entries, or all of them when there are fewer; it is newest first and drawn from the entries |
| `Recent.RecentEntriesAreNewest` | script.js:261-263 | every entry left out of the feed is no newer than every entry in it |
| `Recent.RecentEntriesDrawnFromInput` | script.js:261-263 | every entry of the feed is one of the loaded entries |
| `Recent.CardRenders` | script.js:274 | a card can be written when `Wall_Condition` and `Vegetation_Cover` are strings; `Recent.RenderedCards` states where the feed stops |
| `Recent.TakeWhile` | script.js:265-286 | the longest prefix whose elements pass a check: a prefix of the input, every element passes, and the next one, if any, fails |
| `Recent.RenderedCards` | script.js:265-286 | the cards appended are the longest prefix of the feed whose cards can be written: each has string `Wall_Condition` and `Vegetation_Cover`, and the next one, if any, does not |
| `Recent.RenderedCardsComplete` | script.js:265-286 | the whole feed is appended exactly when every card can be written |
| `Recent.RenderCards` | script.js:265-286 | the card loop appends exactly those cards, and reports whether it ran to the end |
| `Dashboard.LastIndex` | script.js:126 | the position of the last entry with a given key, or -1 when none has it |
| `Dashboard.IndexOver` | script.js:126 | `markerIndex` after writing each entry's marker under its key, in order; `Dashboard.IndexLastWriteWins` states its contents |
| `Dashboard.IndexLastWriteWins` | script.js:113-128 | after the index writes, a key is present exactly when some entry has it, and it maps to the marker of the last such entry |
| `Dashboard.LayerShowsIndexedMarkers` | script.js:232-238 | a marker is in the layer exactly when it is the indexed marker of one of the entries |
| `Dashboard.LayerFor` | script.js:232-237 | the markers `L.geoJSON` collects for the kept entries; `Dashboard.LayerShowsIndexedMarkers` and `Dashboard.LayerForIndexed` state its contents |
| `Dashboard.LayerForEmptyIndex` | script.js:232-237 | with an empty index, every `pointToLayer` call yields nothing and the layer is empty |
| `Dashboard.LayerForIndexed` | script.js:232-237 | when every kept entry's key is indexed, the new layer holds one marker per kept entry: the indexed one, in order |
| `Dashboard.IndexCoversEntries` | script.js:113-128 | every loaded entry's key is indexed, to a drawn marker whose entry has the same key |
| `Dashboard.IndexIdentityWhenUnique` | script.js:126 | with unique ids, an entry's key leads to the marker drawn for that very entry |
| `Dashboard.FilterPassShowsIndexedMarkers` | script.js:214-239 | a filter pass shows one marker per kept entry, in filter order, each the indexed marker of its entry's id; with unique ids it is the entry's own marker, and no marker appears twice |
| `Dashboard.DrawMarkers` | script.js:113-128 | one new, distinct marker per entry, remembering its entry, and the index that writing them in order produces |
| `Dashboard.BuildLayer` | script.js:232-237 | the new layer is the indexed marker of each kept entry, in order; entries whose key is missing yield none |
| `Dashboard.EntriesReached` | script.js:113-161 | how many entries the marker pass reaches: all of them when every popup can be written, otherwise those up to and including the first whose popup throws |
| `Dashboard.Dashboard.constructor` | script.js:63-64 | before the data arrives there are no entries, the index is empty, the cluster group is empty and it is not on the map |
| `Dashboard.Dashboard.Load` | script.js:102-165 | the handler as intended, on a page whose data has not yet arrived: stores the entries, draws and indexes one marker per entry so that every loaded entry's key is indexed, puts all of them in the cluster group and the group on the map; returns the drop-down options and the whole recent feed |
| `Dashboard.Dashboard.LoadAsWritten` | script.js:102-165 | the handler as written, with list values skipped by the drop-downs: the entries and drop-downs are in place, and the cards shown are `RenderedCards` of the feed; when a card throws, no marker is drawn and the index stays empty; otherwise markers are drawn and indexed for the entries the marker pass reaches (`EntriesReached`); the cluster group holds every marker and is on the map exactly when every card and every popup can be written, and is empty otherwise; the page invariant holds in every case |
| `Dashboard.Dashboard.ShowEntries` | script.js:105-165 | stores the entries, draws and indexes one fresh marker per entry, puts them all in the cluster group and the group on the map |
| `Dashboard.Dashboard.ShowEntriesAsWritten` | script.js:105-165 | stores the entries and draws and indexes fresh markers for the entries the pass reaches; the group gets every marker and goes on the map exactly when no popup throws, and stays empty otherwise |
| `Dashboard.LoadAbortExample` | script.js:274 | for one entry whose only property is `entry_id` "1", the feed is that entry, its card cannot be written and no card is shown |
| `Dashboard.LoadAbortShowsNothing` | script.js:102-128 | that entry through the as-written handler, then the reset action and a lookup of its id: the entry is loaded, the index is empty, the group holds nothing and is not on the map, and the id finds no marker |
| `Dashboard.PopupAbortExample` | script.js:150-151 | an entry with id "1", string `Wall_Condition` and `Vegetation_Cover`, and `Stone_Shape` "Round" has a card that can be written and a popup that throws |
| `Dashboard.SingleEntryPasses` | script.js:113-161 | for one entry alone, the feed is that entry, the feed renders exactly when its card does, the popups render exactly when its popup does, and the marker pass reaches it |
| `Dashboard.LoadPopupAbort` | script.js:102-165 | the as-written handler on one entry whose card can be written and whose popup throws: the entry's marker is drawn and indexed under its key, but the cluster group is empty and not on the map |
| `Dashboard.PopupAbortHidesMarker` | script.js:209-252 | after that load, the reset action puts the entry's marker in the cluster group and the id finds it, but the group is still not on the map |
| `Dashboard.Dashboard.ApplyFilters` | script.js:209-241 | after the pass, the cluster group is exactly the indexed markers of the kept entries in order, with nothing from an earlier pass, and a marker is in it exactly when it is the indexed marker of a kept entry; once every entry has its marker there is one per kept entry, and with unique ids each is its entry's own marker and none repeats; with an empty index the group stays empty; whether the group is on the map does not change |
| `Dashboard.Dashboard.ResetFilters` | script.js:247-252 | resetting the criteria puts the indexed marker of every entry in the cluster group, in order, once every entry has its marker; nothing when the index is empty |
| `Dashboard.Dashboard.SelectEntry` | script.js:277-283 | a card finds a marker exactly when its key is indexed, and the marker is a drawn one whose entry has that key; once every entry has its marker every loaded entry finds one, and when none was drawn no card does |
| `Dashboard.RecentEntriesHaveMarkers` | script.js:261-283 | once every entry has its marker, every card of the recent feed finds its marker |

## Findings

| source | as written | input that shows it | evidently intended | confidence | as-written member | corrected member |
|---|---|---|---|---|---|---|
| script.js:111-113, 274 | the feed card calls `toLowerCase` on `Wall_Condition` and `Vegetation_Cover`; when one of the ten newest entries lacks either, the call throws and ends the load handler before `L.geoJSON`, so no marker is drawn or indexed and the cluster layer is never added | a single entry whose only property is `entry_id` "1" | the card shows a fallback for a missing field, as the popup does at script.js:145-146, and every entry is drawn and indexed | not executed | `Dashboard.Dashboard.LoadAsWritten`, `Dashboard.LoadAbortExample` | `Dashboard.Dashboard.Load` |
| script.js:150-151, 164-165 | `p.Stone_Shape?.length` is truthy for a non-empty string as well as a non-empty list, and a string has no `join`; the popup throws after that entry's marker is drawn and indexed, so `markers.addLayer` and `map.addLayer(markers)` never run and no marker is ever seen on the map | a single entry with `entry_id` "1", `Wall_Condition` "Good", `Vegetation_Cover` "Bare" and `Stone_Shape` "Round" | a single shape is shown as it is, and every marker is added to the cluster group and the group to the map | not executed; a single-choice survey answer stored as a string would trigger it | `Dashboard.Dashboard.ShowEntriesAsWritten`, `Dashboard.PopupAbortHidesMarker` | `Dashboard.Dashboard.ShowEntries` |

## Left out

- Map construction, tile layers, the base-layer switcher and the cluster options (script.js:1-61) are not modelled. They are Leaflet configuration with no logic of their own.
- The wall-geometry fetch and its restyling on base-layer change (script.js:70-100) are not modelled. This is I/O and styling.
- The fetches themselves are not modelled: `Load` takes the parsed entries as a parameter. `Load` and `LoadAsWritten` require the page as it is before the point data arrives, because the point data is fetched once.
- Popup HTML (script.js:130-161) is not modelled beyond whether it throws (`Dashboard.PopupRenders`). The option HTML of the drop-downs, the feed cards' HTML, the entry-count text and the sidebar toggle (script.js:288-304) are not modelled. These are DOM writes.
- `map.fitBounds`, `map.setView` and `openPopup` are not modelled; only which marker is found is modelled. Marker clustering and rendering are not modelled either.
- `updateMarkerColors` is not part of this model: it is called at script.js:240 but not defined in `script.js`.
- Geometry is not modelled. Every entry is taken to be a point that receives a marker.
- Creation times are taken as already-parsed integers. Date parsing and invalid dates (`NaN` in the comparator) are not modelled.
- Property values that are numbers, booleans or nested objects are not modelled, and lists nest only one level. `.flat()` flattens one level, so deeper lists would stringify differently.
- `Dashboard.LayerFor`: the cluster layer is modelled as a sequence appended in filter order. The page's layer group holds each marker once, keyed by its Leaflet id. So with a shared `entry_id` the sequence lists a marker twice where the page holds it once, and its order is not the layer group's storage order. `Dashboard.LayerShowsIndexedMarkers` states the set of shown markers, which does match the page.
- `Features.Get`: the properties are assumed to form a plain object (`Features.PlainObject`). A sequence with a repeated name, or with an array-index name, is not what the page sees. For a repeated key, `JSON.parse` keeps the last value at the first key's position, while `Get` returns the first value. For array-index names, `Object.values` lists them first, in numeric order. The filter lemmas do not require the predicate, and they hold for such sequences as modelled.
- `Recent.CardRenders`: a card also throws for a number-valued `Wall_Condition` or `Vegetation_Cover`. Numbers are not modelled.
- `Text.Lower`: lower-casing is modelled for ASCII letters only. Unicode case mapping is not modelled.
- `Text.LexCompare`: `localeCompare` is modelled as code-point lexicographic order. Locale collation is not modelled.
- `Vocabulary.PopulateFilters`: only string values are collected. A list-valued `Wall_Type` or `Vegetation_Cover` is skipped, even an empty list, whereas the page adds the array object to its set. For `Vegetation_Cover` that can end the handler. The comparator calls `a.localeCompare(b)`, and an array has no `localeCompare`. So when the sort compares a list, as the comparator's first argument, with a value outside the four bands, `populateFilters` throws before either drop-down is written. The load handler then stops before the feed and the markers. The model does not capture this abort. Its `PopulateFilters`, `Load` and `LoadAsWritten` contracts hold only for entries whose `Vegetation_Cover` is not a list.
- `Dashboard.Dashboard.LoadAsWritten`: a list-valued `Vegetation_Cover` can make `populateFilters` throw, as the line above says. The contract takes every `Vegetation_Cover` to be a string, null or absent, and does not model that abort.
- `Sorting.SortBy`: the engine's sort algorithm is not visible. An insertion sort with the same contract stands in for it. `Sorting.SortedUnique` shows that the result does not depend on the algorithm for the vegetation comparator.
- `Recent.SortNewestFirst`: the sort is a stable insertion, as the engine's sort is stable. Stability (the input order among equal timestamps) is not stated as a property. Only the order, the permutation and the top-ten selection are stated.
