# Squad builder grid bookkeeping, in Dafny

A model of the state kept by the top-troops army builder page (`script.js`):
a grid of 35 cells (7 by 5), each empty or holding one placed character
token; the troop count `occupiedCells`, capped at `MAX_CELLS = 12`; and the
two synergy tallies `factionCounts` and `rarityCounts`. The gestures that
change this state are modelled on a `Placement.Grid` object whose fields are
those globals: dropping a catalog entry on a cell, double-clicking an entry
to place it on a random empty cell, dragging a placed token onto another
cell (move or swap), clicking a token to remove it, and clearing the grid.

`Grid.Valid()` is the bookkeeping invariant: the troop count equals the
number of occupied cells and is at most 12, every placed token stands for a
catalog entry, and each tally equals a recount of the placed tokens' values
(`Tallies.Recounts`: exactly the non-empty values that occur, each with its
number of occurrences, no key at zero). The constructor (the freshly built
page) and `Clear` (from any state) establish it, and every gesture requires
and ensures it. So it holds after any sequence of gestures that starts from a
new or cleared grid.

The pure parts are modelled as functions with lemmas:
- the catalog filter of the side panel (`Filters`);
- the dropdown options, i.e. distinct values in first-appearance order (`Facets`);
- the element ids of placed tokens and how the catalog id is read back from them (`InstanceIds`);
- the tally update rule (`Tallies`);
- the three-tier synergy threshold (`Synergy`).

Inputs the page takes from the browser become parameters:
- the catalog (fetched from `squads.json`) is the constructor argument;
- the random choice of `Math.random` is an index `pick` into the list of empty cells;
- `Date.now()` is a natural number `stamp`, rendered in decimal.

## Model

| member | source | states |
|---|---|---|
| Catalog.Find | script.js:186 | `characters.find` by id: finds an entry iff some entry has that id, and the entry found has that id |
| Catalog.FindFirst | script.js:186 | the entry found is the earliest one in the catalog with that id |
| Filters.LowerChar | script.js:75 | an upper-case ASCII letter becomes its lower-case letter (code point + 32); every other character is kept |
| Filters.Lower | script.js:75 | lower-casing a string lower-cases each character in place, keeps the length and leaves no upper-case letter |
| Filters.Contains | script.js:81 | `includes`: the empty term is contained in every string, and a contained term is no longer than the string |
| Filters.Passes | script.js:78-81 | the filter predicate: an all-empty filter state passes every entry, and a passing entry's name is at least as long as the search term |
| Filters.PassesIgnoresCase | script.js:75-81 | whether an entry passes does not change when its name or the search term changes only in letter case |
| Filters.ApplyFilters | script.js:77-82 | every entry in the filtered view is a catalog entry that passes all active facets and the search |
| Filters.FilterCounts | script.js:77-82 | an entry that passes appears in the view as often as in the catalog; one that fails does not appear |
| Filters.FilterIsSubsequence | script.js:77-82 | the view keeps catalog order (it is a subsequence of the catalog) |
| Filters.NoFilterKeepsAll | script.js:71-82 | with all three facets and the search empty the view is the whole catalog |
| Filters.FilterIdempotent | script.js:77-82 | filtering the view again with the same filter gives the same view |
| Filters.SearchIgnoresCase | script.js:75-81 | the search "lu" matches the names "Luna" and "BLUE" |
| Facets.Distinct | script.js:42-44 | the de-duplicated list has no repeats and holds exactly the values of the input |
| Facets.DistinctFirstAppearance | script.js:42-44 | the de-duplicated values come in the order of their first appearance |
| Facets.FirstIndex | script.js:42-44 | the first position of a value: it holds the value and no earlier position does |
| Facets.FirstIndexAppend | script.js:42-44 | appending values does not move the first occurrence of a value already present |
| Facets.Column | script.js:42-44 | the mapped field values hold exactly the values some entry carries in that field, one per entry in catalog order |
| Facets.FacetOptions | script.js:41-49 | the options for a facet have no repeats and are exactly the values some entry carries in that field |
| InstanceIds.Digits | script.js:131 | a timestamp renders as a non-empty string of decimal digits |
| InstanceIds.InstanceId | script.js:182 | a token's element id starts with the catalog id followed by '-' |
| InstanceIds.SplitHead | script.js:202 | `split('-')[0]` is the prefix before the first '-' (all of the string if none) |
| InstanceIds.ParseId | script.js:202 | the catalog id read back from an element id: the prefix before the last '-' (all of it if none) |
| InstanceIds.ParseIdRoundTrip | script.js:202 | reading back an element id built from any catalog id and stamp gives that catalog id |
| InstanceIds.SplitHeadRoundTrip | script.js:202 | `split('-')[0]` gives the catalog id back when that id holds no '-' |
| InstanceIds.ParsersAgreeWithoutDash | script.js:202 | for catalog ids without '-', the source's reading and `ParseId` agree |
| InstanceIds.SplitHeadLosesDashedId | script.js:202 | for catalog id "a-b", `split('-')[0]` gives "a" while `ParseId` gives "a-b" |
| Tallies.UpdateCount | script.js:285-305 | adds the change to the key (missing counts as 0), drops the key when the result is 0 or less, ignores an empty key, touches no other key, and keeps all counts positive |
| Tallies.RecountsEmpty | script.js:225-226 | the empty tally is the recount of an empty grid |
| Tallies.RecountsPositive | script.js:289-291 | a tally that agrees with a recount holds no count of 0 or less |
| Tallies.RecountsUnique | script.js:154-155 | a tally is fixed by the recount: two tallies agreeing with one recount are equal |
| Tallies.RecountAdd | script.js:187-188 | counting a value up by one keeps the tally equal to the recount with one more occurrence |
| Tallies.RecountRemove | script.js:204-205 | counting a value down by one keeps the tally equal to the recount with one occurrence fewer |
| Tallies.UpdateCountUndo | script.js:288-291 | counting a key up and then down by the same amount restores the tally |
| Tallies.LastRemovalDeletesKey | script.js:299-302 | taking away the last occurrence of a value deletes its key rather than keeping a 0 |
| Synergy.Tier | script.js:243 | the tier is one of 4, 6, 12, the smallest of them not below the count, at least the count for counts up to 12 and 12 above |
| Synergy.TierMonotone | script.js:317 | a larger count never gets a smaller tier |
| Placement.Occupied | script.js:152 | the number of occupied cells is at most the number of cells |
| Placement.EmptyCells | script.js:119 | the list of empty cells holds exactly the empty cells, in grid order, one per empty cell |
| Placement.SplitAt | script.js:119 | occupancy and the recount of a grid split over any division of its cells |
| Placement.UpdateAt | script.js:183 | writing a cell exchanges that cell's share of the occupancy and of the recount |
| Placement.PlaceKeepsRecount | script.js:183-188 | filling an empty cell adds one troop and keeps each tally equal to the recount after its +1 update |
| Placement.RemoveKeepsRecount | script.js:204-207 | emptying an occupied cell removes one troop and keeps each tally equal to the recount after its -1 update |
| Placement.SwapKeepsCounts | script.js:168-176 | exchanging two cells changes neither the troop count nor either recount, and keeps every token resolvable |
| Placement.AllEmpty | script.js:219-226 | a grid with every cell empty has no troops and an empty recount |
| Placement.BagWithinOccupied | script.js:154-155 | no value is recounted more often than there are placed tokens |
| Placement.TallyWithinTroops | script.js:152-155 | every tallied count is positive and at most the troop count |
| Placement.Grid.constructor | script.js:16-26 | a new grid has 35 empty cells, no troops, empty tallies, and satisfies the invariant |
| Placement.Grid.UpdateFactionCounter | script.js:285-294 | the faction tally becomes its update by the rule of `UpdateCount` |
| Placement.Grid.UpdateRarityCounter | script.js:296-305 | the rarity tally becomes its update by the rule of `UpdateCount` |
| Placement.Grid.Place | script.js:181-188 | a new token for the entry goes into the empty target cell, no other cell changes, the count rises by one, both tallies count the entry's faction and rarity up, and the invariant holds |
| Placement.Grid.AddFromPanel | script.js:178-189 | a panel drop places iff the target is empty and fewer than 12 troops are deployed, with the effect of `Place`; a refused drop changes nothing |
| Placement.Grid.PlaceRandomly | script.js:117-141 | a double-click places iff fewer than 12 troops are deployed, into the chosen empty cell, with the effect of `Place`; a refused one changes nothing |
| Placement.Grid.MoveBetweenCells | script.js:164-177 | a drag onto the same cell changes nothing, onto an empty cell moves the token and empties the source, onto an occupied cell swaps the two; count and tallies never change |
| Placement.Grid.Drop | script.js:157-192 | a drop from a cell keeps count and tallies and exchanges the two cells; a drop from the panel places as `AddFromPanel` (one cell written, count +1, both tallies +1) or changes nothing |
| Placement.Grid.Remove | script.js:199-210 | a click on an occupied cell empties it, lowers the count by one and counts the entry's faction and rarity down; a click on an empty cell changes nothing |
| Placement.Grid.Clear | script.js:217-230 | from any state, every cell becomes empty, the count 0 and both tallies empty, and the invariant holds |

## Left out

- Loading the catalog (`fetch('squads.json')` and its promise chain, script.js:29-39) is asynchronous I/O; the catalog is a constructor argument.
- DOM rendering is left out because it only turns state into HTML or text: `populateSelect`, `populateCharacterPanel`, `createCharacterElement`, `updateTroopCounter`, `displayFactionCounts` and `displayRarityCounts` (except the tier expression), and `addHoverEffects`.
- The PNG export (`saveGrid`, script.js:232-278) calls the foreign `html2canvas` library and triggers a download; only its tier expression is modelled. The copy of the grid it writes into the save container is not modelled.
- Event wiring, the `dataTransfer` plumbing, `preventDefault` and `alert` are browser APIs. A drag source is given as a panel entry id or a source cell index, not found by `getElementById`. So the model does not capture two tokens sharing one element id (two placements in the same millisecond), where the browser would pick the first in document order.
- `Math.random` and `Date.now` are replaced by the caller-supplied `pick` and `stamp`. `PlaceRandomly` requires `pick` to lie in the list of empty cells, which is the range of `Math.floor(Math.random() * emptyCells.length)`. Under the invariant that list is never empty (at least 23 of 35 cells are free), so its `emptyCells.length === 0` refusal is never taken.
- `find` returning `undefined` makes the source throw a TypeError. The add gestures require the entry id to be in the catalog, since the panel only shows catalog entries. `Remove` always finds its entry under the invariant.
- JavaScript object quirks of the tallies are not modelled: key iteration order (it only affects display order), and keys that collide with `Object.prototype` members such as `constructor`. The tallies are Dafny maps.
- `toLowerCase` is modelled on ASCII letters only; Unicode case mapping is not modelled.
- `getCharacterFaction` (script.js:280-283) is never called and is not modelled.
- Placement.Grid.Remove reads the catalog id back from a token's element id with `ParseId`, the corrected reading (see Findings). A token records the catalog id and stamp its element id is built from, so every token on the grid has an element id of the form `id + '-' + stamp`. For catalog ids without '-', `ParseId` is therefore exactly the source's `split('-')[0]` on every token (`InstanceIds.ParsersAgreeWithoutDash`).

## Findings

| source | as written | input that shows it | evidently intended | confidence | as-written member | corrected member |
|---|---|---|---|---|---|---|
| script.js:202 | `removedCharacter.id.split('-')[0]` keeps only the text before the first '-' of the element id `id + '-' + Date.now()` | a catalog entry with id "a-b": its token's id "a-b-<stamp>" is read back as "a", so `find` gets no entry (TypeError, the token stays) or the wrong entry (the wrong tallies are counted down) | read back the whole catalog id, i.e. the text before the last '-' | medium (only bites if the data file uses '-' in ids); not executed | InstanceIds.SplitHeadLosesDashedId | InstanceIds.ParseIdRoundTrip |
