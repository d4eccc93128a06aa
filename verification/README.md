# Transport dashboard core, modelled in Dafny

This project models the sequential logic of a small transport-management
dashboard. It is a React front end over a document store with three
collections: Drivers, Dispatchers and Loads. Everything around that logic
is view markup. The model covers four groups:

- **Load upsert.** The root component's `handleUpdateLoad` picks one of
  three branches (delete, overwrite, create). It then re-fetches, retrying
  once in the catch block, so the local list ends equal to the store's
  listing. The Loads screen's add, edit and delete flows feed it.
- **Query layer.**
  - The Drivers table's decorate-sort-undecorate `stableSort`, its
    comparators and the column-click sort state.
  - The driver name search.
  - The Loads search and category filter.
  - The Dispatchers team filter.
- **Aggregations.**
  - The driver chart rows and the four-bucket status chart.
  - The dashboard counts, percentages and recent-loads prefix.
  - The unread-notification badge.
- **Record derivations.**
  - Avatar initials and the `DSP-` display id.
  - Page titles.
  - The documents stored for a new driver or dispatcher.

The remote store is a map from document id to document. Every remote call
gets its outcome from the caller:

- whether it throws;
- the id `addDoc` assigns;
- the order in which the collection is listed.

A listed document becomes `{ id: key, ...fields }`. A stored `id` field is
spread last, so it wins over the key. The model keeps that.

Modules follow the source files:

| module | source |
|---|---|
| `Records` | documents |
| `Seqs` | `filter` / `length` |
| `Text` | string operations |
| `Sorting` | table sort |
| `App` | `App.js` |
| `Loads` | `Loads.js` |
| `Drivers` | `Drivers.js` |
| `Dispatchers` | `Dispatchers.js` |
| `Dashboard` | `Dashboard.js` |
| `DriverForm` | `DriverForm.js` |
| `AppBar` | `AppBar.js` |

Where the documented behaviour of the system and its code differ, the
model follows the code:

- **Initial load is not atomic.** Each successful fetch stores its own
  collection, even when another fetch fails (`App.FetchDataIsNotAtomic`).
- **Two meanings of "Unassigned".** The status chart counts the literal
  status "Unassigned". The Loads filter also accepts any load with an empty
  `assigned_to` (`Loads.UnassignedFilterDisagreesWithChart`).
- **Failed delete.** When the remote delete fails, the Loads screen only
  reports the error. It never calls `updateLoad`, so the record stays in
  the list.
- **No zero guards.** The percentages divide without guarding a zero
  total. The model requires a positive total.
- **Revenue.** A missing `rate` throws instead of counting as zero.

## Model

| member | source | states |
|---|---|---|
| `Records.TextOr` | Loads.js:196-205 | `String(field \|\| fallback)`: the field when it is present and non-empty, the fallback otherwise |
| `Text.Lower` | Loads.js:297 | lower-casing keeps the length and maps each character (ASCII case) |
| `Text.Upper` | DriverForm.js:33 | upper-casing keeps the length and maps each character (ASCII case) |
| `Text.Contains` | Drivers.js:194 | `includes`: the term is a prefix of the text or of one of its suffixes (see `Text.ContainsIffOccurs`) |
| `Text.ContainsIffOccurs` | Drivers.js:194 | `includes` holds exactly when the term occurs at some position |
| `Text.EmptyOccursEverywhere` | Drivers.js:194 | the empty term occurs in every string |
| `Text.LessIrreflexive` | Drivers.js:44-47 | string `<` is irreflexive |
| `Text.LessTransitive` | Drivers.js:44-47 | string `<` is transitive |
| `Text.LessConnected` | Drivers.js:44-47 | any two different strings are ordered one way or the other |
| `Text.Less` | Drivers.js:44-47 | string `<`: character-wise comparison, a proper prefix being smaller (a strict total order by the three lemmas above) |
| `Text.Initials` | DriverForm.js:33 | the avatar has min(2, length) characters, each the upper case of the name's character at that position |
| `Text.PadStart` | Dispatchers.js:350 | the padded text has length max(width, length), ends with the input, and is preceded only by the fill character |
| `Text.Join` | Dispatchers.js:337 | `join(sep)`: the parts in order with `sep` between neighbours (see `Text.JoinContainsEachPart`) |
| `Text.JoinContainsEachPart` | Dispatchers.js:337 | every joined part occurs in the joined text |
| `Text.IndexOf` | Dashboard.js:165 | -1 exactly when the character is absent; otherwise the first position holding it |
| `Text.RemoveFirst` | Dashboard.js:165 | a text without the character is unchanged; otherwise the text loses exactly its first occurrence (the one `IndexOf` finds), with everything before and after it kept in order |
| `Sorting.DescendingAntisymmetric` | Drivers.js:43-51 | `descendingComparator(a, b) == -descendingComparator(b, a)`, and it is 0 exactly when the keys are equal |
| `Sorting.Descending` | Drivers.js:43-51 | -1 exactly when b's key is below a's, 1 exactly when a's key is below b's and not the reverse, 0 exactly when neither is below the other |
| `Sorting.GetComparator` | Drivers.js:53-57 | the comparator puts a first (negative) exactly when a's key is greater for 'desc' or smaller for 'asc', and ties exactly the incomparable keys |
| `Sorting.GetComparatorConsistent` | Drivers.js:53-57 | both directions give an antisymmetric comparator whose "not after" relation is transitive |
| `Sorting.StableSort` | Drivers.js:59-69 | the result is a permutation of the input (same length and multiset), and every earlier element compares `<= 0` with every later one |
| `Sorting.StableSortKeepsTiesInOrder` | Drivers.js:60-68 | the output is the input rearranged by a permutation of positions, and tied elements keep their original relative order through the index tie-break |
| `Sorting.SortedUnique` | Drivers.js:61-67 | two index-tie-broken sorted arrangements of the same entries are equal, so any correct sort algorithm gives the modelled result |
| `Sorting.StableSortIdempotent` | Drivers.js:59-69 | sorting an already sorted table again leaves it unchanged |
| `Sorting.DirectionOrdersKeys` | Drivers.js:53-57 | 'asc' gives non-decreasing keys and 'desc' non-increasing keys |
| `Sorting.InsertSorted` | Drivers.js:61 | inserting into a sorted run keeps it sorted |
| `Sorting.SortTaggedSorted` | Drivers.js:61-67 | sorting the tagged entries yields a sorted run |
| `Sorting.UndecorateSort` | Drivers.js:68 | stripping the tags after sorting keeps the multiset of elements |
| `Drivers.RequestSort` | Drivers.js:181-185 | `orderBy` becomes the clicked column; the order is descending exactly when that column was already sorted ascending |
| `Drivers.RequestSortTwice` | Drivers.js:181-185 | two clicks on one column return to it ascending only from that exact state; otherwise they leave it descending |
| `Drivers.FirstClick` | Drivers.js:132-133 | from the initial state (asc by name), a first click on "name" gives desc and any other column gives asc |
| `Drivers.CompletedLoads` | Drivers.js:300-305 | the number of history entries containing "Completed", or 0 when the history is not a list |
| `Drivers.ActiveLoads` | Drivers.js:301 | the `loads` length, or 0 when absent |
| `Drivers.FilterDrivers` | Drivers.js:193-195 | the render fails exactly when some driver has no name; otherwise the result is the subsequence of matching drivers, as many as there are matches, each of which matches, so every matching driver (duplicates included) is kept, in order |
| `Drivers.NameMatches` | Drivers.js:194 | the search predicate: the driver has a name and its lower-cased form contains the lower-cased term |
| `Drivers.EmptySearchKeepsAll` | Drivers.js:193-195 | an empty term keeps every driver, in order |
| `Drivers.StringLessIsStrictTotalOrder` | Drivers.js:44-47 | string `<` is a strict total order, so a text column can drive the sort |
| `Drivers.Table` | Drivers.js:293 | the table is a permutation of the filtered drivers, ordered by the current comparator |
| `Drivers.InitialTableIsAlphabetical` | Drivers.js:132-133 | in the initial state the table is alphabetical by name |
| `App.Listing` | App.js:96-98 | a listing has one record per listed key, built as `{ id: key, ...fields }` |
| `App.DeleteStep` | App.js:109-113 | the document leaves the store; the local list becomes the subsequence of records with another id, of exactly their number, so every such record stays, in order |
| `App.OverwriteStep` | App.js:114-121 | the document becomes the input minus its id, with no merge; local records with that id become the input; everything else is unchanged |
| `App.CreateStep` | App.js:122-126 | exactly one document, the input, is added under the fresh id, and the local list gains exactly the input with that id, at the end |
| `App.Write` | App.js:106-126 | the write succeeds exactly when the store call does not throw and a delete carries a truthy id; a failed write changes nothing; a successful one leaves the optimistic local list of its branch (records with the id filtered out, replaced pointwise by the input, or the input with the fresh id appended) |
| `App.Reconcile` | App.js:128-134 | one fetch after a successful write, plus the catch block's retry when it throws; unless the last fetch throws, local equals the store's listing |
| `App.StoreAfter` | App.js:109-126 | a truthy `deleted` wins over an id; a truthy id overwrites; otherwise a create; a failed call, or a delete without an id, leaves the store as it was |
| `App.UpdateLoad` | App.js:105-135 | every call fetches at least once and leaves the store as the branch dictates; it ends with local equal to the listing unless every fetch it tried threw, and then keeps the optimistic list of the write |
| `App.CleanListingHasDistinctIds` | App.js:97 | listing a store whose documents carry no id field gives each record its key, so the local ids are distinct |
| `App.WritePreservesClean` | App.js:115-123 | a write whose input id is not the empty string keeps every stored document free of an id field (a create with id "" would store it verbatim) |
| `App.ListingWithout` | App.js:111-113 | filtering a listing by id lists the store without that document |
| `App.DeleteAgreesWithStore` | App.js:109-113 | on a listing, the optimistic delete equals the new store's listing |
| `App.OverwriteAgreesWithStore` | App.js:114-121 | on a listing, the optimistic overwrite of a stored document equals the new store's listing |
| `App.CreateAgreesWithStore` | App.js:122-126 | on a listing, the optimistic create equals the new store's listing, with the new key last |
| `App.OverwriteOfMissingDocumentDiverges` | App.js:114-121 | overwriting a document the store no longer has recreates it remotely but not locally |
| `App.CreateEditDeleteScenario` | App.js:105-135 | from an empty collection: create gives one record with the new id, edit gives the edited record, delete empties store and list |
| `App.FetchData` | App.js:53-103 | loading always ends; error is null exactly when all three fetches succeed, and the fixed message otherwise; each successful fetch replaces its own collection |
| `App.FetchDataIsNotAtomic` | App.js:56-62 | a failed loads fetch still leaves freshly fetched drivers in place |
| `App.DriverChartData` | App.js:138-147 | one row per driver, in order, with the name copied and the same loads and completed counts as the Drivers table |
| `App.ChartRowOf` | App.js:140-146 | a chart row carries the driver's name, the same active-loads count and the same completed count as the Drivers table |
| `App.StatusData` | App.js:149-154 | four entries in the fixed order In Transit, Pending, Delivered, Unassigned, each counting exact `status` equality |
| `App.StatusCountsBounded` | App.js:149-154 | the four counts together never exceed the number of loads |
| `Loads.FilteredLoads` | Loads.js:295-310 | an order-preserving subsequence of the loads, exactly as long as the number of loads matching both the search and the category, each of which matches: so exactly the matching loads, duplicates included |
| `Loads.SearchMatch` | Loads.js:297-301 | the term occurs, ignoring ASCII case, in the load id, the city or the destination; an absent field never matches |
| `Loads.CategoryMatch` | Loads.js:303-306 | 'All Loads' accepts everything, any other filter accepts its exact status, and 'Unassigned' also accepts a load with no driver |
| `Loads.FilteredIsSearchThenCategory` | Loads.js:308 | search and category combine by conjunction |
| `Loads.AllLoadsIsSearchOnly` | Loads.js:304 | 'All Loads' accepts every load, so only the search narrows the list |
| `Loads.EmptyTermNeedsAField` | Loads.js:297-301 | under an empty term, a load matches exactly when it has a load id, a city or a destination |
| `Loads.UnassignedFilterDisagreesWithChart` | Loads.js:306 | a driverless load in transit is shown under 'Unassigned' but counted by the chart as In Transit, not Unassigned |
| `Loads.PickDrivers` | Loads.js:124-129 | a single picked value becomes a one-element list; a list passes through unchanged |
| `Loads.AssignmentList` | Loads.js:202 | `assigned_to` becomes a list: itself when it is one, `[]` otherwise |
| `Loads.Payload` | Loads.js:195-206 | each text field is its value or '' when falsy; the date defaults to today and the status to 'Pending'; `assigned_to` is a list; no id |
| `Loads.EditForm` | Loads.js:243-257 | the edit form is the load with all ten fields normalised as in the payload; its id and any stored delete marker come through unchanged |
| `Loads.Spread` | Loads.js:315-316 | `{...under, ...over}`: every field the spread load has (id, each text field, `assigned_to`, the delete marker) wins; every field it lacks keeps the one beneath |
| `Loads.SpreadUnit` | Loads.js:315-316 | a load with no fields is a unit of spreading on both sides, as the empty object is for object spread |
| `Loads.SpreadAssociative` | Loads.js:315-316 | spreading several loads in turn does not depend on the grouping, as with object spread |
| `Loads.SelectionEffect` | Loads.js:312-327 | selecting a load spreads it over the form: `assigned_to`, `load_id`, `totalMiles`, `rpm` and `rate` are normalised, the id, delete marker, city, destination, dispatcher, date and status come from the load when it has them and from the form otherwise; clearing the selection leaves the form as it was |
| `Loads.PayloadIdempotent` | Loads.js:195-257 | normalising twice changes nothing; the opened edit form yields the same payload as the load; and normalisation absorbs the selected-load effect of Loads.js:312-327: spreading the raw load over its own edit form would not change the payload (the program never does this, since opening the edit dialog also clears the selection) |
| `Loads.PayloadIsSearchable` | Loads.js:195-206 | a saved edit has all three searchable fields, so the empty search shows it |
| `Loads.MenuOpenPrefillsAddForm` | Loads.js:95-97 | after a row menu is opened and closed, the add form saves that load's fields again (for a load with every field present) and carries its id, because opening the add dialog does not reset the form |
| `Loads.Merge` | Loads.js:212 | the merge write takes every payload field and keeps the stored id and delete marker; onto a missing document it writes exactly the payload |
| `Loads.EditLoad` | Loads.js:181-233 | a missing id or store handle makes no write and no `updateLoad` call; a failed merge reports an error; otherwise the payload plus the id is passed on and the document ends equal to the payload; after `updateLoad` the local list is the store's listing unless every fetch it tried threw, in which case it is the optimistic overwrite, and when the write and a fetch succeeded it holds the edited record |
| `Loads.BlankForm` | Loads.js:100-114 | the reset form has no id and no delete marker, every text field '', no drivers, today's date and status 'Pending' |
| `Loads.AddLoad` | Loads.js:136-160 | the form plus the new id is passed to `updateLoad`; the store gains exactly that document (equal to the form without its id) and the form resets; after `updateLoad` the local list is the store's listing unless every fetch it tried threw, in which case it is the optimistic list, and when the write and a fetch succeeded it holds the added record; a failed add changes nothing and keeps the form |
| `Loads.AddedStore` | Loads.js:141-153 | the store after an add, including a form that still carries a delete marker |
| `Loads.DeleteLoad` | Loads.js:163-179 | with a load selected, the menu always clears the selection. `updateLoad` gets the record plus `deleted: true` exactly when a store handle exists, the id is truthy and the remote delete succeeded; otherwise the state is unchanged. An error is reported exactly when a handle exists and the id is missing or the delete fails. After `updateLoad` the local list is the listing of the store without the document, unless every fetch it tried threw, in which case it is the optimistically filtered list |
| `Loads.DeleteLeavesNoRecord` | Loads.js:163-179 | after a delete whose re-fetch succeeded, no local record has the deleted id |
| `Dispatchers.FilteredDispatchers` | Dispatchers.js:201-203 | with no team selected, every dispatcher in order; with one, the subsequence of dispatchers on that team, exactly as many as there are, so all of them in order |
| `Dispatchers.Replay` | Dispatchers.js:197-199 | the selection after a run of chip clicks, each applied in turn (see `Dispatchers.ReplayLast`) |
| `Dispatchers.ApplyTeamAction` | Dispatchers.js:197-199 | selecting a team makes it the selection; "View All" clears it |
| `Dispatchers.ReplayLast` | Dispatchers.js:223-229 | after a run of chip clicks, the selection is decided by the last click |
| `Dispatchers.ViewAllRestores` | Dispatchers.js:228-229 | whatever was selected before, "View All" restores the unfiltered list |
| `Dispatchers.TeamFilterIdempotent` | Dispatchers.js:201-203 | filtering by the same team twice equals filtering once |
| `Dispatchers.NewDispatcherDoc` | Dispatchers.js:101-106 | the form fields are copied; `onDuty` is false, `loads` is empty, and the avatar is the name's initials |
| `Dispatchers.AddDispatcher` | Dispatchers.js:98-120 | a successful add stores the new document and clears the form; the dialog closes only if the re-fetch succeeds too; a failed add stores nothing and keeps the form |
| `Dispatchers.DisplayId` | Dispatchers.js:350 | "DSP-" followed by '0's and then the id, with at least four characters after the dash |
| `Dispatchers.DisplayIdOfLongId` | Dispatchers.js:350 | an id of four or more characters is shown unchanged |
| `Dispatchers.DisplayIdInjective` | Dispatchers.js:350 | ids of equal length, or both at least four long, get distinct captions |
| `Dispatchers.DisplayIdCollision` | Dispatchers.js:350 | "1" and "01" share the caption DSP-0001 |
| `Dispatchers.ManagedLoads` | Dispatchers.js:336 | the `loads` length, or 0 when absent |
| `Dispatchers.TeamsLabelMentionsEachTeam` | Dispatchers.js:337 | every team appears in the teams label |
| `Dispatchers.TeamsLabel` | Dispatchers.js:337 | the teams joined by ", ", or "No Team" when the field is absent (see the two lemmas around it) |
| `Dispatchers.EmptyTeamsLabel` | Dispatchers.js:337 | an empty (truthy) team list is labelled "", not 'No Team' |
| `Dispatchers.NewDispatcherCells` | Dispatchers.js:336-337 | a newly added dispatcher shows 0 managed loads and its form teams joined by ", " |
| `Dashboard.ReadyCount` | Dashboard.js:75 | at most the number of drivers; 0 exactly when none is "READY"; all exactly when every one is |
| `Dashboard.OnDutyCount` | Dashboard.js:106 | at most the number of dispatchers; 0 exactly when none is on duty; all exactly when every one is |
| `Dashboard.InTransitCount` | Dashboard.js:137 | at most the number of loads |
| `Dashboard.InTransitAgreesWithChart` | Dashboard.js:137 | the chip equals the status chart's In Transit count |
| `Dashboard.RoundPercent` | Dashboard.js:80 | r is 100·part/total rounded half up (`2·total·r <= 200·part + total < 2·total·(r+1)`), within [0, 100] when part <= total |
| `Dashboard.HalfUpBounds` | Dashboard.js:80 | the integer formula meets the half-up rounding bounds |
| `Dashboard.AvailablePercent` | Dashboard.js:80 | 100·ready/drivers rounded half up (`2n·r <= 200·ready + n < 2n·(r+1)`); within [0, 100]; 100 when every driver is ready, 0 when none is |
| `Dashboard.ActivePercent` | Dashboard.js:111 | 100·onDuty/dispatchers rounded half up; within [0, 100]; 100 when every dispatcher is on duty, 0 when none is |
| `Dashboard.CompletedPercent` | Dashboard.js:142 | 100·delivered/loads rounded half up; within [0, 100]; 100 when every load is delivered, 0 when none is |
| `Dashboard.RateTexts` | Dashboard.js:165 | the render fails exactly when some rate is missing; otherwise one text per load, the rate with only its first '$' cut out and the rest kept in order |
| `Dashboard.OnlyFirstDollarRemoved` | Dashboard.js:165 | "$1$" becomes "1$" |
| `Dashboard.RecentLoads` | Dashboard.js:271 | the first min(3, n) loads, in stored order |
| `Dashboard.StatusColor` | Dashboard.js:310-314 | Delivered gives success, In Transit warning, Pending primary, anything else default |
| `Dashboard.ChartStatusColors` | Dashboard.js:310-314 | of the four chart statuses only Unassigned gets the default colour |
| `DriverForm.NewDriverDoc` | DriverForm.js:22-34 | the seven inputs are copied verbatim; status 'READY', empty history and loads; the avatar is the name's initials |
| `DriverForm.NewDriverIsReadyAndIdle` | DriverForm.js:30-32 | a new driver is ready and shows no completed or active loads |
| `DriverForm.AddingDriverRaisesReadyCount` | DriverForm.js:30 | adding a driver raises the dashboard's Ready count by exactly one |
| `DriverForm.SubmitDriverForm` | DriverForm.js:19-46 | on success all seven inputs reset and the parent is notified once; on failure neither happens |
| `AppBar.PageTitle` | AppBar.js:50-57 | '/' and '/dashboard' give 'Dashboard'; the three screen paths give their names; every other path gives 'Transport Management System' |
| `AppBar.TitleMatchesRoute` | App.js:208-246 | a path the title knows is routed to the screen the title names, and a path no route matches gets the fallback title |
| `AppBar.Route` | App.js:208-246 | the screen shown for a path: each route matches its path in either ASCII letter case and with any number of trailing slashes |
| `AppBar.TitleDisagreesWithRoute` | AppBar.js:50-57 | "/drivers/" and "/Drivers" show the Drivers screen under the fallback title |
| `AppBar.UnreadCount` | AppBar.js:60 | within [0, n]; 0 exactly when all are read; n exactly when none is |
| `AppBar.InitialUnreadCount` | App.js:40-44 | the badge starts at 2 |

## Left out

- Store I/O (`getFirestore`, `getDocs`, `addDoc`, `setDoc`, `deleteDoc`) is not modelled. Outcomes come in as parameters:
  - failure flags;
  - the id `addDoc` assigns;
  - the listing order.

  `getFirestore` itself is assumed not to throw.
- Concurrency is not modelled:
  - the parallelism of `Promise.all` in `fetchData`;
  - overlapping `handleUpdateLoad` calls;
  - the Loads screen's unawaited `updateLoad` calls.
- Timing is not modelled: the edit dialog's delayed form reset (Loads.js:278-292) has no model.
- Logging and JSX are not modelled.
- Floating-point and locale work is not modelled, because it is numeric formatting, not logic:
  - `Number(...)` parsing and the revenue sum (Dashboard.js:165-166);
  - currency formatting (Dashboard.js:167-171, Dashboard.js:318-322);
  - the NaN of a zero-total percentage.
- Dashboard.RoundPercent: stated in exact rational arithmetic with `total > 0`. The source's floating-point `Math.round(part / total * 100)` can give a different result: for 29 of 200 the product is 14.499999999999998, so the source shows 14 where the model gives 15. Its NaN for an empty collection is not modelled either. The same holds for the three percentages built on it.
- Dashboard.RateTexts: stops at the '$' removal; the numeric sum is not modelled.
- The recent-loads driver and dispatcher lookups (Dashboard.js:287, Dashboard.js:299) are left out. They compare an id with a name list or a name, so they do not express a meaningful relation.
- Sort columns that are not driver fields ('completedLoads', 'actions') are left out. A sort key is modelled only as a projection into a strictly ordered type.
- `toLowerCase` and `toUpperCase` are modelled on ASCII letters only. Unicode case tables are not reproduced.
- Text.Initials: a Dafny `char` is a Unicode scalar value, while `substring(0, 2)` counts UTF-16 code units. For a name that starts with a character outside the Basic Multilingual Plane (an emoji, say), the source keeps only that character, and the model keeps two characters.
- Text.PadStart: pads to a length in scalar values, while `padStart` counts UTF-16 code units. An id with characters outside the Basic Multilingual Plane gets one more '0' for each such character than the source gives it, up to the pad width.
- Text.Less: compares scalar values, while JavaScript's `<` compares UTF-16 code units. The two orders differ between a character above U+FFFF and one in U+E000-U+FFFF.
- AppBar.Route: the path is matched as given. The router's percent-decoding of the path and its basename handling are not modelled.
- `handleDriverChange` has a model (`Loads.PickDrivers`); the other form input handlers (Loads.js:116-122, Dispatchers.js:188-195) do not. They copy one field.
- Loads.SelectionEffect: treats an absent field and a field holding `null`/`undefined` alike. `deleted: false` reads as "no marker", because the model keeps no such distinction.
- Drivers.js `addDriverToFirestore` (Drivers.js:160-179) is left out. Nothing calls it, so it is dead code.
- The driver and dispatcher delete flows, menus and detail dialogs are left out, including `fetchDispatcherDetails`. They are remote reads and deletes outside the load pipeline.
- Sidebar, theme and bootstrap files are left out, and so is the router setup around the routes. So are the static mock data, the hard-coded weekly chart data and colours (App.js:156-166), and the dark-mode and sidebar toggles.
- ParentComponent.js is left out. It only fetches, and it passes a prop the Loads screen never reads.
