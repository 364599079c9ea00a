# OSRS Tracker checklist: a Dafny model

OSRS Tracker is a completionist checklist for Old School RuneScape. It keeps
a list of **accounts**. Each account is members or free-to-play, and each has
a game mode. The selected account gets a **checklist**: the catalog of its
dataset, split into **categories** (tabs). A category's items may be grouped
under **section headers**.

The account's progress is one persisted array of **completed item ids**.
Every handler that changes it goes through a JavaScript `Set` and writes it
back as an array. So after any handler the array holds each id once, in
first-insertion order.

On top of that state the component derives:

- the visible item list: a search filter, a "hide completed" filter and an
  A–Z/Z–A sort, with special rules when the list has headers;
- the header sections;
- the global and per-category progress counts, which can leave out "3rd age"
  collection-log items;
- for the achievement-diaries tab, the diary items grouped by region and
  ordered by tier (Easy < Medium < Hard < Elite).

Ticking a diary tier cascades: it completes every easier tier of that region.
Unticking clears every harder one.

The model has one module per concern:

- `IdSet`: the `Set`-as-array discipline.
- `Order`: the order a filter keeps (subsequences) and the counts it keeps.
- `Text`: lower-casing, substring search, the first parenthesised group of a label.
- `Types`: the records.
- `Sorting`: `localeCompare` as a total order, and an insertion sort proved stable, as `Array.prototype.sort` is.
- `Tiers`: tier names, ranks and badges.
- `Completion`: the handlers' pure updates and their loops.
- `Progress`: the counts.
- `Filtering`: the processed item list, including its header pass as a loop.
- `ChecklistView`: the sections and the counters built from that list.
- `Diaries`: the region grouping and tier sort.
- `DiaryRegion`: the tier-cascade request.
- `Checklist`: the component state, as a class.
- `App`: the account list, its migration and the selected screen, as a class.

## Model

| member | source | states |
|---|---|---|
| IdSet.Add | components/Checklist.tsx:108-114 | adding to the id array keeps it duplicate-free, appends a new id at the end and leaves an existing id in place |
| IdSet.Delete | components/Checklist.tsx:108-114 | deleting removes exactly that id and keeps the rest duplicate-free |
| IdSet.AddAll | components/Checklist.tsx:153 | adding a batch yields the union, keeps the old array as a prefix, stays duplicate-free |
| IdSet.DeleteAll | components/Checklist.tsx:154 | deleting a batch yields the difference and stays duplicate-free |
| IdSet.FromSeq | components/Checklist.tsx:108 | `Array.from(new Set(prev))` is duplicate-free with the same elements |
| IdSet.FromDistinctSeq | components/Checklist.tsx:108 | copying an already duplicate-free array through a set returns it unchanged |
| IdSet.DistinctSize | components/Checklist.tsx:137 | a duplicate-free array is as long as its set of elements |
| Text.ToLower | components/Checklist.tsx:191 | lower-casing keeps the length and maps each character on its own |
| Text.ToLowerIdempotent | components/Checklist.tsx:191 | lower-casing twice equals lower-casing once |
| Text.MatchesQueryCaseInsensitive | components/Checklist.tsx:190-192 | the search test ignores case on both sides, and the empty query matches everything |
| Text.CloseIndex | components/DiaryRegion.tsx:52 | the scan for `)` stops at the first one, or at the end of the label |
| Text.GroupAt | components/DiaryRegion.tsx:52 | a group starts at a `(` exactly when a non-empty run of non-`)` characters and a `)` follow; its text is that run |
| Text.FirstParenGroupFrom | components/DiaryRegion.tsx:52 | a group found is non-empty and contains no `)` |
| Text.FirstParenGroupFromLeftmost | components/DiaryRegion.tsx:52-53 | no group is found exactly when no position starts one; otherwise the result is the group at the leftmost such position |
| Text.FirstParenGroup | components/DiaryRegion.tsx:21 | the tier-name match on a whole label is non-empty and `)`-free |
| Text.FirstParenGroupOfSuffix | components/Checklist.tsx:36-37 | a label ending in `(word)` with no earlier `(` yields `word` |
| Types.Ids | components/Checklist.tsx:134 | the id list is index by index the items' ids |
| Types.NonHeaders | components/Checklist.tsx:57 | the non-header filter keeps exactly the non-header items, in order |
| Types.NonHeaderIds | components/Checklist.tsx:134 | the collected ids are exactly the ids of the non-header items |
| Sorting.LexLeTotal | components/Checklist.tsx:209 | the label order used for A–Z relates any two labels |
| Sorting.LexLeTransitive | components/Checklist.tsx:209 | the label order is transitive |
| Sorting.Insert | components/Checklist.tsx:209-210 | inserting into a sorted list adds one element and keeps it sorted |
| Sorting.SortByKey | components/Checklist.tsx:209-210 | the A–Z / Z–A sort is a permutation of its input and is ordered by the key in the chosen direction |
| Sorting.InsertStable | components/Checklist.tsx:209-210 | inserting into a sorted list puts the item after every item of the same key |
| Sorting.SortByKeyStable | components/Checklist.tsx:209-210 | the sort is stable: items with the same key keep their relative order |
| Tiers.TierIndex | components/DiaryRegion.tsx:18 | `indexOf` in the tier order: the position of a tier name, -1 exactly for any other name |
| Tiers.TierName | components/DiaryRegion.tsx:21 | the tier name read from a label is non-empty and contains no `)` |
| Tiers.TierAbbreviation | components/DiaryRegion.tsx:11-16 | exactly the four tier names have an abbreviation, and it starts with the name's first letter |
| Tiers.TierRank | components/Checklist.tsx:36-38 | an item's rank is in -1..3, and it is non-negative exactly when its first parenthesised group is a tier name |
| Tiers.BadgeText | components/DiaryRegion.tsx:21-38 | no group gives an empty badge; a known tier gives its abbreviation from `tierMap`, which starts with its first letter; any other group gives its first character |
| Tiers.BadgesOfKnownTiers | components/DiaryRegion.tsx:11-16 | the badges are E, M, H and El, and exactly the four tiers have one |
| Tiers.BadgeTextOfTierItem | components/DiaryRegion.tsx:11-38 | the checkbox of an Easy, Medium, Hard or Elite tier shows E, M, H or El |
| Completion.ToggleId | components/Checklist.tsx:106-116 | the toggled array is duplicate-free |
| Completion.ToggleIdFlipsOnlyThatId | components/Checklist.tsx:109-113 | the toggled id flips its membership; every other id keeps it |
| Completion.ToggleIdTwice | components/Checklist.tsx:106-116 | toggling twice restores the set of ids, and restores the exact array when it was duplicate-free and lacked the id |
| Completion.ToggleSection | components/Checklist.tsx:120-130 | one section flips between expanded and collapsed; the others keep their state |
| Completion.ToggleSectionTwice | components/Checklist.tsx:120-130 | expanding and collapsing a section restores the set |
| Completion.CategoryIds | components/Checklist.tsx:134 | the category's item ids are duplicate-free and are exactly the ids of its non-header items |
| Completion.KeepMembers | components/Checklist.tsx:135 | the completed ids of the category are the stored ids that belong to it, duplicate-free when the stored array is |
| Completion.ToggleCategory | components/Checklist.tsx:132-148 | the bulk toggle writes back a duplicate-free array |
| Completion.AreAllCompletedMeansSubset | components/Checklist.tsx:137 | on a duplicate-free array, "all completed" (the length comparison) holds exactly when every item of the category is completed |
| Completion.AreAllCompletedMisreadsDuplicates | components/Checklist.tsx:137 | with the stored array ["a","a"] and items a, b, the length comparison reports "all completed" although b is not |
| Completion.BulkToggleEffect | components/Checklist.tsx:140-146 | on a duplicate-free array: if every item was completed, the category's ids are removed, otherwise all are added; ids outside the category keep their state |
| Completion.ApplyTierUpdate | components/Checklist.tsx:150-157 | the diary update writes back a duplicate-free array |
| Completion.ApplyTierUpdateEffect | components/Checklist.tsx:150-157 | the new set is (old ∪ added) minus removed; ids in neither batch keep their state |
| Completion.ApplyTierUpdateMembers | components/Checklist.tsx:153-154 | an id is present afterwards exactly when it was present or added, and was not removed |
| Completion.RunToggleCategory | components/Checklist.tsx:132-148 | the loop over the category's ids, adding or deleting one at a time, computes the bulk toggle |
| Completion.RunTierUpdate | components/Checklist.tsx:150-157 | the two loops (add each, then delete each) compute the diary update |
| Progress.WithoutThirdAge | components/Checklist.tsx:59 | the filter keeps exactly the items whose label does not contain "3rd age", in their order |
| Progress.IsThirdAge | components/Checklist.tsx:17 | an item is of 3rd age exactly when its lower-cased label contains "3rd age" |
| Progress.CountedItems | components/Checklist.tsx:57-60 | the counted items are the non-headers, less the 3rd age ones when those are dropped |
| Progress.DropThirdAgeCount | components/Checklist.tsx:57-60 | dropping 3rd age items lowers a category's count by exactly its number of 3rd age items |
| Progress.TotalDropsOnlyCollectionLogThirdAge | components/Checklist.tsx:55-64 | turning 3rd age counting off lowers the global total by exactly the collection log's 3rd age items |
| Progress.TotalItems | components/Checklist.tsx:55-64 | the total is at most the number of tracked non-header items, and equals it when 3rd age items are counted |
| Progress.AllTracked | components/Checklist.tsx:72-78 | the lookup table holds non-header items only, and every non-header item of every category |
| Progress.TotalCoversNonThirdAge | components/Checklist.tsx:55-64 | with 3rd age not counted, the total covers at least every non-3rd-age non-header item |
| Progress.LastWithId | components/Checklist.tsx:75 | the lookup returns an item with that id, and none exactly when no item has it |
| Progress.LastWithIdLast | components/Checklist.tsx:72-78 | when several items share an id, the map keeps the last one set: the lookup returns the last item with that id |
| Progress.KnownCompleted | components/Checklist.tsx:85-88 | the filtered ids are the completed ids that name a catalog item not of 3rd age, no more of them than the input, duplicate-free when the input is |
| Progress.KnownCompletedOfCopy | components/Checklist.tsx:81-88 | filtering the set's copy of the stored array keeps the same ids |
| Progress.CompletedItemsCount | components/Checklist.tsx:66-91 | the global count never exceeds the length of the stored array |
| Progress.CompletedItemsCountMeaning | components/Checklist.tsx:66-91 | with 3rd age counted, the global count is the number of distinct stored ids; otherwise it is the number of distinct stored ids that name a non-3rd-age catalog item |
| Progress.GlobalCompletedAtMostTotal | components/Checklist.tsx:55-91 | the global count never exceeds the total, provided every stored id names a catalog item whenever 3rd age is counted |
| Progress.StaleIdOverCounts | components/Checklist.tsx:67-68 | with 3rd age counted, an id no catalog item has still counts, so the count can exceed the total |
| Progress.DoneItems | components/Checklist.tsx:239 | the completed items of a category are exactly its listed items whose id is completed |
| Progress.DoneItemsAll | components/Checklist.tsx:239-240 | every item is completed exactly when the completed count equals the item count; none completed gives 0 |
| Progress.CategoryProgress | components/Checklist.tsx:234-241 | completed ≤ total ≤ the number of items |
| Progress.CategoryProgressMeaning | components/Checklist.tsx:234-241 | the total is the non-header count less the 3rd age items when those are dropped; completed counts exactly the counted items whose id is completed |
| Progress.AllComplete | components/Checklist.tsx:244 | "all in category completed" implies a non-empty category whose completed count equals its total |
| Progress.AllCompleteMeaning | components/Checklist.tsx:243-244 | "all in category completed" holds exactly when the category has a counted item and every counted item is completed |
| Progress.BulkToggleProgress | components/Checklist.tsx:132-148 | after the bulk toggle the category shows 0 completed if it was fully done, and fully done otherwise |
| Filtering.ItemsToProcess | components/Checklist.tsx:162-165 | the items processed are the category's items, less the 3rd age ones on the collection log when 3rd age is not counted, in catalog order |
| Filtering.ProcessedItems | components/Checklist.tsx:159-212 | no active tab gives an empty list |
| Filtering.SegmentsFlatten | components/Checklist.tsx:184-199 | cutting the list at each header and putting the pieces back gives the list unchanged |
| Filtering.SegmentsWellFormed | components/Checklist.tsx:184-199 | each piece after the first opens with its header, and no piece's body holds a header |
| Filtering.Kept | components/Checklist.tsx:190-197 | an item stays under its header exactly when it matches the search (its own label or its header's) and is not a hidden completed item; kept items stay in order |
| Filtering.FilterWithHeaders | components/Checklist.tsx:169-202 | the loop with its current header, pending items and output list computes the section-by-section filter |
| Filtering.SectionsOutputItem | components/Checklist.tsx:174-200 | a non-header item is in the output exactly when some section keeps it |
| Filtering.SectionsOutputHeader | components/Checklist.tsx:174-182 | a header is in the output exactly when one of its sections kept an item or, with a non-empty query, the header's label matches it |
| Filtering.SectionOutputSubseq | components/Checklist.tsx:174-182 | a section emits its header and kept items in list order |
| Filtering.SectionsOutputSubseq | components/Checklist.tsx:184-200 | the sections' output, read in order, is a subsequence of the glued sections |
| Filtering.HeaderFiltered | components/Checklist.tsx:169-202 | the header-aware output keeps the input order: it is the input with some items deleted |
| Filtering.HeaderFilteredMeaning | components/Checklist.tsx:169-202 | the header-aware output holds only input items, and each item and header is in it exactly when the two rules above say so |
| Filtering.HiddenCompletedNotShown | components/Checklist.tsx:193 | with "hide completed" on, no completed item is in the output |
| Filtering.NoFilterShowsEveryItem | components/Checklist.tsx:184-200 | with no query and nothing hidden, every non-header item is in the output |
| Filtering.QueryFilter | components/Checklist.tsx:206 | the search filter keeps exactly the items whose label matches the query, in order, each as often as the input has it |
| Filtering.HideFilter | components/Checklist.tsx:207 | the hide filter keeps exactly the items that are not hidden completed items, in order, each as often as the input has it |
| Filtering.FlatProcessed | components/Checklist.tsx:205-211 | with the default order the flat output keeps the input order |
| Filtering.FlatProcessedCounts | components/Checklist.tsx:205-211 | an item occurs in the flat output as often as in the input when it matches the search and is not hidden, and not at all otherwise |
| Filtering.FlatProcessedMeaning | components/Checklist.tsx:205-211 | a flat list's output is a permutation of the filtered items: unsorted for the default order, sorted by label A–Z or Z–A otherwise; items with the same label keep their relative order |
| Filtering.PassShowsInputItems | components/Checklist.tsx:169-211 | either pass shows only input items, keeps their order unless it sorts, and shows no completed item while hiding |
| Filtering.ProcessedItemsMeaning | components/Checklist.tsx:159-212 | the processed list holds only the category's items, in catalog order unless a flat list is sorted, never a dropped 3rd age item, never a hidden completed item, and ignores the sort order when the list has headers |
| Filtering.SearchIgnoresCase | components/Checklist.tsx:190-192 | "ironman" and "IRONMAN" both find "Ironman helm"; "ironman" does not find "Bronze helm" |
| ChecklistView.RawSections | components/Checklist.tsx:255-263 | there is a section exactly when the processed list has a header |
| ChecklistView.RawSectionsCover | components/Checklist.tsx:257-263 | the sections' items, read in order, are the processed list from its first header on; each section has a header and only non-header items |
| ChecklistView.RawSectionsOfItems | components/Checklist.tsx:260 | items met before any header are dropped: a header-free list gives no section |
| ChecklistView.Sections | components/Checklist.tsx:252-265 | there are sections exactly for a tab with headers; each shown section is one built from the list and passes the filter; a shown section means the list has a header |
| ChecklistView.KeepSections | components/Checklist.tsx:264 | the section filter keeps exactly the sections with items or whose header matches a non-empty query, in order |
| ChecklistView.BuildSections | components/Checklist.tsx:252-265 | the loop that opens a section at each header and appends to the last one, followed by the filter, computes the filtered sections |
| ChecklistView.SectionsOutputAllKept | components/Checklist.tsx:174-182 | every section built from the header-aware output passes the section filter |
| ChecklistView.SectionFilterRedundant | components/Checklist.tsx:264 | on the header-aware output the section filter changes nothing |
| ChecklistView.KeepAllKept | components/Checklist.tsx:264 | filtering sections that all pass returns them unchanged |
| ChecklistView.SearchResultsCount | components/Checklist.tsx:246 | on the diaries tab the count is the number of regions shown; otherwise it is at most the list length and is 0 exactly when the list holds only headers |
| ChecklistView.CompleteAndHidden | components/Checklist.tsx:248 | "complete and hidden" implies hiding on, no search, and a non-empty category fully completed |
| ChecklistView.CompleteAndHiddenShowsNoItem | components/Checklist.tsx:243-248 | when the category is complete, hidden and unsearched, the processed list holds headers only |
| Diaries.MatchDiaryFromSound | components/Checklist.tsx:24 | a match from a given tier on splits the label into a single-line region, a space and a parenthesised tier name |
| Diaries.MatchDiarySound | components/Checklist.tsx:24 | a diary match splits the label as "region (Tier)" with a tier from the tier order |
| Diaries.OtherTierNoMatch | components/Checklist.tsx:24 | a label ending in one tier's suffix does not end in another's |
| Diaries.MatchDiaryFromFinds | components/Checklist.tsx:24 | the search from an earlier tier reaches the label's own tier and returns its region |
| Diaries.MatchDiaryRoundTrip | components/Checklist.tsx:24 | matching "region (Tier)" gives back that region and tier |
| Diaries.DiaryTierIsTierName | components/Checklist.tsx:24-38 | for a diary label whose region has no `(`, the sort comparator's tier is the matched tier and its rank is non-negative |
| Diaries.BucketsSortedPermutation | components/Checklist.tsx:35-39 | collecting the items rank by rank is a permutation and is ordered by rank |
| Diaries.BucketsStable | components/Checklist.tsx:35-39 | items of equal rank keep their relative order |
| Diaries.TierSorted | components/Checklist.tsx:34-40 | the tier sort is a permutation of the region's items |
| Diaries.TierSortedIsStableSort | components/Checklist.tsx:34-40 | the tier sort is a permutation, ordered by rank, and stable |
| Diaries.RegionNames | components/Checklist.tsx:23-31 | region names are duplicate-free and are exactly the regions of the diary items |
| Diaries.RegionMembers | components/Checklist.tsx:27-30 | a region's list holds exactly the diary items of that region, in list order |
| Diaries.FirstInRegion | components/Checklist.tsx:23-30 | the position of the first item of a region: that item is in the region and no earlier one is |
| Diaries.RegionNamedIffFirst | components/Checklist.tsx:27-29 | a region has a map key exactly when some item is in it |
| Diaries.RegionNamesFirstSeen | components/Checklist.tsx:20-31 | the map keys are in order of each region's first appearance in the list |
| Diaries.GroupedDiaries | components/Checklist.tsx:19-43 | the groups come in order of each region's first appearance in the list |
| Diaries.GroupedDiariesMeaning | components/Checklist.tsx:19-43 | the groups have distinct names; each is non-empty, a rank-sorted permutation of its region's items; every diary item is in its region's group |
| Diaries.CollectRegions | components/Checklist.tsx:20-32 | the loop filling the map and its key order computes the region names and members |
| Diaries.SortRegions | components/Checklist.tsx:34-42 | each region's list is replaced by its tier sort, in key order |
| Diaries.GroupDiariesByRegion | components/Checklist.tsx:19-43 | the two loops compute the grouped diaries |
| Diaries.FilterRegions | components/Checklist.tsx:224-226 | a region stays exactly when its name matches the query and, with "hide completed" on, some tier is not completed; regions stay in order |
| Diaries.ProcessedDiaryRegions | components/Checklist.tsx:214-232 | there are regions exactly on the diaries tab; with the default order they keep the grouping's order |
| Diaries.ProcessedDiaryRegionsMeaning | components/Checklist.tsx:221-232 | the regions shown are the filtered groups: unsorted by default, sorted by name A–Z or Z–A otherwise |
| Diaries.CompletedRegionHidden | components/Checklist.tsx:226 | with "hide completed" on, a region whose tiers are all completed is not shown |
| DiaryRegion.FindTier | components/DiaryRegion.tsx:48 | the tier found has the toggled id, and none exactly when no tier has it |
| DiaryRegion.FindTierFirst | components/DiaryRegion.tsx:48 | `find` returns the first tier with the id |
| DiaryRegion.IdsNamed | components/DiaryRegion.tsx:62-67 | the ids collected are exactly those of the tiers whose tier name is in the given slice |
| DiaryRegion.HandleToggle | components/DiaryRegion.tsx:46-79 | no request exactly when the id is unknown or its label has no tier name; ticking sends nothing to remove; unticking sends nothing to add |
| DiaryRegion.InTierSlice | components/DiaryRegion.tsx:61-70 | a tier name is in `tierOrder.slice(lo, hi)` exactly when its rank is in lo..hi-1 |
| DiaryRegion.ToggleOnRequest | components/DiaryRegion.tsx:60-68 | ticking a tier asks to add exactly the tiers of that rank or easier, the ticked one included |
| DiaryRegion.ToggleOffRequest | components/DiaryRegion.tsx:69-77 | unticking a tier asks to remove exactly the tiers of that rank or harder, the unticked one included |
| DiaryRegion.AddedTiersComplete | components/DiaryRegion.tsx:60-68 | an add-only request completes the tier and every easier one, and leaves every other id alone |
| DiaryRegion.RemovedTiersCleared | components/DiaryRegion.tsx:69-77 | a remove-only request clears the tier and every harder one, and leaves every other id alone |
| DiaryRegion.CascadeOnEffect | components/DiaryRegion.tsx:60-68 | ticking a tier and applying the update leaves it and every easier tier completed, and no id outside the request changed |
| DiaryRegion.CascadeOffEffect | components/DiaryRegion.tsx:69-77 | unticking a tier and applying the update leaves it and every harder tier not completed, and no id outside the request changed |
| DiaryRegion.NoUpdateForUnknownTier | components/DiaryRegion.tsx:50-58 | a click on an id with no tier name sends no update |
| Checklist.FindCategory | components/Checklist.tsx:118 | the category found has the id, and none exactly when no category has it |
| Checklist.FindCategoryFirst | components/Checklist.tsx:118 | `find` returns the first category with the id |
| Checklist.InitialCategoryId | components/Checklist.tsx:47 | the first tab opened is the first category |
| Checklist.ExpandedOnOpen | components/Checklist.tsx:99-103 | opening the collection log expands only the beginner clue section; any other tab expands nothing |
| Checklist.ChecklistState.constructor | components/Checklist.tsx:46-51 | the first render: the stored ids, the first tab, empty search, default sort, nothing hidden, beginner clues expanded |
| Checklist.ChecklistState.ActiveCategory | components/Checklist.tsx:118 | the active category is a catalog category with the selected id |
| Checklist.ChecklistState.TabClick | components/Checklist.tsx:95-104 | a tab click opens the tab, clears the search, resets the sort and sets the expanded sections; the completion array is untouched |
| Checklist.ChecklistState.ToggleItem | components/Checklist.tsx:106-116 | the item's id flips, every other id keeps its state, the array is duplicate-free; the view state is unchanged |
| Checklist.ChecklistState.ToggleSectionExpanded | components/Checklist.tsx:120-130 | one section flips; nothing else changes |
| Checklist.ChecklistState.ToggleCategoryItems | components/Checklist.tsx:132-148 | the bulk toggle removes the category's ids when all were completed and adds them otherwise; the array stays duplicate-free |
| Checklist.ChecklistState.UpdateDiaryTiers | components/Checklist.tsx:150-157 | the new id set is (old ∪ added) minus removed, duplicate-free; the view state is unchanged |
| Checklist.ChecklistState.SetSearchQuery | components/Checklist.tsx:335 | only the search query changes |
| Checklist.ChecklistState.SetSortBy | components/Checklist.tsx:347 | only the sort order changes |
| Checklist.ChecklistState.SetHideCompleted | components/Checklist.tsx:364 | only the "hide completed" flag changes |
| App.GameModeIcon | App.tsx:19-32 | ironman, hardcore and group modes have their badge; main mode and a missing mode have none |
| App.GuessedMode | App.tsx:49 | the migrated game mode is ironman or main |
| App.GuessedModeExamples | App.tsx:49 | "Fe Mont26 (F2P)" and "Coffee" are guessed ironman (the "fe" test matches inside words); "Mont26 (Members)" is main |
| App.MigrateAccount | App.tsx:45-50 | a migrated record keeps its id and name, takes its membership from the old `type`, drops `type` and gets a guessed mode |
| App.MigrateAll | App.tsx:45-50 | the migration maps every record in place |
| App.Migration | App.tsx:42-53 | the list is migrated exactly when its first record has the old `type` field; ids and names are always kept |
| App.NeedsMigration | App.tsx:44 | a list that needs migrating is changed by the migration |
| App.MigrationOnce | App.tsx:42-53 | a migrated list needs no further migration, so migrating twice equals migrating once |
| App.FindAccount | App.tsx:75 | the account found has the id, and none exactly when no account has it |
| App.FindAccountFirst | App.tsx:75 | `find` returns the first account with the id |
| App.InitialActiveId | App.tsx:37 | the first selection is the first account, or "" when there is none |
| App.DatasetFor | App.tsx:124 | the members dataset is chosen exactly for members accounts |
| App.StorageKey | App.tsx:125 | the checklist key is "osrs-checklist-" followed by the account id |
| App.StorageKeyInjective | App.tsx:125 | two accounts share a checklist key exactly when they share an id |
| App.ScreenFor | App.tsx:120-133 | "No Account Selected" shows exactly when no account has the selected id; otherwise the checklist is keyed by that id, shows the found account's name, uses the members dataset exactly for a members account, and gets its storage key and the settings |
| App.FindAfterAppend | App.tsx:62-63 | after appending an account with a fresh id, looking it up finds it; earlier lookups are unchanged |
| App.DefaultScreen | App.tsx:10-17 | on a first visit the members checklist of "Mont26 (Members)" is shown under key "osrs-checklist-mont26" with 3rd age counted |
| App.AppState.constructor | App.tsx:36-40 | the stored accounts and settings, or the defaults when none are stored; the first account selected |
| App.AppState.ActiveAccount | App.tsx:75 | the active account is a listed account with the selected id |
| App.AppState.CurrentScreen | App.tsx:120-133 | the screen shows "No Account Selected" exactly when there is no active account; otherwise the checklist of the active account under its storage key |
| App.AppState.RunMigration | App.tsx:42-53 | the mount effect replaces the list by its migration and keeps the selection and whether it names an account |
| App.AppState.SaveAccount | App.tsx:55-65 | the new account is appended and selected; when its id is fresh it becomes the active account |
| App.AppState.SelectAccount | App.tsx:89 | a click selects that id and changes nothing else |

## Left out

- Rendering (JSX, class names, icon URLs, the progress bar's percentage) is not modelled. `GameModeIcon` returns the image's alt text in place of the image.
- Persistence through local storage is not modelled. The stored value is a parameter of each constructor, and a missing value means the default. A stored value that is not an id array or an account list is not modelled.
- React's memoisation, effect scheduling and batched state setters are not modelled. Each handler is one method on the state, and each derived value is a function of the state.
- `Date.now()` becomes a `stamp` string parameter of `App.AppState.SaveAccount`.
- `localeCompare` is modelled as lexicographic order on code units. Locale collation is not modelled.
- `toLowerCase` is modelled on ASCII letters only.
- The catalogs' contents are out of scope. The choice between the two datasets is an enumeration, and the catalog is a parameter of the checklist state.
- The account modal's input trimming, the settings modal, the button styling and the modal open/close flags are not modelled.
- The diary label pattern `^(.*) \((Easy|Medium|Hard|Elite)\)$` is modelled as a suffix test: the region must hold no line terminator, followed by " (Tier)" at the end of the label. Regular expressions in general are not modelled.
- `tierMap` is modelled for its own four keys only. Its inherited prototype keys, such as a tier named "constructor", are not modelled.
- Text.FirstParenGroupFrom: the function's own contract states only the shape of the group. The leftmost-match property lives in `Text.FirstParenGroupFromLeftmost`.
- Filtering.ProcessedItems: the function's own contract states only the no-tab case. `Filtering.ProcessedItemsMeaning` and `Filtering.PassShowsInputItems` state the rest.
- Diaries.MatchDiary: the function carries no contract of its own. `Diaries.MatchDiarySound` and `Diaries.MatchDiaryRoundTrip` state what a match means.
- Diaries.RegionNames: the function's own contract states the keys, not their order. `Diaries.RegionNamesFirstSeen` states the first-appearance order of the map's keys.
- Diaries.TierSorted: the function's own contract states only the permutation. `Diaries.TierSortedIsStableSort` adds the rank order and stability.
- Progress.AllComplete: the function's own contract states one direction. `Progress.AllCompleteMeaning` states both.
- ChecklistView.CompleteAndHidden: the function's own contract states one direction. `ChecklistView.CompleteAndHiddenShowsNoItem` states what the flag implies for the list.
- App.GuessedMode: the contract states only the two possible results. `App.GuessedModeExamples` pins down its behaviour on concrete names.
- Items that come before the first header of a header list are kept by the processed list but belong to no section (`ChecklistView.RawSectionsOfItems`). This is the component's behaviour, not a gap in the model.
