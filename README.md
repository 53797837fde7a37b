# heritage-tracker core, modelled in Dafny

heritage-tracker is a catalog of heritage places. A visitor searches the catalog, filters it by category, marks places as visited and looks at a summary of the places already visited. This project models the three parts of it that hold real logic. It states what each one promises and proves it.

- **The catalog store** (`src/store/useHeritageStore.ts`) is module `CatalogStore`.
  - Its state is the class `HeritageStore`, with fields `places`, `searchQuery` and `selectedCategory`.
  - The three mutators are methods of that class. Each `ensures` gives the complete new state.
  - `toggleVisited` is specified by the function `Toggled`.
  - The derived reads are functions over the place list and the two session fields:
    - the visited and unvisited partitions;
    - the filtered list;
    - lookup by id;
    - the random pick.
  - These functions rest on three helper modules:
    - `Seqs`: a generic, order-preserving `Filter`, the `SelectedBy` characterisation of "the subsequence of exactly the elements passing a test", and the partition and conjunction lemmas;
    - `Text`: `toLowerCase` over ASCII, `includes`, and a proof that `includes` means "occurs at some position";
    - `Heritage`: the place record and the six-value category enum.
- **The page bar** (`src/components/Pagination.tsx`) is module `Pagination`.
  - `getVisiblePages` is the method `VisiblePages`. It keeps the source's push loops and is proved equal to the value-level description `VisibleSpec`.
  - The lemmas about `VisibleSpec` cover:
    - the window;
    - the gaps;
    - ordering and bounds;
    - the current page and the last page.
  - The module also covers:
    - the `startItem`/`endItem` arithmetic;
    - the `totalPages <= 1` guard;
    - the jump input's range guard.
- **The visited page** (`src/app/visited/page.tsx`) is module `VisitedSummary`.
  - The `reduce` that fills `placesByCategory` is the method `GroupByCategory`. Like the source, it creates an empty bucket and then pushes the place.
  - `GroupByCategory` is proved equal to a fold over the list (`Reduce`) and to a declarative description (`GroupingOf`). `GroupingOf` gives the keys in first-occurrence order, and under each key the places of that category, in order.
  - The module also models:
    - the most-visited-category argmax with its tie rule;
    - the category labels;
    - the count-based badges;
    - the choice between the empty state and the journey view.

The JavaScript object `placesByCategory` is modelled as a key sequence plus a map, because `Object.keys` and `Object.entries` list string keys in insertion order. The random index of `getRandomPlace` is a parameter, `pick`; the caller supplies it in `0 <= pick < |unvisited|`, as `Math.floor(Math.random() * length)` does. The parsed number of the jump input is a parameter too, of type `Option<int>`; `None` stands for `NaN`.

## Model

| member | source | states |
|---|---|---|
| Heritage.CategoryNamesDistinct | src/types/heritage.ts:14 | the six category strings are pairwise different and none is "all", so a category filter value names at most one category |
| CatalogStore.HeritageStore.constructor | src/store/useHeritageStore.ts:26-28 | the store starts with the seed places, an empty query and the "all" category |
| CatalogStore.ToggleIfMatches | src/store/useHeritageStore.ts:33-35 | the callback of the `map`: the place with `isVisited` negated when its id is the toggled one, else the place itself; its effect on the list is stated by Toggled and PlaceByIdAfterToggle |
| CatalogStore.Toggled | src/store/useHeritageStore.ts:30-38 | the list keeps its length and order; every place with the id has `isVisited` negated and every other place is unchanged |
| CatalogStore.HeritageStore.ToggleVisited | src/store/useHeritageStore.ts:30-38 | `places` becomes the toggled list; `searchQuery` and `selectedCategory` are unchanged |
| CatalogStore.ToggledTwice | src/store/useHeritageStore.ts:32-36 | toggling the same id twice restores the list |
| CatalogStore.ToggleTwiceRestores | src/store/useHeritageStore.ts:30-38 | two `toggleVisited` calls with one id, made on the store, leave all three fields as they were |
| CatalogStore.ToggledUnknownId | src/store/useHeritageStore.ts:32-36 | an id no place carries leaves the list unchanged |
| CatalogStore.ToggledKeepsIds | src/store/useHeritageStore.ts:32-36 | toggling never changes the id or category at any position |
| CatalogStore.HeritageStore.SetSearchQuery | src/store/useHeritageStore.ts:40-42 | `searchQuery` becomes the argument verbatim; the other two fields are unchanged |
| CatalogStore.HeritageStore.SetSelectedCategory | src/store/useHeritageStore.ts:44-46 | `selectedCategory` becomes the argument verbatim; the other two fields are unchanged |
| CatalogStore.VisitedPlaces | src/store/useHeritageStore.ts:61-64 | a place is in the result iff it is in `places` and is visited |
| CatalogStore.UnvisitedPlaces | src/store/useHeritageStore.ts:66-69 | a place is in the result iff it is in `places` and is not visited |
| CatalogStore.VisitedUnvisitedPartition | src/store/useHeritageStore.ts:61-69 | both lists are order-preserving subsequences that hold exactly the visited or the unvisited places; together they are a permutation of `places`, and their lengths sum to its length |
| CatalogStore.RandomPlace | src/store/useHeritageStore.ts:48-59 | null iff every place is visited; otherwise the picked element of the unvisited list, which is a place of the catalog and is unvisited |
| CatalogStore.RandomPlaceReachesEveryUnvisited | src/store/useHeritageStore.ts:55-58 | every unvisited place is returned for some in-range index |
| CatalogStore.MatchesSearch | src/store/useHeritageStore.ts:75-87 | `matchesSearch`: the lowered query is included in the lowered name, city, province or description; FilteredPlaces states that a place is listed only if this holds |
| CatalogStore.MatchesCategory | src/store/useHeritageStore.ts:89-91 | `matchesCategory`: the filter is "all" or equals the place's category string; FilteredByCategoryOnly proves that a category's name selects exactly that category |
| CatalogStore.FilteredPlaces | src/store/useHeritageStore.ts:71-95 | a place is listed iff it is in `places`, the lowered query occurs in one of its four lowered text fields, and the category test passes |
| CatalogStore.FilteredPlacesIsIntersection | src/store/useHeritageStore.ts:74-94 | the filtered list is the order-preserving subsequence of the places passing both tests, and equals filtering by search and then by category |
| CatalogStore.FilteredPlacesDefaultIsAll | src/store/useHeritageStore.ts:71-95 | with query "" and category "all" every place is listed, in order |
| CatalogStore.FilteredByCategoryOnly | src/store/useHeritageStore.ts:89-91 | with an empty query and a category name, exactly the places of that category are listed |
| CatalogStore.PlaceById | src/store/useHeritageStore.ts:97-100 | none iff no place has the id; otherwise a place of the catalog with that id |
| CatalogStore.PlaceByIdIsFirst | src/store/useHeritageStore.ts:97-100 | the place found is the first one with the id |
| CatalogStore.PlaceByIdAfterToggle | src/store/useHeritageStore.ts:30-38 | after a toggle, a lookup finds what it found before, with the flag negated when its id is the toggled one |
| Seqs.Filter | src/store/useHeritageStore.ts:61-69 | `Array.prototype.filter`, defined by peeling off the last element; its result is never longer than its input, and FilterMembers and FilterSelects state what it keeps and in which order |
| Seqs.FilterMembers | src/store/useHeritageStore.ts:61-69 | `Array.filter`: an element is in the result iff it is in the input and passes the test |
| Seqs.FilterSelects | src/store/useHeritageStore.ts:61-69 | the result of a filter is an order-preserving subsequence of the input that holds exactly the positions whose elements pass the test |
| Seqs.FilterPartition | src/store/useHeritageStore.ts:61-69 | filtering by a test and by its negation splits the input: the two multisets add up to the input's, and so do the two lengths |
| Seqs.FilterAnd | src/store/useHeritageStore.ts:74-94 | filtering by a conjunction equals filtering by one test and then by the other |
| Seqs.FilterKeepsAll | src/store/useHeritageStore.ts:71-95 | when every element passes, the filter returns its input |
| Text.Lower | src/store/useHeritageStore.ts:76-87 | `toLowerCase` over ASCII maps each character on its own and keeps the length |
| Text.LowerIsIdempotent | src/store/useHeritageStore.ts:76-87 | a lowered string has no upper-case letter left, and lowering it again changes nothing |
| Text.LowerIgnoresCase | src/store/useHeritageStore.ts:76-87 | strings that agree up to case lower to the same string |
| Text.Includes | src/store/useHeritageStore.ts:76-87 | `String.prototype.includes`: true when the needle is a prefix of the string or of one of its suffixes; IncludesIff proves this means an occurrence at some position |
| Text.IncludesIff | src/store/useHeritageStore.ts:76-87 | `includes` holds iff the needle occurs as a contiguous block at some position |
| Text.IncludesEmpty | src/store/useHeritageStore.ts:76-87 | every string includes "" |
| Pagination.PageRun | src/components/Pagination.tsx:27-29 | the run `lo..hi` has `max(0, hi-lo+1)` entries, and its k-th entry is page `lo+k` |
| Pagination.VisiblePages | src/components/Pagination.tsx:22-54 | the pushed array equals `VisibleSpec`: pages `1..totalPages` when there are at most five, otherwise the leading part, the window `start..end`, and the trailing part |
| Pagination.VisibleSpec | src/components/Pagination.tsx:22-54 | the bar as a value: `1..totalPages` when there are at most five pages, otherwise page 1 and a gap as needed, the window, then a gap and the last page as needed; VisiblePages is proved equal to it, and NumbersOfVisible, VisibleOrderedAndBounded and VisibleShowsCurrentAndLast state its properties |
| Pagination.PushRun | src/components/Pagination.tsx:41-43 | the push loop appends exactly the buttons `lo..hi` to what the bar already holds |
| Pagination.NumbersOfVisible | src/components/Pagination.tsx:26-50 | with at most five pages the bar is exactly `1..totalPages`; otherwise its numbers are 1 (if `start > 1`), then `start..end` with no holes, then `totalPages` (if `end < totalPages`), and it has one gap when `start > 2` plus one when `end < totalPages - 1` |
| Pagination.VisibleShowsCurrentAndLast | src/components/Pagination.tsx:31-50 | for an in-range current page the bar shows it and ends with `totalPages`; with more than five pages the second entry is "..." iff `start > 2`, and the second-to-last is "..." iff `end < totalPages - 1` |
| Pagination.VisibleOrderedAndBounded | src/components/Pagination.tsx:22-54 | page numbers strictly increase and lie in `1..totalPages`; the bar has at most nine entries and starts with page 1 when there is a page |
| Pagination.VisibleBeyondLastPage | src/components/Pagination.tsx:31-50 | with more than five pages and a current page at least three beyond the last, the bar is exactly page 1 followed by a gap |
| Pagination.StartItem | src/components/Pagination.tsx:19 | `startItem = (currentPage - 1) * itemsPerPage + 1`; ItemRangeOfPage proves the range it opens is non-empty and follows the previous page's range |
| Pagination.EndItem | src/components/Pagination.tsx:20 | `endItem` is at most `totalItems` and at most `currentPage * itemsPerPage`, and equals one of the two |
| Pagination.ItemRangeOfPage | src/components/Pagination.tsx:19-20 | on a page holding an item the range is non-empty, counts a full page or the remainder, and the next page starts right after it |
| Pagination.ShowsControls | src/components/Pagination.tsx:56 | the control renders only when `totalPages > 1`; ShownBarOffersChoice proves that a rendered bar offers at least two pages |
| Pagination.ShownBarOffersChoice | src/components/Pagination.tsx:56 | when the control renders (`totalPages > 1`) for an in-range page, the bar shows at least two pages |
| Pagination.JumpTarget | src/components/Pagination.tsx:136-139 | a page is passed on iff the input parsed to a number in `1..totalPages`, and it is passed on unchanged |
| Pagination.JumpTargetIsShown | src/components/Pagination.tsx:137-139 | a page the jump input accepts is shown on the bar it leads to |
| VisitedSummary.CategoryOrder | src/app/visited/page.tsx:44-50 | the keys are distinct, every key is the category of some visited place, every visited place's category is a key, and there are no more keys than places |
| VisitedSummary.GroupByCategory | src/app/visited/page.tsx:44-50 | the in-place reduce yields `Reduce(visited)` and the grouping `GroupingOf(visited)`: keys in first-occurrence order, each bucket holding the places of that category |
| VisitedSummary.Push | src/app/visited/page.tsx:44-49 | one call of the reducer: a new key with an empty bucket the first time a category is met, then the place appended to that bucket; GroupingSnoc proves one step keeps the grouping of the places seen so far |
| VisitedSummary.Reduce | src/app/visited/page.tsx:44-50 | the reduce as a fold of Push from the empty object; GroupByCategory is proved equal to it and ReduceIsGroupingOf proves it yields the declarative grouping |
| VisitedSummary.ReduceIsGroupingOf | src/app/visited/page.tsx:44-50 | folding the reducer step over the list gives the declarative grouping |
| VisitedSummary.GroupingSnoc | src/app/visited/page.tsx:45-48 | one reducer step (a new key and empty bucket if needed, then a push) turns the grouping of `s` into the grouping of `s + [p]` |
| VisitedSummary.PlaceInOwnBucketOnly | src/app/visited/page.tsx:44-50 | a visited place is in the bucket of its own category and in no other bucket; the buckets are exactly the keys |
| VisitedSummary.BucketKeepsOrder | src/app/visited/page.tsx:44-50 | each bucket is the order-preserving subsequence of the visited places of its category |
| VisitedSummary.GroupSizesSum | src/app/visited/page.tsx:44-50 | the bucket sizes add up to the number of visited places |
| VisitedSummary.KeysInFirstOccurrenceOrder | src/app/visited/page.tsx:203 | the keys, as `Object.entries` lists them, are ordered by where their category first occurs |
| VisitedSummary.MostVisited | src/app/visited/page.tsx:138-145 | the result is a key whose bucket is largest; when buckets tie, the later key wins, so no later key has a bucket as large as the winner's |
| VisitedSummary.Label | src/app/visited/page.tsx:52-59 | `categoryLabels`: the heading each of the six categories is shown under; MostVisitedLabel uses it for the winning key |
| VisitedSummary.MostVisitedLabel | src/app/visited/page.tsx:136-147 | "-" iff there are no groups; otherwise the label of the most visited category |
| VisitedSummary.Badges | src/app/visited/page.tsx:167-191 | Beginner iff at least 1 visited place, Adventurer iff at least 3, History Lover iff at least 5, Category Master iff at least 3 categories; no badge twice |
| VisitedSummary.BadgesMonotone | src/app/visited/page.tsx:167-191 | more places and more categories never take a badge away |
| VisitedSummary.View | src/app/visited/page.tsx:84 | the empty state is shown iff there are no visited places |
| VisitedSummary.JourneyFacts | src/app/visited/page.tsx:84-191 | on the journey view: Beginner is always earned, the most-visited label is never "-", the category count is between 1 and the place count, Category Master and History Lover each come only with Adventurer, and the groups hold every visited place |

## Left out

- Persistence is not modelled: the zustand `persist` middleware, localStorage, `rehydrate` and `isHydrated` (src/store/useHeritageStore.ts:102-122). They are a foreign library plus I/O.
- RandomPlace: `Math.random` is replaced by the index parameter `pick`, so the model says which place each index yields, not how likely each place is.
- Text.Lower: `toLowerCase` is modelled for the ASCII letters A-Z only; Unicode case mapping is not modelled.
- `completionPercentage` (src/app/visited/page.tsx:38-41) is not modelled, nor the Half Explorer and Heritage Champion badges that depend on it (src/app/visited/page.tsx:182-186, 192-196). They use a floating-point division and `Math.round`.
- Page numbers, item counts and the parsed jump value are JavaScript numbers in the source and `int` here: non-integer values and values beyond 2^53, where floating-point arithmetic loses precision, are not modelled.
- JumpTarget: `parseInt` is not modelled; its outcome is the parameter `parsed`, with `None` for `NaN`.
- VisibleShowsCurrentAndLast: it requires `1 <= currentPage <= totalPages`. The source does not check this, and for a current page more than two beyond the last page the bar does not end with the last page (VisibleBeyondLastPage gives the bar for every current page three or more beyond the last).
- Place keeps only id, name, description, city, province, category and the visited flag. Image, coordinates, year, rating, visit count, highlights, opening hours and ticket prices are never read by the modelled logic.
- The JSX rendering is not modelled, nor the Previous/Next buttons, navigation through `window.location` and the `totalPages > 10` condition that shows the jump input.
- The seed dataset `@/data/heritageData` is not part of this model; the store's constructor takes the seed places as a parameter.
- The files `src/lib/utils.ts`, `Header.tsx`, `HeritageCard.tsx`, `SearchAndFilter.tsx`, `StatsOverview.tsx`, `PlaceholderImage.tsx`, `layout.tsx`, `page.tsx` and `next.config.mjs` are presentation, configuration or formatting, and are not part of this model.
