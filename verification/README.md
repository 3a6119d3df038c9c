# Portfolio project grid and navigation, modelled in Dafny

This project models the logic of `script.js`, the client-side script of a
personal portfolio site. The page fetches a list of projects and shows them as
a grid of cards. The visitor can filter the grid by category and sort it by
recency or by stars. A navigation bar has a mobile menu, a "scrolled" style and
a highlight for the section in view.

The model has five modules:

- `Wrappers` (`wrappers.dfy`): the `Option` type for the fields a project may leave out.
- `StableSort` (`stable_sort.dfy`): a stable insertion sort into non-increasing
  key order. It models `Array.prototype.sort` with a comparator
  `(a, b) => key(b) - key(a)`; ECMA-262 has required that sort to be stable
  since its 2019 edition. Stability is stated per key value: the elements with
  key `k` appear in the result in the same order as in the input
  (`Select(result, key, k) == Select(input, key, k)`). `SortedStableUnique`
  proves that exactly one arrangement is both sorted and stable, so the
  insertion sort gives what any conforming engine gives.
- `Projects` (`projects.dfy`): the `Project` record, `filterProjects`,
  `sortProjects`, and the selection state (`allProjects`, `currentFilter`,
  `currentSort`) whose derived list `renderFilteredSorted` shows.
- `Cards` (`cards.dfy`): `renderProjects` as an abstract grid. The grid is
  either the empty-state placeholder or one `Card` per project. It also holds
  `getCategoryClass` and the stagger tier `min(index + 1, 4)`.
- `Navigation` (`navigation.dfy`): active-section selection, nav-link
  highlighting, the mobile-menu state machine, and the "scrolled" threshold.

Dates are optional integer timestamps in milliseconds. `None` stands for a
falsy `updated_at`, either absent or empty. The `"recent"` sort key is
`updated_at || 0`, so a missing date counts as the epoch.

Three behaviours of the code differ from what a reader might expect, and the model follows the code in each (the one place where it deliberately does not, the category class on a card, is listed under "## Left out"):

- An undated project is not the oldest possible one. It ranks as the epoch, so
  a project dated before 1970 sorts after it (`Projects.UndatedSortsAbovePreEpoch`).
- With no section in view, `current` is `''`. A link is active when its href
  equals `'#' + current`, so a link whose href is exactly `"#"` becomes
  active. It is not true that no link is active (`Navigation.NoSectionInView`).
- A sort key other than `"recent"` or `"stars"` leaves the filtered list in
  input order.

## Model

| member | source | states |
|---|---|---|
| StableSort.Sort | script.js:118-131 | the result is a permutation of the input, non-increasing in the key, and keeps the input order among equal keys |
| StableSort.SortedStableUnique | script.js:121-128 | two sequences that are both sorted by the key and agree on the order within every key value are equal |
| StableSort.SortIsTheStableSort | script.js:121-128 | any sorted and stable arrangement of the input is exactly the modelled sort, so the comparator sort is determined |
| StableSort.SortIdempotent | script.js:118-131 | sorting any list that is already non-increasing in the key returns it unchanged |
| Projects.FilterProjects | script.js:134-137 | `'all'` returns the input itself; otherwise every result has the selected category, each matching project appears as often as in the input and others never, and the result is a subsequence of the input |
| Projects.OfCategory | script.js:136 | `projects.filter(p => p.category === filter)` returns only projects of that category, as a subsequence of the input |
| Projects.OfCategoryCounts | script.js:136 | each project of the category appears in the filtered list exactly as often as in the input, and no other project appears |
| Projects.FilterAppend | script.js:134-137 | filtering a concatenation equals concatenating the filtered parts: the filter never reorders |
| Projects.FilterIdempotent | script.js:134-137 | filtering twice by the same selector equals filtering once |
| Projects.Stars | script.js:128 | the `'stars'` key is the project's star count |
| Projects.Timestamp | script.js:123-124 | the `'recent'` key is the date's timestamp, or 0 when `updated_at` is missing |
| Projects.ComparatorsOrderByKey | script.js:122-128 | `dateB - dateA` and `b.stars - a.stars` are negative exactly when `a` has the larger key and zero exactly on equal keys, so both sorts are descending by key with ties left to stability |
| Projects.SortProjects | script.js:118-131 | the result is a permutation of the argument; for `'recent'` it is non-increasing in timestamp (missing = 0) and stable; for `'stars'` non-increasing in stars and stable; for any other key it is the input order |
| Projects.SortProjectsUnique | script.js:118-131 | any list meeting the sort's ordering and stability promises for that key equals the modelled result |
| Projects.FilterSortCommute | script.js:139-143 | sorting the whole list and then filtering it gives the same list as filtering first and sorting second |
| Projects.Visible | script.js:139-143 | the derived list holds exactly the matching projects of the loaded list, each as often as loaded, ordered by the current sort key |
| Projects.VisibleStable | script.js:139-143 | within each key value, the derived list keeps the order of the filtered list |
| Projects.LoadedShowsAllByRecency | script.js:64-78 | right after loading, every project is shown, in the stable most-recent-first order |
| Projects.Loaded | script.js:64-78 | after loading, the store holds the loaded list with filter `'all'` and sort `'recent'` |
| Projects.ChooseFilter | script.js:247-248 | a filter click sets `currentFilter` and leaves the list and the sort key unchanged |
| Projects.ChooseSort | script.js:261-262 | a sort click sets `currentSort` and leaves the list and the filter unchanged |
| Projects.ChooseSortKeepsContents | script.js:254-264 | a sort-control click never changes which projects are shown |
| Projects.ChooseFilterKeepsOrder | script.js:240-250 | after a filter-control click, the grid list is the full list sorted by the current key and then filtered |
| Projects.TwoWebProjects | script.js:118-143 | two Web projects, A (3 stars, 2024) and B (10 stars, 2023): by stars the order is [B, A], by recency it is [A, B] |
| Projects.UndatedSortsAbovePreEpoch | script.js:121-126 | a project dated before 1970 sorts after an undated one, because the missing date counts as 0 |
| Cards.CategoryClass | script.js:205-212 | `'Back-end'`, `'Automação'` and `'Web'` map to their own classes; the class is non-empty iff the category is one of those three |
| Cards.CategoryClassAsWritten | script.js:205-212 | the object-literal lookup gives an inherited member exactly for `Object.prototype` names; for every other category it agrees with `CategoryClass` |
| Cards.InheritedCategoryGetsClass | script.js:205-212 | for the category `"constructor"` the code as written yields a non-empty value where the intended class is `''` |
| Cards.DelayTier | script.js:160 | the tier lies in 1..4 and is `index + 1` for the first three cards and 4 after |
| Cards.DelayTierMonotone | script.js:160 | a later card never gets a smaller delay tier |
| Cards.RenderProjects | script.js:145-187 | an empty list renders only the placeholder; otherwise there is one card per project, in order, carrying that project's fields and its class from the corrected lookup `CategoryClass`, its timestamp as the date to format, with delay tier `min(i+1,4)`, a star badge (showing the count) iff stars > 0, and a date iff `updated_at` is present |
| Cards.MakeCard | script.js:158-186 | the card shows the project's title, description, category, link and tags, its class from the corrected lookup `CategoryClass`, delay tier `min(index+1,4)`, a star badge with the count iff stars > 0, and the project's date iff present |
| Cards.RenderedClassMatchesLookup | script.js:159 | for every category that is not an inherited `Object.prototype` name, the class on the rendered card is exactly what `getCategoryClass` as written returns |
| Cards.GridMatchesSelection | script.js:139-156 | the grid has as many cards as the filter keeps, and shows the placeholder iff no loaded project matches the filter |
| Navigation.ActiveSection | script.js:273-283 | the result is `''` when no section's band `[top-150, top-150+height)` holds the scroll offset; otherwise it is the id of the last such section in document order |
| Navigation.ScanActiveSection | script.js:272-283 | the forEach loop that overwrites `current` computes that last-in-view section id |
| Navigation.ActiveLinks | script.js:285-290 | one flag per link, set iff the link's href is `'#' + current` |
| Navigation.AtMostOneActiveLink | script.js:285-290 | with distinct hrefs, at most one link is highlighted |
| Navigation.NoSectionInView | script.js:273-290 | with no section in view, exactly the links whose href is `"#"` are highlighted |
| Navigation.ToggleMenu | script.js:26-31 | a toggle flips the button, panel and overlay flags together, and scrolling is locked iff the panel is then open; a synced menu stays synced |
| Navigation.ToggleTwice | script.js:26-31 | toggling a synced menu twice restores it |
| Navigation.LinkClicked | script.js:36-43 | after a nav-link click the panel is closed; a synced open menu becomes fully closed and a closed one is unchanged |
| Navigation.IsScrolled | script.js:22 | the bar is "scrolled" iff the scroll offset exceeds 50 |
| Navigation.Step | script.js:20-290 | a scroll event sets "scrolled" iff the offset exceeds 50, recomputes the active section from the geometry read at that scroll, and leaves the menu alone; clicks leave the scroll state alone; every event keeps the menu synced |
| Navigation.Run | script.js:20-290 | running any events keeps a synced menu synced, and without a scroll event the "scrolled" flag and active section stay as they were |
| Navigation.RunKeepsMenuSynced | script.js:26-43 | over any sequence of events, the button, panel, overlay and scroll lock stay in agreement |
| Navigation.ReachableMenuSynced | script.js:26-43 | from the initial closed menu, every reachable menu state is synced |

## Left out

- Loading the data (`loadProjects`, script.js:68-87): the fetch, JSON parsing, the `data.projects || []` default, the catch branch, and `updateProjectCount`. This is network I/O. The loaded list is an input of `Projects.Loaded`.
- `animateCounter` (script.js:97-116): it uses floating-point easing and is driven by display-refresh timing.
- `formatDate` (script.js:193-203): it is locale-dependent. A card's `dateLabel` holds the timestamp to format, and the label text is not modelled.
- Parsing `updated_at` strings with `new Date`: dates are already integer timestamps. An unparseable string makes the comparator return NaN, and that case is not modelled.
- `initScrollReveal` (script.js:47-61) and the re-registration of new cards: this is browser intersection machinery.
- `renderProjectsFallback` (script.js:214-237): it renders fixed content and has no logic.
- Event wiring, element lookups, moving the `active` class between filter and sort buttons (script.js:245-246, 259-260), and the literal HTML templates, including how field text is placed into markup.
- The grid-element guard (`if (!grid) return;`): the model assumes the grid exists.
- Numeric representation: stars, timestamps and scroll offsets are unbounded integers. The browser's fractional `scrollY` and non-integer star counts are not modelled.
- Navigation.InitialNav: assumes the markup starts with the menu closed and no "scrolled" style. The script does not set these itself. Its `current` is the script's initial `''`, and no link class is written until the first scroll event, so the page's initial link highlighting comes from the markup and is not modelled.
- Cards.RenderProjects: the cards take their class from the corrected lookup `CategoryClass`, not from `getCategoryClass` as written. For a category that is an inherited `Object.prototype` name ("constructor", "toString", …) the code puts the stringified inherited member into the class attribute and the model puts `''`; that discrepancy is the finding below, and `Cards.RenderedClassMatchesLookup` shows the two agree on every other category.
- Cards.MakeCard: the card's class comes from the corrected lookup `CategoryClass`, not from `getCategoryClass` as written, so for an inherited `Object.prototype` name ("constructor", "toString", …) the model gives `''` where the code gives the stringified inherited member; this is the finding below, and `Cards.RenderedClassMatchesLookup` shows the two agree on every other category.

## Findings

| source | as written | input that shows it | evidently intended | confidence | as-written member | corrected member |
|---|---|---|---|---|---|---|
| script.js:205-212 | `classes[category] \|\| ''` looks the category up in a plain object literal, so inherited `Object.prototype` members are found too | a project whose category is `"constructor"` (or `"toString"`, `"__proto__"`, …) gets a stringified function or object as its style class | every category other than the three known ones gets `''` | medium, not executed | Cards.CategoryClassAsWritten | Cards.CategoryClass |
