/**
 The project list behind the portfolio's project grid: the project record, the
 category filter, the two sort orders and the selection state whose derived
 list the grid shows (`filterProjects`, `sortProjects` and
 `renderFilteredSorted` in script.js).
 */
module Projects {
  import opened Wrappers
  import opened StableSort

  /**
   One entry of the `projects` array of the data file. `updatedAt` is the
   `updated_at` date as a millisecond timestamp; `None` stands for an absent
   (or empty, hence falsy) date.
   */
  datatype Project = Project(
    title: string,
    shortDescription: string,
    category: string,
    technologies: seq<string>,
    repoUrl: string,
    stars: int,
    updatedAt: Option<int>)

  /** The filter selector that keeps every project. */
  const AllFilter: string := "all"
  /** The sort key for most recently updated first. */
  const RecentSort: string := "recent"
  /** The sort key for most starred first. */
  const StarsSort: string := "stars"

  /** Sort key of the `"stars"` order. */
  function Stars(p: Project): (s: int)
    ensures s == p.stars
  {
    p.stars
  }

  /** Sort key of the `"recent"` order: `updated_at || 0`, so a missing date counts as the epoch. */
  function Timestamp(p: Project): (t: int)
    ensures p.updatedAt.None? ==> t == 0
    ensures p.updatedAt.Some? ==> t == p.updatedAt.value
  {
    p.updatedAt.GetOr(0)
  }

  /** The `'recent'` comparator, `dateB - dateA`. */
  function RecentComparator(a: Project, b: Project): int {
    Timestamp(b) - Timestamp(a)
  }

  /** The `'stars'` comparator, `b.stars - a.stars`. */
  function StarsComparator(a: Project, b: Project): int {
    b.stars - a.stars
  }

  /**
   Both comparators put `a` first exactly when its key is larger and report a
   tie exactly when the keys are equal: they order by the key, descending.
   */
  lemma ComparatorsOrderByKey(a: Project, b: Project)
    ensures RecentComparator(a, b) < 0 <==> Timestamp(a) > Timestamp(b)
    ensures RecentComparator(a, b) == 0 <==> Timestamp(a) == Timestamp(b)
    ensures StarsComparator(a, b) < 0 <==> Stars(a) > Stars(b)
    ensures StarsComparator(a, b) == 0 <==> Stars(a) == Stars(b)
  {
  }

  /** `p` passes the filter `filter`. */
  predicate Matches(p: Project, filter: string) {
    filter == AllFilter || p.category == filter
  }

  /** `a` can be obtained from `b` by deleting elements: it keeps `b`'s order. */
  ghost predicate SubsequenceOf<T>(a: seq<T>, b: seq<T>)
    decreases |b|
  {
    |a| == 0 ||
    (|b| > 0 && ((a[0] == b[0] && SubsequenceOf(a[1..], b[1..])) || SubsequenceOf(a, b[1..])))
  }

  lemma {:induction false} SubsequenceOfSelf<T>(a: seq<T>)
    ensures SubsequenceOf(a, a)
  {
    if |a| > 0 {
      SubsequenceOfSelf(a[1..]);
    }
  }

  /** The projects of category `category`, in input order (`projects.filter(...)`). */
  function OfCategory(ps: seq<Project>, category: string): (r: seq<Project>)
    ensures forall p | p in r :: p in ps && p.category == category
    ensures SubsequenceOf(r, ps)
  {
    if |ps| == 0 then []
    else
      var rest := OfCategory(ps[1..], category);
      assert ps == [ps[0]] + ps[1..];
      if ps[0].category == category then
        var r := [ps[0]] + rest;
        assert r[1..] == rest;
        r
      else rest
  }

  /**
   `filterProjects`: every project for `"all"`, otherwise exactly the projects
   whose category is the selector, each as often as in the input, in input order.
   */
  function FilterProjects(ps: seq<Project>, filter: string): (r: seq<Project>)
    ensures filter == AllFilter ==> r == ps
    ensures forall p | p in r :: Matches(p, filter)
    ensures forall p :: multiset(r)[p] == if Matches(p, filter) then multiset(ps)[p] else 0
    ensures SubsequenceOf(r, ps)
  {
    if filter == AllFilter then
      SubsequenceOfSelf(ps);
      ps
    else
      OfCategoryCounts(ps, filter);
      OfCategory(ps, filter)
  }

  /** `OfCategory` keeps every project of the category as often as the input has it, and no other. */
  lemma {:induction false} OfCategoryCounts(ps: seq<Project>, category: string)
    ensures forall p :: multiset(OfCategory(ps, category))[p] == if p.category == category then multiset(ps)[p] else 0
  {
    if |ps| > 0 {
      OfCategoryCounts(ps[1..], category);
      assert ps == [ps[0]] + ps[1..];
      if ps[0].category == category {
        assert OfCategory(ps, category) == [ps[0]] + OfCategory(ps[1..], category);
      }
    }
  }

  /** Filtering a concatenation filters each part: the filter never reorders. */
  lemma {:induction false} FilterAppend(a: seq<Project>, b: seq<Project>, filter: string)
    ensures FilterProjects(a + b, filter) == FilterProjects(a, filter) + FilterProjects(b, filter)
  {
    if filter != AllFilter {
      OfCategoryAppend(a, b, filter);
    }
  }

  lemma {:induction false} OfCategoryAppend(a: seq<Project>, b: seq<Project>, category: string)
    ensures OfCategory(a + b, category) == OfCategory(a, category) + OfCategory(b, category)
  {
    if |a| > 0 {
      assert (a + b)[1..] == a[1..] + b;
      OfCategoryAppend(a[1..], b, category);
    } else {
      assert a + b == b;
    }
  }

  /** Filtering twice by the same selector is filtering once. */
  lemma {:induction false} FilterIdempotent(ps: seq<Project>, filter: string)
    ensures FilterProjects(FilterProjects(ps, filter), filter) == FilterProjects(ps, filter)
  {
    if filter != AllFilter {
      OfCategoryIdempotent(ps, filter);
    }
  }

  lemma {:induction false} OfCategoryIdempotent(ps: seq<Project>, category: string)
    ensures OfCategory(OfCategory(ps, category), category) == OfCategory(ps, category)
  {
    if |ps| > 0 {
      OfCategoryIdempotent(ps[1..], category);
      if ps[0].category == category {
        var r := OfCategory(ps, category);
        assert r[1..] == OfCategory(ps[1..], category);
      }
    }
  }

  /**
   `sortProjects`: a fresh copy of the list, most recently updated first for
   `"recent"`, most starred first for `"stars"`, ties in input order, and the
   input order unchanged for any other key.
   */
  function SortProjects(ps: seq<Project>, sortBy: string): (r: seq<Project>)
    ensures multiset(r) == multiset(ps)
    ensures sortBy == RecentSort ==> SortedDesc(r, Timestamp) && StableWrt(r, ps, Timestamp)
    ensures sortBy == StarsSort ==> SortedDesc(r, Stars) && StableWrt(r, ps, Stars)
    ensures sortBy != RecentSort && sortBy != StarsSort ==> r == ps
  {
    if sortBy == RecentSort then Sort(ps, Timestamp)
    else if sortBy == StarsSort then Sort(ps, Stars)
    else ps
  }

  /**
   The result of `SortProjects` is the only arrangement with those properties,
   so any stable sort with the same comparator yields it.
   */
  lemma SortProjectsUnique(ps: seq<Project>, sortBy: string, r: seq<Project>)
    requires sortBy == RecentSort ==> SortedDesc(r, Timestamp) && StableWrt(r, ps, Timestamp)
    requires sortBy == StarsSort ==> SortedDesc(r, Stars) && StableWrt(r, ps, Stars)
    requires sortBy != RecentSort && sortBy != StarsSort ==> r == ps
    ensures r == SortProjects(ps, sortBy)
  {
    if sortBy == RecentSort {
      SortIsTheStableSort(ps, r, Timestamp);
    } else if sortBy == StarsSort {
      SortIsTheStableSort(ps, r, Stars);
    }
  }

  /** Selecting one key value and filtering one category can be done in either order. */
  lemma {:induction false} OfCategorySelect(xs: seq<Project>, category: string, key: Project -> int, k: int)
    ensures Select(OfCategory(xs, category), key, k) == OfCategory(Select(xs, key, k), category)
  {
    if |xs| > 0 {
      OfCategorySelect(xs[1..], category, key, k);
      var f := OfCategory(xs, category);
      if xs[0].category == category {
        assert f[1..] == OfCategory(xs[1..], category);
      }
      if key(xs[0]) == k {
        var s := Select(xs, key, k);
        assert s[1..] == Select(xs[1..], key, k);
      }
    }
  }

  /** Keeping only one category of a sorted list leaves it sorted. */
  lemma {:induction false} OfCategorySorted(xs: seq<Project>, category: string, key: Project -> int)
    requires SortedDesc(xs, key)
    ensures SortedDesc(OfCategory(xs, category), key)
  {
    if |xs| > 0 {
      assert SortedDesc(xs[1..], key);
      OfCategorySorted(xs[1..], category, key);
      var r := OfCategory(xs, category);
      if xs[0].category == category {
        var rest := OfCategory(xs[1..], category);
        assert r[1..] == rest;
        forall j | 0 < j < |r| ensures key(r[0]) >= key(r[j]) {
          assert r[j] in rest;
        }
      }
    }
  }

  /** For a keyed stable sort, sorting then filtering is filtering then sorting. */
  lemma SortOfCategoryCommute(xs: seq<Project>, category: string, key: Project -> int)
    ensures OfCategory(Sort(xs, key), category) == Sort(OfCategory(xs, category), key)
  {
    var s := Sort(xs, key);
    var a := OfCategory(s, category);
    var fx := OfCategory(xs, category);
    OfCategorySorted(s, category, key);
    forall k ensures Select(a, key, k) == Select(fx, key, k) {
      OfCategorySelect(s, category, key, k);
      OfCategorySelect(xs, category, key, k);
    }
    SortIsTheStableSort(fx, a, key);
  }

  /**
   The order of derivation does not matter: sorting the whole list and then
   filtering it gives the list `renderFilteredSorted` derives.
   */
  lemma FilterSortCommute(ps: seq<Project>, filter: string, sortBy: string)
    ensures FilterProjects(SortProjects(ps, sortBy), filter) == SortProjects(FilterProjects(ps, filter), sortBy)
  {
    if filter != AllFilter {
      if sortBy == RecentSort {
        SortOfCategoryCommute(ps, filter, Timestamp);
      } else if sortBy == StarsSort {
        SortOfCategoryCommute(ps, filter, Stars);
      }
    }
  }

  /** The page's project state: the loaded list and the current filter and sort selection. */
  datatype Store = Store(allProjects: seq<Project>, currentFilter: string, currentSort: string)

  /** The state right after the data file has loaded: all categories, most recent first. */
  function Loaded(ps: seq<Project>): (st: Store)
    ensures st.allProjects == ps
    ensures st.currentFilter == AllFilter && st.currentSort == RecentSort
  {
    Store(ps, AllFilter, RecentSort)
  }

  /** A click on a filter control. */
  function ChooseFilter(st: Store, filter: string): (r: Store)
    ensures r.currentFilter == filter
    ensures r.allProjects == st.allProjects && r.currentSort == st.currentSort
  {
    st.(currentFilter := filter)
  }

  /** A click on a sort control. */
  function ChooseSort(st: Store, sortBy: string): (r: Store)
    ensures r.currentSort == sortBy
    ensures r.allProjects == st.allProjects && r.currentFilter == st.currentFilter
  {
    st.(currentSort := sortBy)
  }

  /**
   `renderFilteredSorted`'s derived list: exactly the matching projects, each
   as often as in the loaded list, ordered by the current sort key.
   */
  function Visible(st: Store): (r: seq<Project>)
    ensures forall p :: multiset(r)[p] == if Matches(p, st.currentFilter) then multiset(st.allProjects)[p] else 0
    ensures forall p | p in r :: p in st.allProjects && Matches(p, st.currentFilter)
    ensures st.currentSort == RecentSort ==> SortedDesc(r, Timestamp)
    ensures st.currentSort == StarsSort ==> SortedDesc(r, Stars)
    ensures st.currentSort != RecentSort && st.currentSort != StarsSort ==> SubsequenceOf(r, st.allProjects)
  {
    var filtered := FilterProjects(st.allProjects, st.currentFilter);
    var r := SortProjects(filtered, st.currentSort);
    assert forall p | p in r :: p in filtered by {
      forall p | p in r ensures p in filtered {
        assert multiset(r)[p] > 0;
      }
    }
    r
  }

  /** Within one key value, the derived list keeps the loaded list's order. */
  lemma VisibleStable(st: Store, key: Project -> int, k: int)
    requires st.currentSort == RecentSort || st.currentSort == StarsSort
    requires key == (if st.currentSort == RecentSort then Timestamp else Stars)
    ensures Select(Visible(st), key, k) == Select(FilterProjects(st.allProjects, st.currentFilter), key, k)
  {
  }

  /** Just after loading, every project is shown, most recently updated first. */
  lemma LoadedShowsAllByRecency(ps: seq<Project>)
    ensures multiset(Visible(Loaded(ps))) == multiset(ps)
    ensures Visible(Loaded(ps)) == Sort(ps, Timestamp)
  {
  }

  /** Changing the sort never changes which projects are shown. */
  lemma ChooseSortKeepsContents(st: Store, sortBy: string)
    ensures multiset(Visible(ChooseSort(st, sortBy))) == multiset(Visible(st))
  {
  }

  /** Changing the filter keeps the current sort key in force. */
  lemma ChooseFilterKeepsOrder(st: Store, filter: string)
    ensures Visible(ChooseFilter(st, filter)) == FilterProjects(SortProjects(st.allProjects, st.currentSort), filter)
  {
    FilterSortCommute(st.allProjects, filter, st.currentSort);
  }

  /**
   Two "Web" projects: A with 3 stars updated 2024-01-01, B with 10 stars
   updated 2023-01-01. By stars B comes first, by recency A does.
   */
  lemma TwoWebProjects(a: Project, b: Project)
    requires a.category == "Web" && b.category == "Web"
    requires a.stars == 3 && a.updatedAt == Some(1704067200000)
    requires b.stars == 10 && b.updatedAt == Some(1672531200000)
    ensures SortProjects(FilterProjects([a, b], "Web"), StarsSort) == [b, a]
    ensures SortProjects(FilterProjects([a, b], "Web"), RecentSort) == [a, b]
  {
    assert [a, b][1..] == [b];
    assert [b][1..] == [];
    assert OfCategory([b], "Web") == [b];
    assert FilterProjects([a, b], "Web") == [a, b];
  }

  /**
   A missing date counts as the epoch, not as the oldest date: a project dated
   before 1970 sorts after an undated one.
   */
  lemma UndatedSortsAbovePreEpoch(dated: Project, undated: Project)
    requires dated.updatedAt.Some? && dated.updatedAt.value < 0
    requires undated.updatedAt.None?
    ensures SortProjects([dated, undated], RecentSort) == [undated, dated]
  {
    assert [dated, undated][1..] == [undated];
  }
}
