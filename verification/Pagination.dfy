/**
 * Keyset pagination: an ordered `LIMIT n + 1` query, the page built from it,
 * and the walk a caller makes by following each page's `next`.
 *
 * The database collation is not visible, so slugs are ordered by an arbitrary
 * strict total order `less`. A table is keyed by slug.
 */
module Pagination {
  import opened Wrappers
  import opened Numbers
  import opened Ordering

  type Slug = string
  type Less = (Slug, Slug) -> bool

  datatype Model = Model(family: int, summary: string)

  type Table = map<Slug, Model>

  datatype Row = Row(slug: Slug, model: Model)

  // ---------------------------------------------------------------- pages

  const DEFAULT_LIMIT := 50
  const MAX_LIMIT := 200

  type PageLimit = n: int | 1 <= n <= MAX_LIMIT witness 1
  type NonZeroU16 = n: int | 1 <= n <= U16_MAX witness 1

  function FromRequested(requested: Option<NonZeroU16>): PageLimit {
    match requested
    case None => DEFAULT_LIMIT
    case Some(n) => if n <= MAX_LIMIT then n else MAX_LIMIT
  }

  /** One row more than the page, as a saturating 16-bit sum. */
  function QuerySize(limit: PageLimit): nat { Min(limit + 1, U16_MAX) }

  datatype Page = Page(items: seq<Row>, next: Option<Slug>)

  function PageOf(rows: seq<Row>, limit: PageLimit): Page {
    if |rows| > limit then Page(rows[..limit], Some(rows[limit - 1].slug)) else Page(rows, None)
  }

  /** `Page::from_overfetched`: truncates the rows and resumes from the last kept. */
  method FromOverfetched(fetched: seq<Row>, limit: PageLimit) returns (page: Page)
    ensures page == PageOf(fetched, limit)
  {
    var rows := fetched;
    if |rows| > limit {
      rows := rows[..limit];
      var next := Some(rows[|rows| - 1].slug);
      return Page(rows, next);
    }
    page := Page(rows, None);
  }

  /** One row of lookahead: the 16-bit sum never saturates. */
  lemma OneRowOfLookahead(limit: PageLimit)
    ensures QuerySize(limit) == limit + 1
  {}

  // ---------------------------------------------------------------- query

  /** The `WHERE` clause of the list statement. */
  predicate Matches(t: Table, filter: Option<int>, slug: Slug) {
    slug in t && (filter.Some? ==> t[slug].family == filter.value)
  }

  predicate Follows(less: Less, after: Option<Slug>, slug: Slug) {
    after.Some? ==> less(after.value, slug)
  }

  function Matching(less: Less, t: Table, filter: Option<int>, after: Option<Slug>): set<Slug> {
    set slug | slug in t && Matches(t, filter, slug) && Follows(less, after, slug)
  }

  function RowsOf(t: Table, slugs: seq<Slug>): seq<Row>
    requires forall i :: 0 <= i < |slugs| ==> slugs[i] in t
  {
    seq(|slugs|, i requires 0 <= i < |slugs| => Row(slugs[i], t[slugs[i]]))
  }

  /** Every row the statement would return without its `LIMIT`. */
  ghost function Ordered(less: Less, t: Table, filter: Option<int>, after: Option<Slug>): (rows: seq<Row>)
    requires StrictTotalOrder(less)
  {
    var slugs := Sorted(less, Matching(less, t, filter, after));
    assert forall i :: 0 <= i < |slugs| ==> slugs[i] in t by {
      SortedListsTheSet(less, Matching(less, t, filter, after));
      assert forall i :: 0 <= i < |slugs| ==> slugs[i] in slugs;
    }
    RowsOf(t, slugs)
  }

  ghost function ListModels(less: Less, t: Table, filter: Option<int>, limit: PageLimit, after: Option<Slug>): Page
    requires StrictTotalOrder(less)
  {
    var rows := Ordered(less, t, filter, after);
    PageOf(if |rows| > QuerySize(limit) then rows[..QuerySize(limit)] else rows, limit)
  }

  // ----------------------------------------------------------- one page

  ghost predicate IncreasingSlugs(less: Less, rows: seq<Row>) {
    forall i, j :: 0 <= i < j < |rows| ==> less(rows[i].slug, rows[j].slug)
  }

  predicate HasSlug(rows: seq<Row>, slug: Slug) {
    exists i :: 0 <= i < |rows| && rows[i].slug == slug
  }

  predicate UpTo(less: Less, slug: Slug, bound: Option<Slug>) {
    bound.Some? ==> slug == bound.value || less(slug, bound.value)
  }

  lemma OrderedListsTheRows(less: Less, t: Table, filter: Option<int>, after: Option<Slug>)
    requires StrictTotalOrder(less)
    ensures var rows := Ordered(less, t, filter, after);
      && IncreasingSlugs(less, rows)
      && |rows| == |Matching(less, t, filter, after)|
      && (forall i :: 0 <= i < |rows| ==> rows[i].slug in Matching(less, t, filter, after) && rows[i].model == t[rows[i].slug])
      && (forall slug :: slug in Matching(less, t, filter, after) ==> HasSlug(rows, slug))
  {
    var slugs := Sorted(less, Matching(less, t, filter, after));
    SortedListsTheSet(less, Matching(less, t, filter, after));
    var rows := Ordered(less, t, filter, after);
    forall slug | slug in Matching(less, t, filter, after) ensures HasSlug(rows, slug) {
      assert slug in slugs;
      var i :| 0 <= i < |slugs| && slugs[i] == slug;
      assert rows[i].slug == slug;
    }
  }

  lemma PageIsAPrefix(less: Less, t: Table, filter: Option<int>, limit: PageLimit, after: Option<Slug>)
    requires StrictTotalOrder(less)
    ensures var rows := Ordered(less, t, filter, after);
      var page := ListModels(less, t, filter, limit, after);
      if |rows| <= limit then page == Page(rows, None)
      else page == Page(rows[..limit], Some(rows[limit - 1].slug))
  {
    var rows := Ordered(less, t, filter, after);
    if |rows| > QuerySize(limit) { assert rows[..QuerySize(limit)][..limit] == rows[..limit]; }
  }

  lemma HasSlugOfPrefix(less: Less, rows: seq<Row>, k: nat, slug: Slug)
    requires StrictTotalOrder(less) && IncreasingSlugs(less, rows) && 0 < k <= |rows|
    ensures HasSlug(rows[..k], slug) <==> HasSlug(rows, slug) && UpTo(less, slug, Some(rows[k - 1].slug))
  {
    if HasSlug(rows[..k], slug) {
      var i :| 0 <= i < k && rows[..k][i].slug == slug;
      assert rows[i].slug == slug && (i < k - 1 ==> less(rows[i].slug, rows[k - 1].slug));
    }
    if HasSlug(rows, slug) && UpTo(less, slug, Some(rows[k - 1].slug)) {
      var i :| 0 <= i < |rows| && rows[i].slug == slug;
      assert forall j :: k - 1 < j < |rows| ==> less(rows[k - 1].slug, rows[j].slug);
      assert rows[..k][i].slug == slug;
    }
  }

  /** A page holds exactly the matching rows between the key it resumed from and
      the key it hands on, and hands one on only when rows remain. */
  lemma PageIsTheNextInterval(less: Less, t: Table, filter: Option<int>, limit: PageLimit, after: Option<Slug>)
    requires StrictTotalOrder(less)
    ensures var page := ListModels(less, t, filter, limit, after);
      && IncreasingSlugs(less, page.items) && |page.items| <= limit
      && (forall i :: 0 <= i < |page.items| ==> page.items[i].slug in t && page.items[i].model == t[page.items[i].slug])
      && (forall slug :: HasSlug(page.items, slug) <==> slug in Matching(less, t, filter, after) && UpTo(less, slug, page.next))
      && (page.next.Some? ==> page.next.value in Matching(less, t, filter, after) && Matching(less, t, filter, page.next) != {})
  {
    var rows := Ordered(less, t, filter, after);
    var page := ListModels(less, t, filter, limit, after);
    OrderedListsTheRows(less, t, filter, after);
    PageIsAPrefix(less, t, filter, limit, after);
    hide ListModels, Ordered;
    forall slug ensures HasSlug(page.items, slug) <==> slug in Matching(less, t, filter, after) && UpTo(less, slug, page.next) {
      if |rows| > limit { HasSlugOfPrefix(less, rows, limit, slug); }
    }
    if page.next.Some? {
      assert less(rows[limit - 1].slug, rows[limit].slug);
      assert rows[limit].slug in Matching(less, t, filter, page.next);
    }
  }

  // ------------------------------------------------------ a walk at rest

  /** Following `next` from `after`, page `k` asked for with `requested(k)`. */
  ghost function Walk(less: Less, t: Table, filter: Option<int>, requested: nat -> Option<NonZeroU16>, k: nat, after: Option<Slug>): seq<Row>
    requires StrictTotalOrder(less)
    decreases Matching(less, t, filter, after)
  {
    var page := ListModels(less, t, filter, FromRequested(requested(k)), after);
    if page.next.None? then page.items
    else
      NextIsFurtherOn(less, t, filter, FromRequested(requested(k)), after);
      page.items + Walk(less, t, filter, requested, k + 1, page.next)
  }

  /** The measure: what follows the key a page hands on is strictly less. */
  lemma NextIsFurtherOn(less: Less, t: Table, filter: Option<int>, limit: PageLimit, after: Option<Slug>)
    requires StrictTotalOrder(less)
    requires ListModels(less, t, filter, limit, after).next.Some?
    ensures Matching(less, t, filter, ListModels(less, t, filter, limit, after).next) < Matching(less, t, filter, after)
  {
    hide ListModels;
    PageIsTheNextInterval(less, t, filter, limit, after);
    var next := ListModels(less, t, filter, limit, after).next;
    assert next.value !in Matching(less, t, filter, next);
    assert Matching(less, t, filter, next) <= Matching(less, t, filter, after);
  }

  lemma IncreasingRowsAreUnique(less: Less, t: Table, xs: seq<Row>, ys: seq<Row>)
    requires StrictTotalOrder(less) && IncreasingSlugs(less, xs) && IncreasingSlugs(less, ys)
    requires forall slug :: HasSlug(xs, slug) <==> HasSlug(ys, slug)
    requires forall i :: 0 <= i < |xs| ==> xs[i].slug in t && xs[i].model == t[xs[i].slug]
    requires forall i :: 0 <= i < |ys| ==> ys[i].slug in t && ys[i].model == t[ys[i].slug]
    ensures xs == ys
  {
    var a, b := SlugsOf(xs), SlugsOf(ys);
    forall slug ensures slug in a <==> slug in b {
      SlugsOfHas(xs, slug);
      SlugsOfHas(ys, slug);
    }
    IncreasingIsUnique(less, a, b);
    forall i | 0 <= i < |xs| ensures xs[i] == ys[i] { assert a[i] == b[i]; }
  }

  function SlugsOf(rows: seq<Row>): seq<Slug> {
    seq(|rows|, i requires 0 <= i < |rows| => rows[i].slug)
  }

  lemma SlugsOfHas(rows: seq<Row>, slug: Slug)
    ensures slug in SlugsOf(rows) <==> HasSlug(rows, slug)
  {
    if slug in SlugsOf(rows) {
      var i :| 0 <= i < |rows| && SlugsOf(rows)[i] == slug;
      assert rows[i].slug == slug;
    }
    if HasSlug(rows, slug) {
      var i :| 0 <= i < |rows| && rows[i].slug == slug;
      assert SlugsOf(rows)[i] == slug;
    }
  }

  lemma HasSlugOfSum(xs: seq<Row>, ys: seq<Row>, slug: Slug)
    ensures HasSlug(xs + ys, slug) <==> HasSlug(xs, slug) || HasSlug(ys, slug)
  {
    if HasSlug(xs, slug) {
      var i :| 0 <= i < |xs| && xs[i].slug == slug;
      assert (xs + ys)[i].slug == slug;
    }
    if HasSlug(ys, slug) {
      var i :| 0 <= i < |ys| && ys[i].slug == slug;
      assert (xs + ys)[|xs| + i].slug == slug;
    }
  }

  /** Whatever limits are asked for, a walk over a table at rest returns exactly the
      matching rows, in order, each once. */
  lemma {:induction false} WalkReturnsEveryRow(less: Less, t: Table, filter: Option<int>, requested: nat -> Option<NonZeroU16>, k: nat, after: Option<Slug>)
    requires StrictTotalOrder(less)
    ensures Walk(less, t, filter, requested, k, after) == Ordered(less, t, filter, after)
    decreases Matching(less, t, filter, after)
  {
    hide ListModels, Ordered;
    var page := ListModels(less, t, filter, FromRequested(requested(k)), after);
    var all := Ordered(less, t, filter, after);
    var walk := Walk(less, t, filter, requested, k, after);
    OrderedListsTheRows(less, t, filter, after);
    PageIsTheNextInterval(less, t, filter, FromRequested(requested(k)), after);
    if page.next.Some? {
      NextIsFurtherOn(less, t, filter, FromRequested(requested(k)), after);
      WalkReturnsEveryRow(less, t, filter, requested, k + 1, page.next);
      var rest := Ordered(less, t, filter, page.next);
      OrderedListsTheRows(less, t, filter, page.next);
      AppendAfterKey(less, page.items, rest, page.next.value);
      forall slug ensures HasSlug(walk, slug) <==> HasSlug(all, slug) { HasSlugOfSum(page.items, rest, slug); }
    }
    IncreasingRowsAreUnique(less, t, walk, all);
  }

  /** Rows up to a key, then rows after it. */
  lemma AppendAfterKey(less: Less, xs: seq<Row>, ys: seq<Row>, key: Slug)
    requires StrictTotalOrder(less) && IncreasingSlugs(less, xs) && IncreasingSlugs(less, ys)
    requires forall slug :: HasSlug(xs, slug) ==> UpTo(less, slug, Some(key))
    requires forall slug :: HasSlug(ys, slug) ==> less(key, slug)
    ensures IncreasingSlugs(less, xs + ys)
  {
    forall i, j | 0 <= i < |xs| && 0 <= j < |ys| ensures less(xs[i].slug, ys[j].slug) {
      assert HasSlug(xs, xs[i].slug) && HasSlug(ys, ys[j].slug);
    }
  }

  // ----------------------------------------- a walk over a changing table

  /** One request of a walk: the table as it was then, and the page it gave. */
  datatype Visit = Visit(table: Table, requested: Option<NonZeroU16>, after: Option<Slug>, page: Page)

  /** Each page is what its own table gave, resumed from the page before. */
  ghost predicate IsWalk(less: Less, filter: Option<int>, visits: seq<Visit>)
    requires StrictTotalOrder(less)
  {
    visits == [] ||
    var n := |visits| - 1;
    var v := visits[n];
    && IsWalk(less, filter, visits[..n])
    && v.page == ListModels(less, v.table, filter, FromRequested(v.requested), v.after)
    && (if n == 0 then v.after.None? else v.after == visits[n - 1].page.next && v.after.Some?)
  }

  predicate Finished(visits: seq<Visit>) { visits != [] && visits[|visits| - 1].page.next.None? }

  function Collected(visits: seq<Visit>): seq<Row> {
    if visits == [] then [] else Collected(visits[..|visits| - 1]) + visits[|visits| - 1].page.items
  }

  /** A row is there, in the family asked for if one is. */
  predicate IsWanted(t: Table, filter: Option<int>, slug: Slug) {
    slug in t && (filter == None || filter == Some(t[slug].family))
  }

  predicate PresentThroughout(filter: Option<int>, visits: seq<Visit>, slug: Slug) {
    forall i :: 0 <= i < |visits| ==> IsWanted(visits[i].table, filter, slug)
  }

  /** However the table changes between pages, a walk so far is in order, goes
      no further than its key, and has every lasting row up to that key. */
  lemma {:induction false} WalkSoFar(less: Less, filter: Option<int>, visits: seq<Visit>)
    requires StrictTotalOrder(less) && IsWalk(less, filter, visits) && visits != []
    ensures IncreasingSlugs(less, Collected(visits))
    ensures var key := visits[|visits| - 1].page.next;
      && (forall slug :: HasSlug(Collected(visits), slug) ==> UpTo(less, slug, key))
      && (forall slug :: PresentThroughout(filter, visits, slug) && UpTo(less, slug, key) ==> HasSlug(Collected(visits), slug))
  {
    hide ListModels;
    var n := |visits| - 1;
    var v := visits[n];
    PageIsTheNextInterval(less, v.table, filter, FromRequested(v.requested), v.after);
    var earlier := Collected(visits[..n]);
    if n > 0 {
      WalkSoFar(less, filter, visits[..n]);
      AppendAfterKey(less, earlier, v.page.items, v.after.value);
    }
    forall slug ensures HasSlug(earlier + v.page.items, slug) <==> HasSlug(earlier, slug) || HasSlug(v.page.items, slug) {
      HasSlugOfSum(earlier, v.page.items, slug);
    }
    forall slug | PresentThroughout(filter, visits, slug) && UpTo(less, slug, v.page.next) ensures HasSlug(Collected(visits), slug) {
      assert PresentThroughout(filter, visits[..n], slug) && IsWanted(v.table, filter, slug);
      if Follows(less, v.after, slug) {
        assert slug in Matching(less, v.table, filter, v.after);
      } else {
        assert UpTo(less, slug, v.after);
      }
    }
  }

  /** A finished walk returns no slug twice and every row that was there at each
      of its requests, whatever was inserted or deleted in between. */
  lemma FinishedWalkIsExact(less: Less, filter: Option<int>, visits: seq<Visit>)
    requires StrictTotalOrder(less) && IsWalk(less, filter, visits) && Finished(visits)
    ensures forall i, j :: 0 <= i < j < |Collected(visits)| ==> Collected(visits)[i].slug != Collected(visits)[j].slug
    ensures IncreasingSlugs(less, Collected(visits))
    ensures forall slug :: PresentThroughout(filter, visits, slug) ==> HasSlug(Collected(visits), slug)
  {
    WalkSoFar(less, filter, visits);
  }

  predicate WasThere(filter: Option<int>, visits: seq<Visit>, row: Row) {
    exists i :: 0 <= i < |visits| && IsWanted(visits[i].table, filter, row.slug) && visits[i].table[row.slug] == row.model
  }

  /** And nothing else: every row returned matched, as it is, at some request. */
  lemma {:induction false} CollectedRowsWereThere(less: Less, filter: Option<int>, visits: seq<Visit>, row: Row)
    requires StrictTotalOrder(less) && IsWalk(less, filter, visits) && row in Collected(visits)
    ensures WasThere(filter, visits, row)
  {
    hide ListModels;
    var n := |visits| - 1;
    var v := visits[n];
    if row in Collected(visits[..n]) {
      CollectedRowsWereThere(less, filter, visits[..n], row);
      var i :| 0 <= i < n && IsWanted(visits[..n][i].table, filter, row.slug) && visits[..n][i].table[row.slug] == row.model;
      assert visits[i] == visits[..n][i];
    } else {
      PageIsTheNextInterval(less, v.table, filter, FromRequested(v.requested), v.after);
      var i :| 0 <= i < |v.page.items| && v.page.items[i] == row;
      assert HasSlug(v.page.items, row.slug);
    }
  }
}
