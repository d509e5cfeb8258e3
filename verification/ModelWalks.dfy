/**
 * What a caller of the model list gets, said of the table alone: the rows of
 * the family asked for, or all of them, in pages of the size asked for.
 */
module ModelWalks {
  import opened Wrappers
  import opened Ordering
  import opened Pagination

  type Requests = nat -> Option<NonZeroU16>

  /** A walk from the start. */
  ghost function Listing(less: Less, t: Table, filter: Option<int>, requested: Requests): seq<Row>
    requires StrictTotalOrder(less)
  {
    Walk(less, t, filter, requested, 0, None)
  }

  lemma ListingIsOrdered(less: Less, t: Table, filter: Option<int>, requested: Requests)
    requires StrictTotalOrder(less)
    ensures var rows := Listing(less, t, filter, requested);
      && IncreasingSlugs(less, rows)
      && (forall i :: 0 <= i < |rows| ==> rows[i].slug in t && rows[i].model == t[rows[i].slug])
      && (forall slug :: HasSlug(rows, slug) <==> IsWanted(t, filter, slug))
  {
    hide Walk, Ordered;
    WalkReturnsEveryRow(less, t, filter, requested, 0, None);
    OrderedListsTheRows(less, t, filter, None);
  }

  /** With a family: its rows and no others, every one of them. */
  lemma FamilyListingIsExact(less: Less, t: Table, family: int, requested: Requests)
    requires StrictTotalOrder(less)
    ensures var rows := Listing(less, t, Some(family), requested);
      && (forall i :: 0 <= i < |rows| ==> rows[i].slug in t && rows[i].model == t[rows[i].slug] && rows[i].model.family == family)
      && (forall slug :: slug in t && t[slug].family == family ==> HasSlug(rows, slug))
  {
    hide Listing;
    ListingIsOrdered(less, t, Some(family), requested);
    var rows := Listing(less, t, Some(family), requested);
    forall i | 0 <= i < |rows| ensures rows[i].model.family == family { assert HasSlug(rows, rows[i].slug); }
  }

  /** Without one: every row of the table. */
  lemma FullListingIsExact(less: Less, t: Table, requested: Requests)
    requires StrictTotalOrder(less)
    ensures var rows := Listing(less, t, None, requested);
      && |rows| == |t|
      && (forall i :: 0 <= i < |rows| ==> rows[i].slug in t && rows[i].model == t[rows[i].slug])
      && (forall slug <- t :: HasSlug(rows, slug))
  {
    ListingIsOrdered(less, t, None, requested);
    WalkReturnsEveryRow(less, t, None, requested, 0, None);
    OrderedListsTheRows(less, t, None, None);
    assert Matching(less, t, None, None) == t.Keys;
  }

  function Restricted(rows: seq<Row>, family: int): seq<Row> {
    if rows == [] then []
    else
      var n := |rows| - 1;
      Restricted(rows[..n], family) + (if rows[n].model.family == family then [rows[n]] else [])
  }

  lemma {:induction false} RestrictedHas(rows: seq<Row>, family: int, row: Row)
    ensures row in Restricted(rows, family) <==> row in rows && row.model.family == family
  {
    if rows != [] {
      RestrictedHas(rows[..|rows| - 1], family, row);
      assert rows == rows[..|rows| - 1] + [rows[|rows| - 1]];
    }
  }

  lemma {:induction false} RestrictedIsOrdered(less: Less, rows: seq<Row>, family: int)
    requires StrictTotalOrder(less) && IncreasingSlugs(less, rows)
    ensures IncreasingSlugs(less, Restricted(rows, family))
  {
    if rows != [] {
      var n := |rows| - 1;
      var earlier := Restricted(rows[..n], family);
      RestrictedIsOrdered(less, rows[..n], family);
      forall i | 0 <= i < |earlier| ensures less(earlier[i].slug, rows[n].slug) {
        RestrictedHas(rows[..n], family, earlier[i]);
        assert earlier[i] in rows[..n];
        var k :| 0 <= k < n && rows[..n][k] == earlier[i];
        assert rows[k] == earlier[i];
      }
    }
  }

  lemma RestrictedRows(less: Less, rows: seq<Row>, family: int)
    requires StrictTotalOrder(less) && IncreasingSlugs(less, rows)
    ensures IncreasingSlugs(less, Restricted(rows, family))
    ensures forall row :: row in Restricted(rows, family) <==> row in rows && row.model.family == family
  {
    RestrictedIsOrdered(less, rows, family);
    forall row ensures row in Restricted(rows, family) <==> row in rows && row.model.family == family {
      RestrictedHas(rows, family, row);
    }
  }

  lemma HasSlugExactly(rows: seq<Row>, slug: Slug)
    ensures HasSlug(rows, slug) <==> exists row :: row in rows && row.slug == slug
  {
    if row :| row in rows && row.slug == slug {
      var i :| 0 <= i < |rows| && rows[i] == row;
    }
    if HasSlug(rows, slug) {
      var i :| 0 <= i < |rows| && rows[i].slug == slug;
      assert rows[i] in rows;
    }
  }

  /** Asking for a family is leaving the others out of the full list, whatever
      the page sizes of either walk. */
  lemma FamilyListingIsTheRestriction(less: Less, t: Table, family: int, requested: Requests, requested': Requests)
    requires StrictTotalOrder(less)
    ensures Listing(less, t, Some(family), requested) == Restricted(Listing(less, t, None, requested'), family)
  {
    hide Listing, Restricted;
    var all, some := Listing(less, t, None, requested'), Listing(less, t, Some(family), requested);
    var restricted := Restricted(all, family);
    ListingIsOrdered(less, t, None, requested');
    ListingIsOrdered(less, t, Some(family), requested);
    RestrictedRows(less, all, family);
    forall i | 0 <= i < |restricted| ensures restricted[i].slug in t && restricted[i].model == t[restricted[i].slug] {
      assert restricted[i] in restricted;
    }
    forall slug ensures HasSlug(some, slug) <==> HasSlug(restricted, slug) {
      HasSlugExactly(all, slug);
      HasSlugExactly(restricted, slug);
      if HasSlug(some, slug) {
        var row :| row in all && row.slug == slug;
        assert row in restricted;
      }
      if HasSlug(restricted, slug) {
        var row :| row in restricted && row.slug == slug;
        assert row in all;
      }
    }
    IncreasingRowsAreUnique(less, t, some, restricted);
  }

  /** A page that is not the last has exactly as many rows as were asked for,
      two hundred at most and fifty if nothing was said; the last has no more. */
  lemma PagesAreAsRequested(less: Less, t: Table, filter: Option<int>, requested: Option<NonZeroU16>, after: Option<Slug>)
    requires StrictTotalOrder(less)
    ensures var size := if requested.None? then 50 else if requested.value < 200 then requested.value else 200;
      var page := ListModels(less, t, filter, FromRequested(requested), after);
      if page.next.Some? then |page.items| == size && page.next == Some(page.items[size - 1].slug) else |page.items| <= size
  {
    PageIsAPrefix(less, t, filter, FromRequested(requested), after);
  }
}
