/** The `viewCounts` table behind `incrementViewCount` and `getViewCount`:
    one counter row per post slug, created on the first view. */
module ViewCounts {
  import opened Db

  datatype ViewCount = ViewCount(slug: string, count: nat)

  /** The `by_slug` index condition. */
  function ForSlug(slug: string): ViewCount -> bool {
    (v: ViewCount) => v.slug == slug
  }

  /** The first row for the slug is the one the lookup finds. */
  lemma FirstForSlug(rows: seq<Row<ViewCount>>, slug: string)
    ensures forall k :: 0 <= k < |rows| && rows[k].doc.slug == slug &&
                        (forall m :: 0 <= m < k ==> rows[m].doc.slug != slug) ==>
                        FirstWhere(rows, ForSlug(slug)) == Some(rows[k])
  {
    forall k | 0 <= k < |rows| && rows[k].doc.slug == slug && (forall m :: 0 <= m < k ==> rows[m].doc.slug != slug)
      ensures FirstWhere(rows, ForSlug(slug)) == Some(rows[k])
    {
      FirstWhereAt(rows, ForSlug(slug), k);
    }
  }

  /** `getViewCount`: the count of the first row for the slug, or 0. */
  function GetViewCount(rows: seq<Row<ViewCount>>, slug: string): (n: nat)
    ensures (forall i :: 0 <= i < |rows| ==> rows[i].doc.slug != slug) ==> n == 0
    ensures n > 0 ==> exists i :: 0 <= i < |rows| && rows[i].doc == ViewCount(slug, n)
    ensures forall k :: 0 <= k < |rows| && rows[k].doc.slug == slug &&
                        (forall m :: 0 <= m < k ==> rows[m].doc.slug != slug) ==>
                        n == rows[k].doc.count
  {
    FirstForSlug(rows, slug);
    match FirstWhere(rows, ForSlug(slug))
    case None => 0
    case Some(r) => r.doc.count
  }

  /** The table after `incrementViewCount(slug)`: the first row for the slug
      counts one more, or a row starting at 1 is appended. */
  function Incremented(rows: seq<Row<ViewCount>>, nextId: nat, slug: string): seq<Row<ViewCount>> {
    match FirstWhere(rows, ForSlug(slug))
    case Some(e) => Replaced(rows, e.id, ViewCount(e.doc.slug, e.doc.count + 1))
    case None => rows + [Row(nextId, ViewCount(slug, 1))]
  }

  /** `incrementViewCount`. */
  method IncrementViewCount(db: Table<ViewCount>, slug: string)
    requires db.Valid()
    modifies db
    ensures db.Valid()
    ensures db.rows == Incremented(old(db.rows), old(db.nextId), slug)
  {
    var existing := db.First(ForSlug(slug));
    if existing.Some? {
      var e := existing.value;
      var doc := ViewCount(e.doc.slug, e.doc.count + 1);
      assert Incremented(db.rows, db.nextId, slug) == Replaced(db.rows, e.id, doc);
      FirstWhereFound(db.rows, ForSlug(slug));
      db.Patch(e.id, doc);
    } else {
      assert Incremented(db.rows, db.nextId, slug) == db.rows + [Row(db.nextId, ViewCount(slug, 1))];
      var _ := db.Insert(ViewCount(slug, 1));
    }
  }

  /** Incrementing raises the slug's count by exactly one, starting from 0
      for an unseen slug, and leaves every other slug's count as it was. */
  lemma ViewCountIncrements(rows: seq<Row<ViewCount>>, nextId: nat, slug: string, other: string)
    requires WellFormed(rows, nextId)
    ensures GetViewCount(Incremented(rows, nextId, slug), other) ==
            GetViewCount(rows, other) + (if other == slug then 1 else 0)
  {
    var first := FirstWhere(rows, ForSlug(slug));
    if first.Some? {
      var e := first.value;
      var k :| 0 <= k < |rows| && rows[k] == e && ForSlug(slug)(e.doc);
      var doc := ViewCount(e.doc.slug, e.doc.count + 1);
      assert Incremented(rows, nextId, slug) == Replaced(rows, rows[k].id, doc);
      FirstWhereReplaced(rows, nextId, k, doc, ForSlug(other));
      if other == slug {
        assert FirstWhere(rows, ForSlug(other)) == Some(rows[k]);
      } else {
        assert FirstWhere(rows, ForSlug(other)) != Some(rows[k]);
      }
    } else {
      assert Incremented(rows, nextId, slug) == rows + [Row(nextId, ViewCount(slug, 1))];
      FirstWhereAppend(rows, Row(nextId, ViewCount(slug, 1)), ForSlug(other));
      if other == slug {
        assert FirstWhere(rows, ForSlug(other)).None?;
      }
    }
  }
}
