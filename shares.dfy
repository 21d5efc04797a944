/** Share counters: one row per (post slug, platform), plus a "total" row per
    post that every share also raises. */
module Shares {
  import opened Db

  datatype ShareCount = ShareCount(slug: string, platform: string, count: nat)

  const Total := "total"
  const Copy := "copy"
  const Twitter := "twitter"

  /** The `by_slug` index condition. */
  function OnPost(slug: string): ShareCount -> bool {
    (s: ShareCount) => s.slug == slug
  }

  /** The `by_slug_platform` index condition. */
  function ForKey(slug: string, platform: string): ShareCount -> bool {
    (s: ShareCount) => s.slug == slug && s.platform == platform
  }

  /** The first row for the key is the one the lookup finds. */
  lemma FirstForKey(rows: seq<Row<ShareCount>>, slug: string, platform: string)
    ensures forall k :: 0 <= k < |rows| && rows[k].doc.slug == slug && rows[k].doc.platform == platform &&
                        (forall m :: 0 <= m < k ==> rows[m].doc.slug != slug || rows[m].doc.platform != platform) ==>
                        FirstWhere(rows, ForKey(slug, platform)) == Some(rows[k])
  {
    forall k | 0 <= k < |rows| && rows[k].doc.slug == slug && rows[k].doc.platform == platform &&
               (forall m :: 0 <= m < k ==> rows[m].doc.slug != slug || rows[m].doc.platform != platform)
      ensures FirstWhere(rows, ForKey(slug, platform)) == Some(rows[k])
    {
      FirstWhereAt(rows, ForKey(slug, platform), k);
    }
  }

  /** The count an `incrementShare` step reads: the first row for the key, or 0. */
  function Count(rows: seq<Row<ShareCount>>, slug: string, platform: string): (n: nat)
    ensures (forall i :: 0 <= i < |rows| ==> rows[i].doc.slug != slug || rows[i].doc.platform != platform) ==> n == 0
    ensures n > 0 ==> exists i :: 0 <= i < |rows| && rows[i].doc == ShareCount(slug, platform, n)
    ensures forall k :: 0 <= k < |rows| && rows[k].doc.slug == slug && rows[k].doc.platform == platform &&
                        (forall m :: 0 <= m < k ==> rows[m].doc.slug != slug || rows[m].doc.platform != platform) ==>
                        n == rows[k].doc.count
  {
    FirstForKey(rows, slug, platform);
    match FirstWhere(rows, ForKey(slug, platform))
    case None => 0
    case Some(r) => r.doc.count
  }

  /** At most one row per (slug, platform). */
  ghost predicate KeysUnique(rows: seq<Row<ShareCount>>) {
    forall i, j :: 0 <= i < j < |rows| ==>
      rows[i].doc.slug != rows[j].doc.slug || rows[i].doc.platform != rows[j].doc.platform
  }

  /** One read-modify-write step of `incrementShare`: the first row for the
      key counts one more, or a row starting at 1 is appended. */
  function Bump(rows: seq<Row<ShareCount>>, nextId: nat, slug: string, platform: string): seq<Row<ShareCount>> {
    match FirstWhere(rows, ForKey(slug, platform))
    case Some(e) => Replaced(rows, e.id, ShareCount(e.doc.slug, e.doc.platform, e.doc.count + 1))
    case None => rows + [Row(nextId, ShareCount(slug, platform, 1))]
  }

  function BumpNext(rows: seq<Row<ShareCount>>, nextId: nat, slug: string, platform: string): nat {
    if FirstWhere(rows, ForKey(slug, platform)).Some? then nextId else nextId + 1
  }

  /** The table after `incrementShare(slug, platform)`: the platform's row,
      then the post's "total" row. */
  function Shared(rows: seq<Row<ShareCount>>, nextId: nat, slug: string, platform: string): seq<Row<ShareCount>> {
    Bump(Bump(rows, nextId, slug, platform), BumpNext(rows, nextId, slug, platform), slug, Total)
  }

  function SharedNext(rows: seq<Row<ShareCount>>, nextId: nat, slug: string, platform: string): nat {
    var mid := Bump(rows, nextId, slug, platform);
    BumpNext(mid, BumpNext(rows, nextId, slug, platform), slug, Total)
  }

  /** One step of `incrementShare`, on the table. */
  method BumpRow(db: Table<ShareCount>, slug: string, platform: string)
    requires db.Valid()
    modifies db
    ensures db.Valid()
    ensures db.rows == Bump(old(db.rows), old(db.nextId), slug, platform)
    ensures db.nextId == BumpNext(old(db.rows), old(db.nextId), slug, platform)
  {
    var existing := db.First(ForKey(slug, platform));
    if existing.Some? {
      var e := existing.value;
      var doc := ShareCount(e.doc.slug, e.doc.platform, e.doc.count + 1);
      assert Bump(db.rows, db.nextId, slug, platform) == Replaced(db.rows, e.id, doc);
      FirstWhereFound(db.rows, ForKey(slug, platform));
      db.Patch(e.id, doc);
    } else {
      assert Bump(db.rows, db.nextId, slug, platform) == db.rows + [Row(db.nextId, ShareCount(slug, platform, 1))];
      var _ := db.Insert(ShareCount(slug, platform, 1));
    }
  }

  /** `incrementShare`: raises the platform's count, then the total. */
  method IncrementShare(db: Table<ShareCount>, slug: string, platform: string)
    requires db.Valid()
    modifies db
    ensures db.Valid()
    ensures db.rows == Shared(old(db.rows), old(db.nextId), slug, platform)
    ensures db.nextId == SharedNext(old(db.rows), old(db.nextId), slug, platform)
  {
    BumpRow(db, slug, platform);
    BumpRow(db, slug, Total);
  }

  /** A step raises its key's count by one, from 0 for a new key, and no
      other key's count; the table stays well formed. */
  lemma BumpCounts(rows: seq<Row<ShareCount>>, nextId: nat, slug: string, platform: string, s: string, p: string)
    requires WellFormed(rows, nextId)
    ensures Count(Bump(rows, nextId, slug, platform), s, p) ==
            Count(rows, s, p) + (if s == slug && p == platform then 1 else 0)
  {
    var first := FirstWhere(rows, ForKey(slug, platform));
    if first.Some? {
      var e := first.value;
      var k :| 0 <= k < |rows| && rows[k] == e && ForKey(slug, platform)(e.doc);
      var doc := ShareCount(e.doc.slug, e.doc.platform, e.doc.count + 1);
      assert Bump(rows, nextId, slug, platform) == Replaced(rows, rows[k].id, doc);
      FirstWhereReplaced(rows, nextId, k, doc, ForKey(s, p));
      if s == slug && p == platform {
        assert FirstWhere(rows, ForKey(s, p)) == Some(rows[k]);
      } else {
        assert FirstWhere(rows, ForKey(s, p)) != Some(rows[k]);
      }
    } else {
      var x := Row(nextId, ShareCount(slug, platform, 1));
      assert Bump(rows, nextId, slug, platform) == rows + [x];
      FirstWhereAppend(rows, x, ForKey(s, p));
      if s == slug && p == platform {
        assert FirstWhere(rows, ForKey(s, p)).None?;
      }
    }
  }

  /** A step keeps ids increasing and below the next free id. */
  lemma BumpWellFormed(rows: seq<Row<ShareCount>>, nextId: nat, slug: string, platform: string)
    requires WellFormed(rows, nextId)
    ensures WellFormed(Bump(rows, nextId, slug, platform), BumpNext(rows, nextId, slug, platform))
  {
    var first := FirstWhere(rows, ForKey(slug, platform));
    var r := Bump(rows, nextId, slug, platform);
    if first.Some? {
      var e := first.value;
      assert r == Replaced(rows, e.id, ShareCount(e.doc.slug, e.doc.platform, e.doc.count + 1));
      assert forall i :: 0 <= i < |rows| ==> r[i].id == rows[i].id;
    } else {
      assert r == rows + [Row(nextId, ShareCount(slug, platform, 1))];
    }
  }

  /** `incrementShare` raises the (slug, platform) count and the slug's total
      by one each, so sharing with platform "total" raises the total by two,
      and leaves every other count as it was. */
  lemma ShareIncrements(rows: seq<Row<ShareCount>>, nextId: nat, slug: string, platform: string, s: string, p: string)
    requires WellFormed(rows, nextId)
    ensures WellFormed(Shared(rows, nextId, slug, platform), SharedNext(rows, nextId, slug, platform))
    ensures Count(Shared(rows, nextId, slug, platform), s, p) ==
            Count(rows, s, p) + (if s == slug && p == platform then 1 else 0) + (if s == slug && p == Total then 1 else 0)
  {
    BumpWellFormed(rows, nextId, slug, platform);
    BumpWellFormed(Bump(rows, nextId, slug, platform), BumpNext(rows, nextId, slug, platform), slug, Total);
    BumpCounts(rows, nextId, slug, platform, s, p);
    BumpCounts(Bump(rows, nextId, slug, platform), BumpNext(rows, nextId, slug, platform), slug, Total, s, p);
  }

  /** A step keeps one row per key. */
  lemma BumpKeysUnique(rows: seq<Row<ShareCount>>, nextId: nat, slug: string, platform: string)
    requires WellFormed(rows, nextId) && KeysUnique(rows)
    ensures KeysUnique(Bump(rows, nextId, slug, platform))
  {
    var first := FirstWhere(rows, ForKey(slug, platform));
    var r := Bump(rows, nextId, slug, platform);
    if first.Some? {
      var e := first.value;
      var k :| 0 <= k < |rows| && rows[k] == e && ForKey(slug, platform)(e.doc);
      assert r == Replaced(rows, e.id, ShareCount(e.doc.slug, e.doc.platform, e.doc.count + 1));
      assert forall i :: 0 <= i < |rows| && rows[i].id == e.id ==> i == k;
      assert forall i :: 0 <= i < |rows| ==> r[i].doc.slug == rows[i].doc.slug && r[i].doc.platform == rows[i].doc.platform;
    } else {
      assert r == rows + [Row(nextId, ShareCount(slug, platform, 1))];
      assert forall i :: 0 <= i < |rows| ==> !ForKey(slug, platform)(rows[i].doc);
    }
  }

  /** `incrementShare` keeps one row per key. */
  lemma ShareKeysUnique(rows: seq<Row<ShareCount>>, nextId: nat, slug: string, platform: string)
    requires WellFormed(rows, nextId) && KeysUnique(rows)
    ensures KeysUnique(Shared(rows, nextId, slug, platform))
  {
    BumpWellFormed(rows, nextId, slug, platform);
    BumpKeysUnique(rows, nextId, slug, platform);
    BumpKeysUnique(Bump(rows, nextId, slug, platform), BumpNext(rows, nextId, slug, platform), slug, Total);
  }

  /** What a row adds to the post's per-platform sum. */
  function Part(d: ShareCount, slug: string): nat {
    if d.slug == slug && d.platform != Total then d.count else 0
  }

  /** The sum of the post's counts on every platform other than "total". */
  function PlatformSum(rows: seq<Row<ShareCount>>, slug: string): nat {
    if rows == [] then 0 else Part(rows[0].doc, slug) + PlatformSum(rows[1..], slug)
  }

  lemma {:induction false} PlatformSumSnoc(rows: seq<Row<ShareCount>>, x: Row<ShareCount>, slug: string)
    ensures PlatformSum(rows + [x], slug) == PlatformSum(rows, slug) + Part(x.doc, slug)
  {
    if rows != [] {
      assert (rows + [x])[1..] == rows[1..] + [x];
      PlatformSumSnoc(rows[1..], x, slug);
    }
  }

  lemma {:induction false} PlatformSumReplaced(rows: seq<Row<ShareCount>>, nextId: nat, k: nat, doc: ShareCount, slug: string)
    requires WellFormed(rows, nextId) && k < |rows|
    ensures PlatformSum(Replaced(rows, rows[k].id, doc), slug) ==
            PlatformSum(rows, slug) - Part(rows[k].doc, slug) + Part(doc, slug)
  {
    var id := rows[k].id;
    var r := Replaced(rows, id, doc);
    if k == 0 {
      assert r[1..] == rows[1..] by {
        forall i | 0 <= i < |rows[1..]| ensures r[1..][i] == rows[1..][i] {
          assert rows[i + 1].id != id;
        }
      }
    } else {
      assert rows[0].id != id;
      TailWellFormed(rows, nextId);
      assert rows[1..][k - 1] == rows[k];
      assert r[1..] == Replaced(rows[1..], id, doc);
      PlatformSumReplaced(rows[1..], nextId, k - 1, doc, slug);
    }
  }

  /** A step on a key of the post other than "total" raises the post's
      platform sum by one; a step on any other key leaves it. */
  lemma BumpPlatformSum(rows: seq<Row<ShareCount>>, nextId: nat, slug: string, platform: string, s: string)
    requires WellFormed(rows, nextId)
    ensures PlatformSum(Bump(rows, nextId, slug, platform), s) ==
            PlatformSum(rows, s) + (if s == slug && platform != Total then 1 else 0)
  {
    var first := FirstWhere(rows, ForKey(slug, platform));
    if first.Some? {
      var e := first.value;
      var k :| 0 <= k < |rows| && rows[k] == e && ForKey(slug, platform)(e.doc);
      var doc := ShareCount(e.doc.slug, e.doc.platform, e.doc.count + 1);
      assert Bump(rows, nextId, slug, platform) == Replaced(rows, rows[k].id, doc);
      PlatformSumReplaced(rows, nextId, k, doc, s);
    } else {
      var x := Row(nextId, ShareCount(slug, platform, 1));
      assert Bump(rows, nextId, slug, platform) == rows + [x];
      PlatformSumSnoc(rows, x, s);
    }
  }

  /** As long as nobody shares with platform "total", a post's total equals
      the sum of its other platform counts: `incrementShare` keeps that
      balance, and an empty table has it. */
  lemma ShareKeepsTotal(rows: seq<Row<ShareCount>>, nextId: nat, slug: string, platform: string, s: string)
    requires WellFormed(rows, nextId) && platform != Total
    requires Count(rows, s, Total) == PlatformSum(rows, s)
    ensures Count(Shared(rows, nextId, slug, platform), s, Total) == PlatformSum(Shared(rows, nextId, slug, platform), s)
  {
    var mid := Bump(rows, nextId, slug, platform);
    var midNext := BumpNext(rows, nextId, slug, platform);
    assert Shared(rows, nextId, slug, platform) == Bump(mid, midNext, slug, Total);
    BumpWellFormed(rows, nextId, slug, platform);
    BumpCounts(rows, nextId, slug, platform, s, Total);
    BumpCounts(mid, midNext, slug, Total, s, Total);
    BumpPlatformSum(rows, nextId, slug, platform, s);
    BumpPlatformSum(mid, midNext, slug, Total, s);
  }

  /** The result of `getShareCounts`. */
  datatype Summary = Summary(total: nat, copy: nat, twitter: nat)

  /** The count of the last row for the platform, or 0: the value the loop of
      `getShareCounts` leaves in a field after overwriting it row by row. */
  function LastCount(rows: seq<Row<ShareCount>>, platform: string): nat {
    if rows == [] then 0
    else if rows[|rows| - 1].doc.platform == platform then rows[|rows| - 1].doc.count
    else LastCount(rows[..|rows| - 1], platform)
  }

  /** The field is 0 when no row is for the platform, and otherwise the count
      of a row for it that no later row for it follows. */
  lemma {:induction false} LastCountIsLast(rows: seq<Row<ShareCount>>, platform: string)
    ensures (forall i :: 0 <= i < |rows| ==> rows[i].doc.platform != platform) ==> LastCount(rows, platform) == 0
    ensures (exists i :: 0 <= i < |rows| && rows[i].doc.platform == platform) ==>
              exists i :: 0 <= i < |rows| && rows[i].doc.platform == platform && rows[i].doc.count == LastCount(rows, platform) &&
                          forall j :: i < j < |rows| ==> rows[j].doc.platform != platform
  {
    if rows != [] && rows[|rows| - 1].doc.platform != platform {
      var front := rows[..|rows| - 1];
      LastCountIsLast(front, platform);
      assert forall i :: 0 <= i < |front| ==> front[i] == rows[i];
    }
  }

  /** One more row overwrites the field when it is for the platform. */
  lemma LastCountSnoc(rows: seq<Row<ShareCount>>, x: Row<ShareCount>, platform: string)
    ensures LastCount(rows + [x], platform) == if x.doc.platform == platform then x.doc.count else LastCount(rows, platform)
  {
    assert (rows + [x])[..|rows|] == rows;
  }

  /** `getShareCounts`: the post's rows in table order, each "total", "copy"
      or "twitter" row overwriting its field; rows for other platforms are
      ignored and a field without a row stays 0. */
  method GetShareCounts(rows: seq<Row<ShareCount>>, slug: string) returns (r: Summary)
    ensures r == Summary(LastCount(Where(rows, OnPost(slug)), Total),
                         LastCount(Where(rows, OnPost(slug)), Copy),
                         LastCount(Where(rows, OnPost(slug)), Twitter))
  {
    var counts := Where(rows, OnPost(slug));
    assert Total != Copy && Total != Twitter && Copy != Twitter by {
      assert |Total| == 5 && |Copy| == 4 && |Twitter| == 7;
    }
    r := Summary(0, 0, 0);
    var i := 0;
    while i < |counts|
      invariant 0 <= i <= |counts|
      invariant r == Summary(LastCount(counts[..i], Total), LastCount(counts[..i], Copy), LastCount(counts[..i], Twitter))
    {
      var count := counts[i].doc;
      assert counts[..i + 1] == counts[..i] + [counts[i]];
      LastCountSnoc(counts[..i], counts[i], Total);
      LastCountSnoc(counts[..i], counts[i], Copy);
      LastCountSnoc(counts[..i], counts[i], Twitter);
      if count.platform == Total { r := r.(total := count.count); }
      if count.platform == Copy { r := r.(copy := count.count); }
      if count.platform == Twitter { r := r.(twitter := count.count); }
      i := i + 1;
    }
    assert counts[..i] == counts;
  }

  /** With one row per key, `getShareCounts` reports for each platform the
      count `incrementShare` reads and raises. */
  lemma ShareCountsAgree(rows: seq<Row<ShareCount>>, nextId: nat, slug: string, platform: string)
    requires WellFormed(rows, nextId) && KeysUnique(rows)
    ensures LastCount(Where(rows, OnPost(slug)), platform) == Count(rows, slug, platform)
  {
    var first := FirstWhere(rows, ForKey(slug, platform));
    if first.None? {
      AgreeAbsent(rows, slug, platform);
    } else {
      var k :| 0 <= k < |rows| && rows[k] == first.value && ForKey(slug, platform)(rows[k].doc);
      AgreePresent(rows, slug, platform, k);
    }
  }

  lemma AgreeAbsent(rows: seq<Row<ShareCount>>, slug: string, platform: string)
    requires FirstWhere(rows, ForKey(slug, platform)).None?
    ensures LastCount(Where(rows, OnPost(slug)), platform) == 0
  {
    var found := Where(rows, OnPost(slug));
    WhereMembers(rows, OnPost(slug));
    LastCountIsLast(found, platform);
    forall i | 0 <= i < |found| ensures found[i].doc.platform != platform {
      var k :| 0 <= k < |rows| && rows[k] == found[i];
      assert !ForKey(slug, platform)(rows[k].doc);
    }
  }

  lemma AgreePresent(rows: seq<Row<ShareCount>>, slug: string, platform: string, k: nat)
    requires KeysUnique(rows) && k < |rows| && rows[k].doc.slug == slug && rows[k].doc.platform == platform
    ensures LastCount(Where(rows, OnPost(slug)), platform) == rows[k].doc.count
  {
    var found := Where(rows, OnPost(slug));
    WhereMembers(rows, OnPost(slug));
    OnlyRowForKey(rows, slug, platform, k);
    LastCountIsLast(found, platform);
    assert OnPost(slug)(rows[k].doc);
    var i0 :| 0 <= i0 < |found| && found[i0] == rows[k];
    assert found[i0].doc.platform == platform;
  }

  /** Every row of the post's scan on the platform is the key's one row. */
  lemma OnlyRowForKey(rows: seq<Row<ShareCount>>, slug: string, platform: string, k: nat)
    requires KeysUnique(rows) && k < |rows| && rows[k].doc.slug == slug && rows[k].doc.platform == platform
    ensures forall j :: 0 <= j < |Where(rows, OnPost(slug))| && Where(rows, OnPost(slug))[j].doc.platform == platform ==>
              Where(rows, OnPost(slug))[j] == rows[k]
  {
    var found := Where(rows, OnPost(slug));
    WhereMembers(rows, OnPost(slug));
    forall j | 0 <= j < |found| && found[j].doc.platform == platform ensures found[j] == rows[k] {
      var m :| 0 <= m < |rows| && rows[m] == found[j];
      assert rows[m].doc.slug == slug;
      if m < k {
        assert false;
      } else if m > k {
        assert false;
      }
    }
  }
}
