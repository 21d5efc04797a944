/** `syncPosts` and `syncPostsPublic`: the full-replace reconciliation the
    build script runs. Every incoming post is upserted by slug against a
    snapshot of the table taken before the call, and afterwards every row of
    that snapshot whose slug is not incoming is deleted. */
module PostSync {
  import opened Db
  import opened Posts

  /** `new Set(args.posts.map((p) => p.slug))`. */
  function IncomingSlugs(posts: seq<PostInput>): set<string> {
    set i | 0 <= i < |posts| :: posts[i].slug
  }

  /** The slugs stored in a table. */
  function StoredSlugs(rows: seq<Row<Post>>): set<string> {
    set i | 0 <= i < |rows| :: rows[i].doc.slug
  }

  /** `new Map(existingPosts.map((p) => [p.slug, p]))`: built front to back,
      so of several rows with one slug the last one wins. */
  function BySlug(rows: seq<Row<Post>>): map<string, Row<Post>> {
    if rows == [] then map[]
    else BySlug(rows[..|rows| - 1])[rows[|rows| - 1].doc.slug := rows[|rows| - 1]]
  }

  /** The map holds one entry per stored slug, and that entry is a stored row
      with that slug. */
  lemma {:induction false} BySlugEntries(rows: seq<Row<Post>>)
    ensures BySlug(rows).Keys == StoredSlugs(rows)
    ensures forall s :: s in BySlug(rows) ==>
              BySlug(rows)[s].doc.slug == s &&
              exists k :: 0 <= k < |rows| && rows[k] == BySlug(rows)[s]
  {
    if rows != [] {
      var init := rows[..|rows| - 1];
      BySlugEntries(init);
      assert StoredSlugs(rows) == StoredSlugs(init) + {rows[|rows| - 1].doc.slug} by {
        forall s ensures s in StoredSlugs(rows) <==> s in StoredSlugs(init) + {rows[|rows| - 1].doc.slug} {
          if s in StoredSlugs(rows) {
            var k :| 0 <= k < |rows| && rows[k].doc.slug == s;
            if k < |rows| - 1 { assert init[k] == rows[k]; }
          }
          if s in StoredSlugs(init) {
            var k :| 0 <= k < |init| && init[k].doc.slug == s;
            assert rows[k] == init[k];
          }
        }
      }
      forall s | s in BySlug(rows) ensures exists k :: 0 <= k < |rows| && rows[k] == BySlug(rows)[s] {
        if s != rows[|rows| - 1].doc.slug {
          var k :| 0 <= k < |init| && init[k] == BySlug(init)[s];
          assert rows[k] == init[k];
        }
      }
    }
  }

  /** With distinct stored slugs, every stored row is the map's entry for its slug. */
  lemma BySlugUnique(rows: seq<Row<Post>>, k: nat)
    requires SlugsUnique(rows) && k < |rows|
    ensures rows[k].doc.slug in BySlug(rows) && BySlug(rows)[rows[k].doc.slug] == rows[k]
  {
    BySlugEntries(rows);
    var s := rows[k].doc.slug;
    var j :| 0 <= j < |rows| && rows[j] == BySlug(rows)[s];
  }

  /** The last incoming post with slug `s`: the one whose patch is applied last. */
  function LastWith(posts: seq<PostInput>, s: string): (r: Option<PostInput>)
    ensures r.Some? ==> r.value.slug == s
  {
    if posts == [] then None
    else if posts[|posts| - 1].slug == s then Some(posts[|posts| - 1])
    else LastWith(posts[..|posts| - 1], s)
  }

  lemma {:induction false} IncomingSnoc(posts: seq<PostInput>)
    requires posts != []
    ensures IncomingSlugs(posts) == IncomingSlugs(posts[..|posts| - 1]) + {posts[|posts| - 1].slug}
  {
    var init := posts[..|posts| - 1];
    assert forall i :: 0 <= i < |init| ==> init[i] == posts[i];
    assert forall s :: s in IncomingSlugs(posts) ==> s in IncomingSlugs(init) + {posts[|posts| - 1].slug};
  }

  /** Some incoming post has slug `s` exactly when `LastWith` finds one. */
  lemma {:induction false} LastWithFound(posts: seq<PostInput>, s: string)
    ensures LastWith(posts, s).Some? <==> s in IncomingSlugs(posts)
  {
    if posts != [] {
      IncomingSnoc(posts);
      LastWithFound(posts[..|posts| - 1], s);
    }
  }

  /** `LastWith` finds an incoming post with slug `s` that no later one shares. */
  lemma {:induction false} LastWithIsLast(posts: seq<PostInput>, s: string)
    requires LastWith(posts, s).Some?
    ensures exists i :: 0 <= i < |posts| && posts[i] == LastWith(posts, s).value &&
                        forall j :: i < j < |posts| ==> posts[j].slug != s
  {
    var n := |posts| - 1;
    if posts[n].slug != s {
      var init := posts[..n];
      LastWithIsLast(init, s);
      var i :| 0 <= i < |init| && init[i] == LastWith(init, s).value &&
               forall j :: i < j < |init| ==> init[j].slug != s;
      assert posts[i] == init[i];
      forall j | i < j < |posts| ensures posts[j].slug != s {
        if j < n { assert posts[j] == init[j]; }
      }
    }
  }

  /** `existing` is the map's entry for its slug, so the loop patches this row. */
  predicate IsEntry(m: map<string, Row<Post>>, r: Row<Post>) {
    r.doc.slug in m && m[r.doc.slug].id == r.id
  }

  /** A snapshot row after the upsert loop has seen `posts`: the map's entry for
      an incoming slug carries the last incoming post with that slug. */
  function Refresh(r: Row<Post>, m: map<string, Row<Post>>, posts: seq<PostInput>, now: int): Row<Post> {
    if IsEntry(m, r) && LastWith(posts, r.doc.slug).Some? then
      Row(r.id, FromInput(LastWith(posts, r.doc.slug).value, now))
    else r
  }

  function Refreshed(rows: seq<Row<Post>>, m: map<string, Row<Post>>, posts: seq<PostInput>, now: int): (r: seq<Row<Post>>)
    ensures |r| == |rows|
    ensures forall k :: 0 <= k < |rows| ==> r[k].id == rows[k].id && r[k].doc.slug == rows[k].doc.slug
  {
    seq(|rows|, k requires 0 <= k < |rows| => Refresh(rows[k], m, posts, now))
  }

  /** Before the upsert loop has seen any post, the snapshot is unchanged. */
  lemma RefreshedNothing(rows: seq<Row<Post>>, m: map<string, Row<Post>>, now: int)
    ensures Refreshed(rows, m, [], now) == rows
  {
  }

  /** The rows the upsert loop inserts: one per incoming post whose slug the
      map lacks, under consecutive ids starting at `nextId`. */
  function Created(posts: seq<PostInput>, m: map<string, Row<Post>>, now: int, nextId: nat): (r: seq<Row<Post>>)
    ensures |r| <= |posts|
  {
    if posts == [] then []
    else
      var c := Created(posts[..|posts| - 1], m, now, nextId);
      var last := posts[|posts| - 1];
      c + (if last.slug in m then [] else [Row(nextId + |c|, FromInput(last, now))])
  }

  lemma {:induction false} CreatedIds(posts: seq<PostInput>, m: map<string, Row<Post>>, now: int, nextId: nat)
    ensures forall i :: 0 <= i < |Created(posts, m, now, nextId)| ==> Created(posts, m, now, nextId)[i].id == nextId + i
  {
    if posts != [] {
      var n := |posts| - 1;
      var init := posts[..n];
      CreatedIds(init, m, now, nextId);
      var ci := Created(init, m, now, nextId);
      var c := Created(posts, m, now, nextId);
      assert c == ci + (if posts[n].slug in m then [] else [Row(nextId + |ci|, FromInput(posts[n], now))]);
      forall i | 0 <= i < |c| ensures c[i].id == nextId + i {
        if i < |ci| {
          assert c[i] == ci[i];
          assert ci[i].id == nextId + i;
        } else {
          assert i == |ci|;
        }
      }
    }
  }

  /** Every created row holds an incoming post whose slug the map lacks. */
  lemma {:induction false} CreatedSound(posts: seq<PostInput>, m: map<string, Row<Post>>, now: int, nextId: nat)
    ensures forall i :: 0 <= i < |Created(posts, m, now, nextId)| ==>
              exists j :: 0 <= j < |posts| && posts[j].slug !in m &&
                          Created(posts, m, now, nextId)[i].doc == FromInput(posts[j], now)
  {
    if posts != [] {
      var n := |posts| - 1;
      var init := posts[..n];
      CreatedSound(init, m, now, nextId);
      var ci := Created(init, m, now, nextId);
      var c := Created(posts, m, now, nextId);
      assert c == ci + (if posts[n].slug in m then [] else [Row(nextId + |ci|, FromInput(posts[n], now))]);
      forall i | 0 <= i < |c|
        ensures exists j :: 0 <= j < |posts| && posts[j].slug !in m && c[i].doc == FromInput(posts[j], now)
      {
        if i < |ci| {
          assert c[i] == ci[i];
          var j :| 0 <= j < |init| && init[j].slug !in m && ci[i].doc == FromInput(init[j], now);
          assert posts[j] == init[j];
        } else {
          assert c[i].doc == FromInput(posts[n], now);
        }
      }
    } else {
      assert Created(posts, m, now, nextId) == [];
    }
  }

  /** Some row of `rows` holds `doc`. */
  ghost predicate HasDoc(rows: seq<Row<Post>>, doc: Post) {
    exists i :: 0 <= i < |rows| && rows[i].doc == doc
  }

  /** Every incoming post whose slug the map lacks is created. */
  lemma {:induction false} CreatedComplete(posts: seq<PostInput>, m: map<string, Row<Post>>, now: int, nextId: nat)
    ensures forall j :: 0 <= j < |posts| && posts[j].slug !in m ==>
              HasDoc(Created(posts, m, now, nextId), FromInput(posts[j], now))
  {
    if posts != [] {
      var n := |posts| - 1;
      var init := posts[..n];
      CreatedComplete(init, m, now, nextId);
      var ci := Created(init, m, now, nextId);
      var c := Created(posts, m, now, nextId);
      assert c == ci + (if posts[n].slug in m then [] else [Row(nextId + |ci|, FromInput(posts[n], now))]);
      forall j | 0 <= j < |posts| && posts[j].slug !in m
        ensures HasDoc(c, FromInput(posts[j], now))
      {
        if j < n {
          assert posts[j] == init[j];
          var i :| 0 <= i < |ci| && ci[i].doc == FromInput(init[j], now);
          assert c[i] == ci[i];
        } else {
          assert c[|ci|].doc == FromInput(posts[n], now);
        }
      }
    }
  }

  /** Index condition of the deletion loop's test `!incomingSlugs.has(slug)`, negated. */
  function SlugIn(slugs: set<string>): Post -> bool {
    (p: Post) => p.slug in slugs
  }

  /** The condition under which the deletion loop deletes a snapshot row. */
  function Stale(slugs: set<string>): Post -> bool {
    (p: Post) => p.slug !in slugs
  }

  /** The table after the sync: the refreshed snapshot rows whose slug is
      incoming, in their order, followed by the rows created during the call. */
  function Synced(rows: seq<Row<Post>>, posts: seq<PostInput>, now: int, nextId: nat): seq<Row<Post>> {
    var m := BySlug(rows);
    Where(Refreshed(rows, m, posts, now), SlugIn(IncomingSlugs(posts))) + Created(posts, m, now, nextId)
  }

  /** Number of incoming posts whose slug the table lacks. */
  function CountNew(rows: seq<Row<Post>>, posts: seq<PostInput>): (n: nat)
    ensures n <= |posts|
  {
    if posts == [] then 0
    else CountNew(rows, posts[..|posts| - 1]) + (if posts[|posts| - 1].slug in StoredSlugs(rows) then 0 else 1)
  }

  // ---------------------------------------------------------------------------
  // The handler

  /** Seeing one more incoming post changes only the map's entry for its slug. */
  lemma RefreshStep(r: Row<Post>, m: map<string, Row<Post>>, posts: seq<PostInput>, j: nat, now: int)
    requires j < |posts|
    ensures Refresh(r, m, posts[..j + 1], now) ==
            if IsEntry(m, r) && r.doc.slug == posts[j].slug then Row(r.id, FromInput(posts[j], now))
            else Refresh(r, m, posts[..j], now)
  {
    assert posts[..j + 1][..j] == posts[..j];
  }

  /** One step of the upsert loop on a post whose slug is in the snapshot map:
      patching the map's entry yields the state after that post. */
  lemma {:induction false} UpsertPatchStep(rows: seq<Row<Post>>, nextId: nat, posts: seq<PostInput>, j: nat, now: int)
    requires WellFormed(rows, nextId) && j < |posts| && posts[j].slug in BySlug(rows)
    ensures var m := BySlug(rows);
            var e := m[posts[j].slug];
            var before := Refreshed(rows, m, posts[..j], now) + Created(posts[..j], m, now, nextId);
            Lookup(before, e.id).Some? &&
            Replaced(before, e.id, FromInput(posts[j], now)) ==
              Refreshed(rows, m, posts[..j + 1], now) + Created(posts[..j + 1], m, now, nextId)
  {
    var m := BySlug(rows);
    var e := m[posts[j].slug];
    BySlugEntries(rows);
    var k :| 0 <= k < |rows| && rows[k] == e;
    var ref0 := Refreshed(rows, m, posts[..j], now);
    var c := Created(posts[..j], m, now, nextId);
    assert posts[..j + 1][..j] == posts[..j];
    assert Created(posts[..j + 1], m, now, nextId) == c;
    var before: seq<Row<Post>> := ref0 + c;
    assert before[k].id == e.id;
    CreatedIds(posts[..j], m, now, nextId);
    assert e.id < nextId;
    ReplacedAppend(ref0, c, e.id, FromInput(posts[j], now));
    PatchSnapshot(rows, nextId, posts, j, now);
  }

  /** Patching the map's entry for `posts[j]` in the refreshed snapshot gives
      the snapshot refreshed by one more post. */
  lemma {:induction false} PatchSnapshot(rows: seq<Row<Post>>, nextId: nat, posts: seq<PostInput>, j: nat, now: int)
    requires WellFormed(rows, nextId) && j < |posts| && posts[j].slug in BySlug(rows)
    ensures Replaced(Refreshed(rows, BySlug(rows), posts[..j], now), BySlug(rows)[posts[j].slug].id, FromInput(posts[j], now)) ==
            Refreshed(rows, BySlug(rows), posts[..j + 1], now)
  {
    var m := BySlug(rows);
    var p := posts[j];
    var e := m[p.slug];
    BySlugEntries(rows);
    var k :| 0 <= k < |rows| && rows[k] == e;
    var ref0 := Refreshed(rows, m, posts[..j], now);
    var ref1 := Refreshed(rows, m, posts[..j + 1], now);
    var after := Replaced(ref0, e.id, FromInput(p, now));
    forall i | 0 <= i < |rows| ensures after[i] == ref1[i] {
      RefreshStep(rows[i], m, posts, j, now);
      if i != k {
        ReplacedIds(rows, nextId, i, k);
      }
    }
  }

  /** One step of the upsert loop on a post whose slug the snapshot map lacks. */
  lemma {:induction false} UpsertInsertStep(rows: seq<Row<Post>>, nextId: nat, posts: seq<PostInput>, j: nat, now: int)
    requires j < |posts| && posts[j].slug !in BySlug(rows)
    ensures var m := BySlug(rows);
            var c := Created(posts[..j], m, now, nextId);
            Refreshed(rows, m, posts[..j], now) + c + [Row(nextId + |c|, FromInput(posts[j], now))] ==
              Refreshed(rows, m, posts[..j + 1], now) + Created(posts[..j + 1], m, now, nextId)
  {
    var m := BySlug(rows);
    var p := posts[j];
    assert posts[..j + 1][..j] == posts[..j];
    var ref0 := Refreshed(rows, m, posts[..j], now);
    var ref1 := Refreshed(rows, m, posts[..j + 1], now);
    forall i | 0 <= i < |rows| ensures ref0[i] == ref1[i] {
      if IsEntry(m, rows[i]) {
        assert rows[i].doc.slug != p.slug;
        assert LastWith(posts[..j + 1], rows[i].doc.slug) == LastWith(posts[..j], rows[i].doc.slug);
      }
    }
  }

  /** The table while the deletion loop is at snapshot index `i`: the rows
      before `i` that were kept, the rows from `i` on, then the rows created. */
  ghost function DeleteStage(ref: seq<Row<Post>>, created: seq<Row<Post>>, slugs: set<string>, i: nat): seq<Row<Post>>
    requires i <= |ref|
  {
    Where(ref[..i], SlugIn(slugs)) + ref[i..] + created
  }

  /** The loop starts from the whole snapshot and ends with the kept rows. */
  lemma {:induction false} DeleteStageEnds(ref: seq<Row<Post>>, created: seq<Row<Post>>, slugs: set<string>)
    ensures DeleteStage(ref, created, slugs, 0) == ref + created
    ensures DeleteStage(ref, created, slugs, |ref|) == Where(ref, SlugIn(slugs)) + created
  {
    assert ref[..0] == [] && ref[0..] == ref;
    assert ref[..|ref|] == ref && ref[|ref|..] == [];
  }

  /** One step of the deletion loop over the snapshot. */
  lemma {:induction false} DeleteStep(ref: seq<Row<Post>>, created: seq<Row<Post>>, nextId: nat, slugs: set<string>, i: nat)
    requires i < |ref| && WellFormed(DeleteStage(ref, created, slugs, i), nextId)
    ensures var before := DeleteStage(ref, created, slugs, i);
            var after := DeleteStage(ref, created, slugs, i + 1);
            if ref[i].doc.slug in slugs then before == after
            else Lookup(before, ref[i].id).Some? && Without(before, ref[i].id) == after
  {
    var kept := Where(ref[..i], SlugIn(slugs));
    assert ref[..i + 1] == ref[..i] + [ref[i]];
    WhereSnoc(ref[..i], ref[i], SlugIn(slugs));
    assert ref[i..] == [ref[i]] + ref[i + 1..];
    if ref[i].doc.slug in slugs {
      assert kept + ref[i..] + created == (kept + [ref[i]]) + ref[i + 1..] + created;
    } else {
      assert kept + ref[i..] + created == kept + [ref[i]] + (ref[i + 1..] + created);
      DeleteDrop(kept, ref[i], ref[i + 1..] + created, nextId);
      assert kept + (ref[i + 1..] + created) == kept + ref[i + 1..] + created;
    }
  }

  /** The deletion loop's step in the terms of its body: the listed row
      `e` at index `i`, the table and the counter. */
  lemma {:induction false} DeleteLoopStep(ref: seq<Row<Post>>, created: seq<Row<Post>>, nextId: nat, slugs: set<string>,
                                          existing: seq<Row<Post>>, i: nat)
    requires i < |ref| == |existing| && WellFormed(DeleteStage(ref, created, slugs, i), nextId)
    requires ref[i].id == existing[i].id && ref[i].doc.slug == existing[i].doc.slug
    ensures existing[i].doc.slug in slugs ==>
              DeleteStage(ref, created, slugs, i) == DeleteStage(ref, created, slugs, i + 1) &&
              CountWhere(existing[..i + 1], Stale(slugs)) == CountWhere(existing[..i], Stale(slugs))
    ensures existing[i].doc.slug !in slugs ==>
              Lookup(DeleteStage(ref, created, slugs, i), existing[i].id).Some? &&
              Without(DeleteStage(ref, created, slugs, i), existing[i].id) == DeleteStage(ref, created, slugs, i + 1) &&
              CountWhere(existing[..i + 1], Stale(slugs)) == CountWhere(existing[..i], Stale(slugs)) + 1
  {
    DeleteStep(ref, created, nextId, slugs, i);
    assert existing[..i + 1] == existing[..i] + [existing[i]];
    CountSnoc(existing[..i], existing[i], Stale(slugs));
  }

  /** Deleting the row between two parts of a well-formed table leaves the parts. */
  lemma {:induction false} DeleteDrop(a: seq<Row<Post>>, x: Row<Post>, b: seq<Row<Post>>, nextId: nat)
    requires WellFormed(a + [x] + b, nextId)
    ensures Lookup(a + [x] + b, x.id).Some? && Without(a + [x] + b, x.id) == a + b
  {
    var t := a + [x] + b;
    var k := |a|;
    assert t[k] == x;
    WithoutAt(t, nextId, k);
    assert t[..k] == a;
    assert t[k + 1..] == b;
  }

  /** `new Map(existingPosts.map((p) => [p.slug, p]))`, entry by entry. */
  method IndexBySlug(existing: seq<Row<Post>>) returns (bySlug: map<string, Row<Post>>)
    ensures bySlug == BySlug(existing)
  {
    bySlug := map[];
    var i := 0;
    while i < |existing|
      invariant 0 <= i <= |existing|
      invariant bySlug == BySlug(existing[..i])
    {
      assert existing[..i + 1][..i] == existing[..i];
      bySlug := bySlug[existing[i].doc.slug := existing[i]];
      i := i + 1;
    }
    assert existing[..i] == existing;
  }

  /** The body of the upsert loop for `posts[j]`: patch the snapshot entry of
      its slug if there is one, insert it otherwise. */
  method UpsertOne(db: Table<Post>, ghost existing: seq<Row<Post>>, ghost nextId0: nat,
                   bySlug: map<string, Row<Post>>, posts: seq<PostInput>, j: nat, now: int) returns (isNew: bool)
    requires WellFormed(existing, nextId0) && bySlug == BySlug(existing) && j < |posts|
    requires db.Valid()
    requires db.rows == Refreshed(existing, bySlug, posts[..j], now) + Created(posts[..j], bySlug, now, nextId0)
    requires db.nextId == nextId0 + |Created(posts[..j], bySlug, now, nextId0)|
    modifies db
    ensures db.Valid()
    ensures db.rows == Refreshed(existing, bySlug, posts[..j + 1], now) + Created(posts[..j + 1], bySlug, now, nextId0)
    ensures db.nextId == nextId0 + |Created(posts[..j + 1], bySlug, now, nextId0)|
    ensures isNew <==> posts[j].slug !in bySlug
    ensures |Created(posts[..j + 1], bySlug, now, nextId0)| ==
            |Created(posts[..j], bySlug, now, nextId0)| + (if isNew then 1 else 0)
  {
    var post := posts[j];
    assert posts[..j + 1][..j] == posts[..j];
    if post.slug in bySlug {
      UpsertPatchStep(existing, nextId0, posts, j, now);
      db.Patch(bySlug[post.slug].id, FromInput(post, now));
      isNew := false;
    } else {
      UpsertInsertStep(existing, nextId0, posts, j, now);
      var _ := db.Insert(FromInput(post, now));
      isNew := true;
    }
  }

  /** The upsert loop: patches the snapshot entry of every incoming slug the
      snapshot has and inserts every other incoming post. */
  method UpsertAll(db: Table<Post>, existing: seq<Row<Post>>, bySlug: map<string, Row<Post>>,
                   posts: seq<PostInput>, now: int) returns (created: nat, updated: nat)
    requires db.Valid() && db.rows == existing && bySlug == BySlug(existing)
    modifies db
    ensures db.Valid()
    ensures db.rows == Refreshed(existing, bySlug, posts, now) + Created(posts, bySlug, now, old(db.nextId))
    ensures created == |Created(posts, bySlug, now, old(db.nextId))|
    ensures db.nextId == old(db.nextId) + created
    ensures created + updated == |posts|
  {
    created, updated := 0, 0;
    ghost var nextId0 := db.nextId;
    assert posts[..0] == [];
    RefreshedNothing(existing, bySlug, now);
    var j := 0;
    while j < |posts|
      invariant 0 <= j <= |posts|
      invariant db.Valid() && WellFormed(existing, nextId0)
      invariant db.rows == Refreshed(existing, bySlug, posts[..j], now) + Created(posts[..j], bySlug, now, nextId0)
      invariant created == |Created(posts[..j], bySlug, now, nextId0)|
      invariant db.nextId == nextId0 + created
      invariant created + updated == j
    {
      var isNew := UpsertOne(db, existing, nextId0, bySlug, posts, j, now);
      if isNew {
        created := created + 1;
      } else {
        updated := updated + 1;
      }
      j := j + 1;
    }
    assert posts[..j] == posts;
  }

  /** The deletion loop: walks the snapshot and deletes every row whose slug
      is not incoming. */
  method DeleteStale(db: Table<Post>, existing: seq<Row<Post>>, ghost ref: seq<Row<Post>>, ghost inserted: seq<Row<Post>>,
                     incoming: set<string>) returns (deleted: nat)
    requires db.Valid() && db.rows == ref + inserted
    requires |ref| == |existing|
    requires forall k :: 0 <= k < |existing| ==> ref[k].id == existing[k].id && ref[k].doc.slug == existing[k].doc.slug
    modifies db
    ensures db.Valid() && db.nextId == old(db.nextId)
    ensures db.rows == Where(ref, SlugIn(incoming)) + inserted
    ensures deleted == CountWhere(existing, Stale(incoming))
  {
    deleted := 0;
    DeleteStageEnds(ref, inserted, incoming);
    var i := 0;
    while i < |existing|
      invariant 0 <= i <= |existing|
      invariant db.Valid() && db.nextId == old(db.nextId)
      invariant db.rows == DeleteStage(ref, inserted, incoming, i)
      invariant deleted == CountWhere(existing[..i], Stale(incoming))
    {
      var e := existing[i];
      DeleteLoopStep(ref, inserted, db.nextId, incoming, existing, i);
      if e.doc.slug !in incoming {
        db.Delete(e.id);
        deleted := deleted + 1;
      }
      i := i + 1;
    }
    assert existing[..i] == existing;
  }

  /** `syncPosts`: upserts every incoming post by slug, then deletes the
      snapshot rows whose slug is not incoming; returns the three counters. */
  method SyncPosts(db: Table<Post>, posts: seq<PostInput>, now: int) returns (created: nat, updated: nat, deleted: nat)
    requires db.Valid()
    modifies db
    ensures db.Valid()
    ensures db.rows == Synced(old(db.rows), posts, now, old(db.nextId))
    ensures db.nextId == old(db.nextId) + created
    ensures created == |Created(posts, BySlug(old(db.rows)), now, old(db.nextId))|
    ensures created + updated == |posts|
    ensures deleted == CountWhere(old(db.rows), Stale(IncomingSlugs(posts)))
  {
    var incoming := IncomingSlugs(posts);
    var existing := db.rows;
    ghost var nextId0 := db.nextId;
    var bySlug := IndexBySlug(existing);
    created, updated := UpsertAll(db, existing, bySlug, posts, now);
    deleted := DeleteStale(db, existing, Refreshed(existing, bySlug, posts, now),
                           Created(posts, bySlug, now, nextId0), incoming);
  }

  /** `syncPostsPublic`: the same handler, exposed without authentication. */
  method SyncPostsPublic(db: Table<Post>, posts: seq<PostInput>, now: int) returns (created: nat, updated: nat, deleted: nat)
    requires db.Valid()
    modifies db
    ensures db.Valid()
    ensures db.rows == Synced(old(db.rows), posts, now, old(db.nextId))
    ensures db.nextId == old(db.nextId) + created
    ensures created == |Created(posts, BySlug(old(db.rows)), now, old(db.nextId))|
    ensures created + updated == |posts|
    ensures deleted == CountWhere(old(db.rows), Stale(IncomingSlugs(posts)))
  {
    created, updated, deleted := SyncPosts(db, posts, now);
  }

  // ---------------------------------------------------------------------------
  // Properties of a sync

  /** The counter `created` is the number of incoming posts whose slug the
      table lacked before the call. */
  lemma {:induction false} CreatedCount(rows: seq<Row<Post>>, posts: seq<PostInput>, now: int, nextId: nat)
    ensures |Created(posts, BySlug(rows), now, nextId)| == CountNew(rows, posts)
  {
    if posts != [] {
      BySlugEntries(rows);
      CreatedCount(rows, posts[..|posts| - 1], now, nextId);
    }
  }

  /** No two incoming posts share a slug. */
  ghost predicate DistinctSlugs(posts: seq<PostInput>) {
    forall i, j :: 0 <= i < j < |posts| ==> posts[i].slug != posts[j].slug
  }

  /** Adding a new element to a set adds one to its difference with `b`,
      unless `b` holds the element. */
  lemma DifferenceAddOne(a: set<string>, b: set<string>, x: string)
    requires x !in a
    ensures |(a + {x}) - b| == |a - b| + (if x in b then 0 else 1)
  {
    if x in b {
      assert (a + {x}) - b == a - b;
    } else {
      assert (a + {x}) - b == (a - b) + {x};
    }
  }

  /** Dropping the last of distinct posts keeps them distinct, and its slug is
      not among the others. */
  lemma DistinctSnoc(posts: seq<PostInput>)
    requires posts != [] && DistinctSlugs(posts)
    ensures DistinctSlugs(posts[..|posts| - 1])
    ensures posts[|posts| - 1].slug !in IncomingSlugs(posts[..|posts| - 1])
  {
    var init := posts[..|posts| - 1];
    forall i, j | 0 <= i < j < |init| ensures init[i].slug != init[j].slug {
      assert init[i] == posts[i] && init[j] == posts[j];
    }
    forall i | 0 <= i < |init| ensures init[i].slug != posts[|posts| - 1].slug {
      assert posts[i] == init[i];
    }
  }

  /** With distinct incoming slugs, `created` is the size of the set of
      incoming slugs minus the stored ones. */
  lemma {:induction false} CountNewDistinct(rows: seq<Row<Post>>, posts: seq<PostInput>)
    requires DistinctSlugs(posts)
    ensures CountNew(rows, posts) == |IncomingSlugs(posts) - StoredSlugs(rows)|
  {
    if posts != [] {
      var init := posts[..|posts| - 1];
      var x := posts[|posts| - 1].slug;
      DistinctSnoc(posts);
      CountNewDistinct(rows, init);
      IncomingSnoc(posts);
      DifferenceAddOne(IncomingSlugs(init), StoredSlugs(rows), x);
    } else {
      assert IncomingSlugs(posts) == {};
    }
  }

  lemma StoredSlugsCons(rows: seq<Row<Post>>)
    requires rows != []
    ensures StoredSlugs(rows) == {rows[0].doc.slug} + StoredSlugs(rows[1..])
  {
    var t := rows[1..];
    assert forall i :: 0 <= i < |t| ==> t[i] == rows[i + 1];
    forall s | s in StoredSlugs(rows) ensures s in {rows[0].doc.slug} + StoredSlugs(t) {
      var k :| 0 <= k < |rows| && rows[k].doc.slug == s;
      if k > 0 { assert t[k - 1] == rows[k]; }
    }
  }

  /** With distinct stored slugs, `deleted` is the size of the set of stored
      slugs minus the incoming ones. */
  lemma {:induction false} StaleCountDistinct(rows: seq<Row<Post>>, incoming: set<string>)
    requires SlugsUnique(rows)
    ensures CountWhere(rows, Stale(incoming)) == |StoredSlugs(rows) - incoming|
  {
    if rows != [] {
      var t := rows[1..];
      assert SlugsUnique(t) by {
        forall i, j | 0 <= i < |t| && 0 <= j < |t| && t[i].doc.slug == t[j].doc.slug ensures i == j {
          assert t[i] == rows[i + 1] && t[j] == rows[j + 1];
        }
      }
      StaleCountDistinct(t, incoming);
      StoredSlugsCons(rows);
      var x := rows[0].doc.slug;
      assert x !in StoredSlugs(t) by {
        forall i | 0 <= i < |t| ensures t[i].doc.slug != x {
          assert t[i] == rows[i + 1];
        }
      }
      assert {x} + StoredSlugs(t) == StoredSlugs(t) + {x};
      DifferenceAddOne(StoredSlugs(t), incoming, x);
    }
  }

  /** Every slug stored after the sync is incoming. */
  lemma SyncedSlugsIncoming(rows: seq<Row<Post>>, posts: seq<PostInput>, now: int, nextId: nat)
    ensures forall i :: 0 <= i < |Synced(rows, posts, now, nextId)| ==>
              Synced(rows, posts, now, nextId)[i].doc.slug in IncomingSlugs(posts)
  {
    var m := BySlug(rows);
    var S := IncomingSlugs(posts);
    var kept := Where(Refreshed(rows, m, posts, now), SlugIn(S));
    var c := Created(posts, m, now, nextId);
    WhereMembers(Refreshed(rows, m, posts, now), SlugIn(S));
    CreatedSound(posts, m, now, nextId);
    var r := Synced(rows, posts, now, nextId);
    forall i | 0 <= i < |r| ensures r[i].doc.slug in S {
      if i < |kept| {
        assert r[i] == kept[i];
        assert SlugIn(S)(kept[i].doc);
      } else {
        assert r[i] == c[i - |kept|];
        var j :| 0 <= j < |posts| && posts[j].slug !in m && c[i - |kept|].doc == FromInput(posts[j], now);
      }
    }
  }

  /** Every incoming slug is stored after the sync. */
  lemma SyncedSlugsComplete(rows: seq<Row<Post>>, posts: seq<PostInput>, now: int, nextId: nat)
    ensures forall j :: 0 <= j < |posts| ==> posts[j].slug in StoredSlugs(Synced(rows, posts, now, nextId))
  {
    var m := BySlug(rows);
    var S := IncomingSlugs(posts);
    var ref := Refreshed(rows, m, posts, now);
    var kept := Where(ref, SlugIn(S));
    var c := Created(posts, m, now, nextId);
    var r := Synced(rows, posts, now, nextId);
    BySlugEntries(rows);
    WhereMembers(ref, SlugIn(S));
    CreatedComplete(posts, m, now, nextId);
    forall j | 0 <= j < |posts| ensures posts[j].slug in StoredSlugs(r) {
      var s := posts[j].slug;
      assert s in S;
      if s in m {
        var k :| 0 <= k < |rows| && rows[k] == m[s];
        assert ref[k].doc.slug == s;
        assert ref[k] in kept;
        var i :| 0 <= i < |kept| && kept[i] == ref[k];
        assert r[i] == kept[i];
      } else {
        var i :| 0 <= i < |c| && c[i].doc == FromInput(posts[j], now);
        assert r[|kept| + i] == c[i];
      }
    }
  }

  /** After a sync the stored slugs are exactly the incoming slugs. */
  lemma SyncSlugs(rows: seq<Row<Post>>, posts: seq<PostInput>, now: int, nextId: nat)
    ensures StoredSlugs(Synced(rows, posts, now, nextId)) == IncomingSlugs(posts)
  {
    SyncedSlugsIncoming(rows, posts, now, nextId);
    SyncedSlugsComplete(rows, posts, now, nextId);
  }

  /** With distinct stored slugs, every stored row whose slug is incoming
      survives the sync under its id, overwritten by the last incoming post
      with its slug and stamped with the sync time. */
  lemma SyncRefreshes(rows: seq<Row<Post>>, posts: seq<PostInput>, now: int, nextId: nat, k: nat)
    requires SlugsUnique(rows) && k < |rows| && rows[k].doc.slug in IncomingSlugs(posts)
    ensures LastWith(posts, rows[k].doc.slug).Some?
    ensures Row(rows[k].id, FromInput(LastWith(posts, rows[k].doc.slug).value, now)) in Synced(rows, posts, now, nextId)
  {
    var m := BySlug(rows);
    var S := IncomingSlugs(posts);
    var ref := Refreshed(rows, m, posts, now);
    BySlugUnique(rows, k);
    LastWithFound(posts, rows[k].doc.slug);
    assert ref[k] == Row(rows[k].id, FromInput(LastWith(posts, rows[k].doc.slug).value, now));
    WhereMembers(ref, SlugIn(S));
    assert ref[k] in Where(ref, SlugIn(S));
  }

  /** Every incoming post with a slug the table lacked is stored under an id
      handed out during the call: the deletion loop, which walks the
      snapshot, never removes it. */
  lemma SyncKeepsCreated(rows: seq<Row<Post>>, posts: seq<PostInput>, now: int, nextId: nat, j: nat)
    requires j < |posts| && posts[j].slug !in StoredSlugs(rows)
    ensures exists i :: 0 <= i < |Synced(rows, posts, now, nextId)| &&
                        Synced(rows, posts, now, nextId)[i].id >= nextId &&
                        Synced(rows, posts, now, nextId)[i].doc == FromInput(posts[j], now)
  {
    var m := BySlug(rows);
    var kept := Where(Refreshed(rows, m, posts, now), SlugIn(IncomingSlugs(posts)));
    var c := Created(posts, m, now, nextId);
    var r := Synced(rows, posts, now, nextId);
    BySlugEntries(rows);
    CreatedComplete(posts, m, now, nextId);
    CreatedIds(posts, m, now, nextId);
    var i :| 0 <= i < |c| && c[i].doc == FromInput(posts[j], now);
    assert r[|kept| + i] == c[i];
  }

  lemma {:induction false} CountNewNone(rows: seq<Row<Post>>, posts: seq<PostInput>)
    requires forall j :: 0 <= j < |posts| ==> posts[j].slug in StoredSlugs(rows)
    ensures CountNew(rows, posts) == 0
  {
    if posts != [] {
      var init := posts[..|posts| - 1];
      assert forall j :: 0 <= j < |init| ==> init[j] == posts[j];
      CountNewNone(rows, init);
    }
  }

  /** Syncing the same posts again creates nothing and deletes nothing. */
  lemma SyncAgainChangesNoSlugs(rows: seq<Row<Post>>, posts: seq<PostInput>, now: int, nextId: nat)
    ensures CountNew(Synced(rows, posts, now, nextId), posts) == 0
    ensures CountWhere(Synced(rows, posts, now, nextId), Stale(IncomingSlugs(posts))) == 0
  {
    var r := Synced(rows, posts, now, nextId);
    SyncedSlugsIncoming(rows, posts, now, nextId);
    SyncedSlugsComplete(rows, posts, now, nextId);
    CountNewNone(r, posts);
  }
}
