/** The posts table and its read-only queries: the published listing, lookup
    by slug (with and without drafts), the listing with drafts, and the
    related-posts ranking by tag overlap. */
module Posts {
  import opened Db
  import opened StableSort

  /** A post as the sync script sends it. The publication date is kept as an
      abstract sort key. */
  datatype PostInput = PostInput(
    slug: string, title: string, description: string, content: string,
    date: int, published: bool, tags: seq<string>,
    readTime: Option<string>, image: Option<string>)

  /** A stored post. */
  datatype Post = Post(
    slug: string, title: string, description: string, content: string,
    date: int, published: bool, tags: seq<string>,
    readTime: Option<string>, image: Option<string>, lastSyncedAt: int)

  /** The stored form of an incoming post, stamped with the sync time. */
  function FromInput(p: PostInput, now: int): (q: Post)
    ensures q.slug == p.slug && q.lastSyncedAt == now
  {
    Post(p.slug, p.title, p.description, p.content, p.date, p.published, p.tags,
         p.readTime, p.image, now)
  }

  /** List entry of `getAllPosts`: everything but the content. */
  datatype PostSummary = PostSummary(
    id: nat, slug: string, title: string, description: string, date: int,
    published: bool, tags: seq<string>, readTime: Option<string>, image: Option<string>)

  /** Full post returned by the lookups by slug. */
  datatype PostView = PostView(
    id: nat, slug: string, title: string, description: string, content: string,
    date: int, published: bool, tags: seq<string>, readTime: Option<string>,
    image: Option<string>)

  /** List entry of `getAllPostsWithDrafts`: no content and no image. */
  datatype DraftSummary = DraftSummary(
    id: nat, slug: string, title: string, description: string, date: int,
    published: bool, tags: seq<string>, readTime: Option<string>)

  /** List entry of `getRelatedPosts`. */
  datatype RelatedPost = RelatedPost(
    id: nat, slug: string, title: string, description: string, date: int,
    tags: seq<string>)

  function Summary(r: Row<Post>): PostSummary {
    PostSummary(r.id, r.doc.slug, r.doc.title, r.doc.description, r.doc.date,
                r.doc.published, r.doc.tags, r.doc.readTime, r.doc.image)
  }

  function View(r: Row<Post>): PostView {
    PostView(r.id, r.doc.slug, r.doc.title, r.doc.description, r.doc.content, r.doc.date,
             r.doc.published, r.doc.tags, r.doc.readTime, r.doc.image)
  }

  function Draft(r: Row<Post>): DraftSummary {
    DraftSummary(r.id, r.doc.slug, r.doc.title, r.doc.description, r.doc.date,
                 r.doc.published, r.doc.tags, r.doc.readTime)
  }

  function Related(r: Row<Post>): RelatedPost {
    RelatedPost(r.id, r.doc.slug, r.doc.title, r.doc.description, r.doc.date, r.doc.tags)
  }

  /** The `by_published` index condition `published == true`. */
  predicate Published(p: Post) {
    p.published
  }

  /** The `by_slug` index condition. */
  function HasSlug(slug: string): Post -> bool {
    (p: Post) => p.slug == slug
  }

  function DateOf(r: Row<Post>): int {
    r.doc.date
  }

  /** No two rows share a slug. */
  ghost predicate SlugsUnique(rows: seq<Row<Post>>) {
    forall i, j :: 0 <= i < |rows| && 0 <= j < |rows| && rows[i].doc.slug == rows[j].doc.slug ==> i == j
  }

  /** `getAllPosts`: the published posts, newest first, without content. */
  function GetAllPosts(rows: seq<Row<Post>>): (r: seq<PostSummary>)
    ensures |r| == |Where(rows, Published)|
  {
    var sorted := SortDesc(Where(rows, Published), DateOf);
    SortDescLength(Where(rows, Published), DateOf);
    seq(|sorted|, i requires 0 <= i < |sorted| => Summary(sorted[i]))
  }

  /** The published listing is newest first and holds one entry per published post. */
  lemma {:induction false} AllPostsOrdered(rows: seq<Row<Post>>)
    ensures var r := GetAllPosts(rows);
            |r| == |Where(rows, Published)| &&
            forall i, j :: 0 <= i < j < |r| ==> r[i].date >= r[j].date
  {
    SortDescLength(Where(rows, Published), DateOf);
  }

  /** Every entry of the published listing is the summary of a published post. */
  lemma {:induction false} AllPostsSound(rows: seq<Row<Post>>)
    ensures var r := GetAllPosts(rows);
            forall i :: 0 <= i < |r| ==>
              exists k :: 0 <= k < |rows| && rows[k].doc.published && r[i] == Summary(rows[k])
  {
    var published := Where(rows, Published);
    var sorted := SortDesc(published, DateOf);
    SortDescMembers(published, DateOf);
    WhereMembers(rows, Published);
    var r := GetAllPosts(rows);
    forall i | 0 <= i < |r|
      ensures exists k :: 0 <= k < |rows| && rows[k].doc.published && r[i] == Summary(rows[k])
    {
      assert sorted[i] in published;
      var m :| 0 <= m < |published| && published[m] == sorted[i];
      var k :| 0 <= k < |rows| && rows[k] == published[m];
      assert r[i] == Summary(rows[k]);
    }
  }

  /** Every published post appears in the published listing. */
  lemma {:induction false} AllPostsComplete(rows: seq<Row<Post>>)
    ensures forall k :: 0 <= k < |rows| && rows[k].doc.published ==> Summary(rows[k]) in GetAllPosts(rows)
  {
    var published := Where(rows, Published);
    var sorted := SortDesc(published, DateOf);
    SortDescMembers(published, DateOf);
    WhereMembers(rows, Published);
    var r := GetAllPosts(rows);
    forall k | 0 <= k < |rows| && rows[k].doc.published ensures Summary(rows[k]) in r {
      assert rows[k] in published;
      var m :| 0 <= m < |published| && published[m] == rows[k];
      var i :| 0 <= i < |sorted| && sorted[i] == published[m];
      assert r[i] == Summary(rows[k]);
    }
  }

  /** `getPostBySlug`: the first post with the slug, if it is published. */
  function GetPostBySlug(rows: seq<Row<Post>>, slug: string): (r: Option<PostView>)
    ensures r.Some? ==> r.value.slug == slug && r.value.published &&
                        exists k :: 0 <= k < |rows| && r.value == View(rows[k])
    ensures (forall k :: 0 <= k < |rows| ==> rows[k].doc.slug != slug) ==> r.None?
    ensures SlugsUnique(rows) ==>
              (r.Some? <==> exists k :: 0 <= k < |rows| && rows[k].doc.slug == slug && rows[k].doc.published)
  {
    match FirstWhere(rows, HasSlug(slug))
    case None => None
    case Some(row) => if !row.doc.published then None else Some(View(row))
  }

  /** `getPostBySlugPreview`: the first post with the slug, drafts included. */
  function GetPostBySlugPreview(rows: seq<Row<Post>>, slug: string): (r: Option<PostView>)
    ensures r.Some? ==> r.value.slug == slug && exists k :: 0 <= k < |rows| && r.value == View(rows[k])
    ensures r.None? <==> forall k :: 0 <= k < |rows| ==> rows[k].doc.slug != slug
  {
    match FirstWhere(rows, HasSlug(slug))
    case None => None
    case Some(row) => Some(View(row))
  }

  /** The public lookup is the preview lookup with drafts hidden. */
  lemma BySlugHidesDrafts(rows: seq<Row<Post>>, slug: string)
    ensures GetPostBySlug(rows, slug) ==
            (var p := GetPostBySlugPreview(rows, slug);
             if p.Some? && p.value.published then p else None)
  {
  }

  /** `getAllPostsWithDrafts`: every post, newest first, without content or image. */
  function GetAllPostsWithDrafts(rows: seq<Row<Post>>): (r: seq<DraftSummary>)
    ensures |r| == |rows|
  {
    var sorted := SortDesc(rows, DateOf);
    SortDescLength(rows, DateOf);
    seq(|sorted|, i requires 0 <= i < |sorted| => Draft(sorted[i]))
  }

  /** The listing with drafts is newest first and has one entry per post. */
  lemma {:induction false} DraftsOrdered(rows: seq<Row<Post>>)
    ensures var r := GetAllPostsWithDrafts(rows);
            |r| == |rows| && forall i, j :: 0 <= i < j < |r| ==> r[i].date >= r[j].date
  {
    SortDescLength(rows, DateOf);
  }

  /** `d` is the listing entry of some stored post. */
  ghost predicate DraftOfStored(rows: seq<Row<Post>>, d: DraftSummary) {
    exists k :: 0 <= k < |rows| && d == Draft(rows[k])
  }

  /** The listing with drafts lists exactly the stored posts. */
  lemma {:induction false} DraftsExact(rows: seq<Row<Post>>)
    ensures var r := GetAllPostsWithDrafts(rows);
            (forall i :: 0 <= i < |r| ==> DraftOfStored(rows, r[i])) &&
            (forall k :: 0 <= k < |rows| ==> Draft(rows[k]) in r)
  {
    var sorted := SortDesc(rows, DateOf);
    SortDescMembers(rows, DateOf);
    var r := GetAllPostsWithDrafts(rows);
    forall i | 0 <= i < |r| ensures DraftOfStored(rows, r[i]) {
      DraftSource(rows, sorted[i]);
    }
    forall k | 0 <= k < |rows| ensures Draft(rows[k]) in r {
      var i :| 0 <= i < |sorted| && sorted[i] == rows[k];
      assert r[i] == Draft(rows[k]);
    }
  }

  lemma DraftSource(rows: seq<Row<Post>>, x: Row<Post>)
    requires x in rows
    ensures DraftOfStored(rows, Draft(x))
  {
    var k :| 0 <= k < |rows| && rows[k] == x;
  }

  // ---------------------------------------------------------------------------
  // Related posts

  /** Number of entries of `tags` (duplicates included) that occur in `current`:
      `post.tags.filter(tag => current.includes(tag)).length`. */
  function Overlap(tags: seq<string>, current: seq<string>): (n: nat)
    ensures n <= |tags|
    ensures n == 0 <==> forall i :: 0 <= i < |tags| ==> tags[i] !in current
  {
    if tags == [] then 0
    else
      var rest := Overlap(tags[1..], current);
      assert forall i :: 1 <= i < |tags| ==> tags[i] == tags[1..][i - 1];
      (if tags[0] in current then 1 else 0) + rest
  }

  datatype Scored = Scored(row: Row<Post>, score: int)

  function ScoreOf(s: Scored): int {
    s.score
  }

  function IdOf(s: Scored): int {
    s.row.id
  }

  /** The `p.slug !== args.slug` filter. */
  function OtherThan(slug: string): Post -> bool {
    (p: Post) => p.slug != slug
  }

  /** Keeps the entries with a positive score, in order. */
  function Positive(s: seq<Scored>): (r: seq<Scored>)
    ensures |r| <= |s|
  {
    if s == [] then []
    else if s[0].score > 0 then [s[0]] + Positive(s[1..])
    else Positive(s[1..])
  }

  /** `Positive` keeps exactly the entries with a positive score. */
  lemma {:induction false} PositiveMembers(s: seq<Scored>)
    ensures forall i :: 0 <= i < |Positive(s)| ==> Positive(s)[i] in s && Positive(s)[i].score > 0
    ensures forall k :: 0 <= k < |s| && s[k].score > 0 ==> s[k] in Positive(s)
  {
    if s != [] {
      PositiveMembers(s[1..]);
      var rest := Positive(s[1..]);
      var r := Positive(s);
      forall i | 0 <= i < |r| ensures r[i] in s && r[i].score > 0 {
        if s[0].score > 0 && i > 0 {
          assert r[i] == rest[i - 1];
        }
      }
      forall k | 0 <= k < |s| && s[k].score > 0 ensures s[k] in r {
        if k > 0 {
          assert s[k] == s[1..][k - 1];
        }
      }
    }
  }

  /** A bound below every id stays below every id the filter keeps. */
  lemma {:induction false} PositiveAbove(s: seq<Scored>, bound: int)
    requires forall i :: 0 <= i < |s| ==> bound < IdOf(s[i])
    ensures forall i :: 0 <= i < |Positive(s)| ==> bound < IdOf(Positive(s)[i])
  {
    if s != [] {
      var t := s[1..];
      forall i | 0 <= i < |t| ensures bound < IdOf(t[i]) {
        assert t[i] == s[i + 1];
      }
      PositiveAbove(t, bound);
    }
  }

  /** `Positive` keeps the relative order of the entries it keeps. */
  lemma {:induction false} PositiveOrdered(s: seq<Scored>)
    requires forall a, b :: 0 <= a < b < |s| ==> IdOf(s[a]) < IdOf(s[b])
    ensures forall a, b :: 0 <= a < b < |Positive(s)| ==> IdOf(Positive(s)[a]) < IdOf(Positive(s)[b])
  {
    if s != [] {
      var t := s[1..];
      assert forall a, b :: 0 <= a < b < |t| ==> IdOf(t[a]) < IdOf(t[b]) by {
        forall a, b | 0 <= a < b < |t| ensures IdOf(t[a]) < IdOf(t[b]) {
          assert t[a] == s[a + 1] && t[b] == s[b + 1];
        }
      }
      PositiveOrdered(t);
      var rest := Positive(t);
      var r := Positive(s);
      if s[0].score > 0 {
        forall i | 0 <= i < |t| ensures IdOf(s[0]) < IdOf(t[i]) {
          assert t[i] == s[i + 1];
        }
        PositiveAbove(t, IdOf(s[0]));
        forall a, b | 0 <= a < b < |r| ensures IdOf(r[a]) < IdOf(r[b]) {
          assert r[b] == rest[b - 1];
          if a > 0 {
            assert r[a] == rest[a - 1];
          }
        }
      }
    }
  }

  /** The current post's tags, if it exists and has any. */
  function CurrentTags(rows: seq<Row<Post>>, slug: string): Option<seq<string>> {
    match FirstWhere(rows, HasSlug(slug))
    case None => None
    case Some(cur) => if cur.doc.tags == [] then None else Some(cur.doc.tags)
  }

  /** The scored candidates before truncation: published posts other than the
      current one, with a positive overlap, best first. */
  function Ranked(rows: seq<Row<Post>>, slug: string, current: seq<string>): seq<Scored> {
    SortDesc(Positive(Scores(rows, slug, current)), ScoreOf)
  }

  function Limit(limit: Option<nat>): nat {
    if limit.Some? then limit.value else 3
  }

  /** `getRelatedPosts`. */
  function GetRelatedPosts(rows: seq<Row<Post>>, slug: string, limit: Option<nat>): (r: seq<RelatedPost>)
    ensures CurrentTags(rows, slug).None? ==> r == []
    ensures |r| <= Limit(limit)
  {
    match CurrentTags(rows, slug)
    case None => []
    case Some(current) =>
      var ranked := Ranked(rows, slug, current);
      var n := if Limit(limit) < |ranked| then Limit(limit) else |ranked|;
      seq(n, i requires 0 <= i < n => Related(ranked[i].row))
  }

  /** A post the ranking may return: published, not the current post, sharing a tag. */
  ghost predicate Eligible(row: Row<Post>, slug: string, current: seq<string>) {
    row.doc.published && row.doc.slug != slug && Overlap(row.doc.tags, current) > 0
  }

  /** The scored candidates, in index order, before any filtering by score. */
  function Scores(rows: seq<Row<Post>>, slug: string, current: seq<string>): seq<Scored> {
    var candidates := Where(Where(rows, Published), OtherThan(slug));
    seq(|candidates|, i requires 0 <= i < |candidates| =>
          Scored(candidates[i], Overlap(candidates[i].doc.tags, current)))
  }

  /** A candidate of the ranking is a stored published post other than the current one. */
  lemma CandidateOrigin(rows: seq<Row<Post>>, slug: string, c: Row<Post>)
    requires c in Where(Where(rows, Published), OtherThan(slug))
    ensures c in rows && c.doc.published && c.doc.slug != slug
  {
    var published := Where(rows, Published);
    var candidates := Where(published, OtherThan(slug));
    WhereMembers(published, OtherThan(slug));
    WhereMembers(rows, Published);
    var i :| 0 <= i < |candidates| && candidates[i] == c;
    assert c in published;
    var j :| 0 <= j < |published| && published[j] == c;
  }

  /** Every stored published post other than the current one is a candidate. */
  lemma CandidateOf(rows: seq<Row<Post>>, slug: string, k: nat)
    requires k < |rows| && rows[k].doc.published && rows[k].doc.slug != slug
    ensures rows[k] in Where(Where(rows, Published), OtherThan(slug))
  {
    var published := Where(rows, Published);
    WhereMembers(rows, Published);
    WhereMembers(published, OtherThan(slug));
    var j :| 0 <= j < |published| && published[j] == rows[k];
  }

  /** An entry of the ranking comes from the scored candidates and has a positive score. */
  lemma RankedOrigin(rows: seq<Row<Post>>, slug: string, current: seq<string>, x: Scored)
    requires x in Ranked(rows, slug, current)
    ensures x in Scores(rows, slug, current) && x.score > 0
  {
    var scored := Scores(rows, slug, current);
    var positive := Positive(scored);
    SortDescMembers(positive, ScoreOf);
    PositiveMembers(scored);
    var i :| 0 <= i < |Ranked(rows, slug, current)| && Ranked(rows, slug, current)[i] == x;
    assert x in positive;
    var j :| 0 <= j < |positive| && positive[j] == x;
  }

  /** A scored candidate carries its post's overlap. */
  lemma ScoredOrigin(rows: seq<Row<Post>>, slug: string, current: seq<string>, x: Scored)
    requires x in Scores(rows, slug, current)
    ensures x.row in Where(Where(rows, Published), OtherThan(slug))
    ensures x.score == Overlap(x.row.doc.tags, current)
  {
    var scored := Scores(rows, slug, current);
    var c :| 0 <= c < |scored| && scored[c] == x;
  }

  /** Every ranked entry is an eligible stored post with its overlap as score. */
  lemma {:induction false} RankedSound(rows: seq<Row<Post>>, slug: string, current: seq<string>)
    ensures var ranked := Ranked(rows, slug, current);
            forall i :: 0 <= i < |ranked| ==>
              ranked[i].row in rows && Eligible(ranked[i].row, slug, current) &&
              ranked[i].score == Overlap(ranked[i].row.doc.tags, current)
  {
    var ranked := Ranked(rows, slug, current);
    forall i | 0 <= i < |ranked|
      ensures ranked[i].row in rows && Eligible(ranked[i].row, slug, current) &&
              ranked[i].score == Overlap(ranked[i].row.doc.tags, current)
    {
      RankedOrigin(rows, slug, current, ranked[i]);
      ScoredOrigin(rows, slug, current, ranked[i]);
      CandidateOrigin(rows, slug, ranked[i].row);
    }
  }

  /** Each ranked entry's score is its post's overlap. */
  lemma RankedScores(rows: seq<Row<Post>>, slug: string, current: seq<string>)
    ensures var ranked := Ranked(rows, slug, current);
            forall i :: 0 <= i < |ranked| ==> ranked[i].score == Overlap(ranked[i].row.doc.tags, current)
  {
    var ranked := Ranked(rows, slug, current);
    forall i | 0 <= i < |ranked| ensures ranked[i].score == Overlap(ranked[i].row.doc.tags, current) {
      RankedOrigin(rows, slug, current, ranked[i]);
      ScoredOrigin(rows, slug, current, ranked[i]);
    }
  }

  /** The ranking is best first. */
  lemma RankedSorted(rows: seq<Row<Post>>, slug: string, current: seq<string>)
    ensures var ranked := Ranked(rows, slug, current);
            forall i, j :: 0 <= i < j < |ranked| ==> ranked[i].score >= ranked[j].score
  {
    var ranked := Ranked(rows, slug, current);
    assert SortedDesc(ranked, ScoreOf);
    forall i, j | 0 <= i < j < |ranked| ensures ranked[i].score >= ranked[j].score {
      assert ScoreOf(ranked[i]) >= ScoreOf(ranked[j]);
    }
  }

  /** Every eligible stored post is ranked, scored by its overlap. */
  lemma {:induction false} RankedComplete(rows: seq<Row<Post>>, slug: string, current: seq<string>, k: nat)
    requires k < |rows| && Eligible(rows[k], slug, current)
    ensures Scored(rows[k], Overlap(rows[k].doc.tags, current)) in Ranked(rows, slug, current)
  {
    var candidates := Where(Where(rows, Published), OtherThan(slug));
    var scored := Scores(rows, slug, current);
    var positive := Positive(scored);
    var x := Scored(rows[k], Overlap(rows[k].doc.tags, current));
    CandidateOf(rows, slug, k);
    var c :| 0 <= c < |candidates| && candidates[c] == rows[k];
    assert scored[c] == x;
    PositiveMembers(scored);
    assert x in positive;
    SortDescMembers(positive, ScoreOf);
    var p :| 0 <= p < |positive| && positive[p] == x;
    assert Ranked(rows, slug, current) == SortDesc(positive, ScoreOf);
  }

  /** The related posts are the first entries of the ranking, at most the limit. */
  lemma RelatedEntries(rows: seq<Row<Post>>, slug: string, limit: Option<nat>)
    requires CurrentTags(rows, slug).Some?
    ensures var ranked := Ranked(rows, slug, CurrentTags(rows, slug).value);
            var r := GetRelatedPosts(rows, slug, limit);
            |r| == (if Limit(limit) < |ranked| then Limit(limit) else |ranked|) &&
            forall i :: 0 <= i < |r| ==> r[i] == Related(ranked[i].row)
  {
  }

  /** `x` is the related-post entry of an eligible stored post. */
  ghost predicate RelatedFrom(rows: seq<Row<Post>>, slug: string, current: seq<string>, x: RelatedPost) {
    exists k :: 0 <= k < |rows| && x == Related(rows[k]) && Eligible(rows[k], slug, current)
  }

  /** Every related post is published, is not the queried post and shares at
      least one tag with it. */
  lemma {:induction false} RelatedPostsSound(rows: seq<Row<Post>>, slug: string, limit: Option<nat>)
    requires CurrentTags(rows, slug).Some?
    ensures var r := GetRelatedPosts(rows, slug, limit);
            forall i :: 0 <= i < |r| ==> RelatedFrom(rows, slug, CurrentTags(rows, slug).value, r[i])
  {
    var current := CurrentTags(rows, slug).value;
    var ranked := Ranked(rows, slug, current);
    var r := GetRelatedPosts(rows, slug, limit);
    RelatedEntries(rows, slug, limit);
    forall i | 0 <= i < |r| ensures RelatedFrom(rows, slug, current, r[i]) {
      var x := ranked[i];
      RankedOrigin(rows, slug, current, x);
      ScoredOrigin(rows, slug, current, x);
      CandidateOrigin(rows, slug, x.row);
      var k :| 0 <= k < |rows| && rows[k] == x.row;
      assert r[i] == Related(rows[k]) && Eligible(rows[k], slug, current);
    }
  }

  /** The related posts are ordered by overlap, best first. */
  lemma {:induction false} RelatedPostsOrdered(rows: seq<Row<Post>>, slug: string, limit: Option<nat>)
    requires CurrentTags(rows, slug).Some?
    ensures var r := GetRelatedPosts(rows, slug, limit);
            var current := CurrentTags(rows, slug).value;
            forall i, j :: 0 <= i < j < |r| ==> Overlap(r[i].tags, current) >= Overlap(r[j].tags, current)
  {
    var current := CurrentTags(rows, slug).value;
    var ranked := Ranked(rows, slug, current);
    RankedScores(rows, slug, current);
    RankedSorted(rows, slug, current);
    RelatedEntries(rows, slug, limit);
    var r := GetRelatedPosts(rows, slug, limit);
    forall i, j | 0 <= i < j < |r| ensures Overlap(r[i].tags, current) >= Overlap(r[j].tags, current) {
      assert r[i].tags == ranked[i].row.doc.tags && r[j].tags == ranked[j].row.doc.tags;
      assert ranked[i].score >= ranked[j].score;
    }
  }

  /** When the list stops before ranking position `m`, every listed post
      overlaps at least as much as the entry at `m`. */
  lemma RelatedAbove(rows: seq<Row<Post>>, slug: string, limit: Option<nat>, m: nat)
    requires CurrentTags(rows, slug).Some?
    requires m < |Ranked(rows, slug, CurrentTags(rows, slug).value)| && |GetRelatedPosts(rows, slug, limit)| <= m
    ensures var current := CurrentTags(rows, slug).value;
            var r := GetRelatedPosts(rows, slug, limit);
            forall i :: 0 <= i < |r| ==> Overlap(r[i].tags, current) >= Ranked(rows, slug, current)[m].score
  {
    var current := CurrentTags(rows, slug).value;
    var ranked := Ranked(rows, slug, current);
    RankedScores(rows, slug, current);
    RankedSorted(rows, slug, current);
    RelatedEntries(rows, slug, limit);
    var r := GetRelatedPosts(rows, slug, limit);
    forall i | 0 <= i < |r| ensures Overlap(r[i].tags, current) >= ranked[m].score {
      assert ranked[i].score >= ranked[m].score;
      assert r[i].tags == ranked[i].row.doc.tags;
    }
  }

  /** The ranking keeps the best posts: an eligible post is left out only when
      the list is full and every listed post overlaps at least as much. */
  lemma {:induction false} RelatedPostsComplete(rows: seq<Row<Post>>, slug: string, limit: Option<nat>, k: nat)
    requires CurrentTags(rows, slug).Some?
    requires k < |rows| && Eligible(rows[k], slug, CurrentTags(rows, slug).value)
    ensures var r := GetRelatedPosts(rows, slug, limit);
            var current := CurrentTags(rows, slug).value;
            Related(rows[k]) in r ||
            (|r| == Limit(limit) &&
             forall i :: 0 <= i < |r| ==> Overlap(r[i].tags, current) >= Overlap(rows[k].doc.tags, current))
  {
    var current := CurrentTags(rows, slug).value;
    var ranked := Ranked(rows, slug, current);
    RankedComplete(rows, slug, current, k);
    RankedScores(rows, slug, current);
    RelatedEntries(rows, slug, limit);
    var x := Scored(rows[k], Overlap(rows[k].doc.tags, current));
    var m :| 0 <= m < |ranked| && ranked[m] == x;
    var r := GetRelatedPosts(rows, slug, limit);
    if m < |r| {
      assert r[m] == Related(rows[k]);
    } else {
      assert |r| == Limit(limit);
      RelatedAbove(rows, slug, limit, m);
    }
  }


  /** Entries of the ranking with equal scores keep the stored order. */
  lemma RankedStable(rows: seq<Row<Post>>, nextId: nat, slug: string, current: seq<string>)
    requires WellFormed(rows, nextId)
    ensures var ranked := Ranked(rows, slug, current);
            forall i, j :: 0 <= i < j < |ranked| && ranked[i].score == ranked[j].score ==>
              ranked[i].row.id < ranked[j].row.id
  {
    var candidates := Where(Where(rows, Published), OtherThan(slug));
    WhereWellFormed(rows, nextId, Published);
    WhereWellFormed(Where(rows, Published), nextId, OtherThan(slug));
    var scored := Scores(rows, slug, current);
    forall a, b | 0 <= a < b < |scored| ensures IdOf(scored[a]) < IdOf(scored[b]) {
      assert scored[a].row == candidates[a] && scored[b].row == candidates[b];
    }
    PositiveOrdered(scored);
    SortDescKeepsOrder(Positive(scored), ScoreOf, IdOf);
    var ranked := Ranked(rows, slug, current);
    forall i, j | 0 <= i < j < |ranked| && ranked[i].score == ranked[j].score
      ensures ranked[i].row.id < ranked[j].row.id
    {
      assert ScoreOf(ranked[i]) == ScoreOf(ranked[j]);
      assert IdOf(ranked[i]) < IdOf(ranked[j]);
    }
  }

  /** Posts with equal overlap keep the order of the index scan, which is the
      order in which they were inserted. */
  lemma {:induction false} RelatedPostsStable(rows: seq<Row<Post>>, nextId: nat, slug: string, limit: Option<nat>)
    requires WellFormed(rows, nextId)
    requires CurrentTags(rows, slug).Some?
    ensures var r := GetRelatedPosts(rows, slug, limit);
            var current := CurrentTags(rows, slug).value;
            forall i, j :: 0 <= i < j < |r| && Overlap(r[i].tags, current) == Overlap(r[j].tags, current) ==>
              r[i].id < r[j].id
  {
    var current := CurrentTags(rows, slug).value;
    RankedStable(rows, nextId, slug, current);
    RelatedEntries(rows, slug, limit);
    RankedScores(rows, slug, current);
    var ranked := Ranked(rows, slug, current);
    var r := GetRelatedPosts(rows, slug, limit);
    forall i, j | 0 <= i < j < |r| && Overlap(r[i].tags, current) == Overlap(r[j].tags, current)
      ensures r[i].id < r[j].id
    {
      assert r[i] == Related(ranked[i].row) && r[j] == Related(ranked[j].row);
      assert ranked[i].score == ranked[j].score;
    }
  }

}
