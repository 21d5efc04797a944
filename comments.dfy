/** Comments on posts: listing, adding with validation, and deleting one's
    own comment. */
module Comments {
  import opened Db
  import opened Text

  datatype Comment = Comment(slug: string, author: string, content: string, sessionId: string, timestamp: int)

  /** Entry of `getComments`; ownership is left to the client. */
  datatype CommentView = CommentView(id: nat, author: string, content: string, timestamp: int, isOwn: bool)

  /** The `by_slug` index condition. */
  function OnPost(slug: string): Comment -> bool {
    (c: Comment) => c.slug == slug
  }

  function ViewOf(r: Row<Comment>): CommentView {
    CommentView(r.id, r.doc.author, r.doc.content, r.doc.timestamp, false)
  }

  /** `getComments`: the post's comments in ascending order. */
  function GetComments(rows: seq<Row<Comment>>, slug: string): (r: seq<CommentView>)
    ensures |r| == |Where(rows, OnPost(slug))|
    ensures forall i :: 0 <= i < |r| ==> !r[i].isOwn
  {
    var found := Where(rows, OnPost(slug));
    seq(|found|, i requires 0 <= i < |found| => ViewOf(found[i]))
  }

  /** The listing holds exactly the post's comments, oldest first. */
  lemma GetCommentsExact(rows: seq<Row<Comment>>, nextId: nat, slug: string)
    requires WellFormed(rows, nextId)
    ensures forall i :: 0 <= i < |GetComments(rows, slug)| ==>
              exists k :: 0 <= k < |rows| && rows[k].doc.slug == slug && GetComments(rows, slug)[i] == ViewOf(rows[k])
    ensures forall k :: 0 <= k < |rows| && rows[k].doc.slug == slug ==> ViewOf(rows[k]) in GetComments(rows, slug)
    ensures forall i, j :: 0 <= i < j < |GetComments(rows, slug)| ==>
              GetComments(rows, slug)[i].id < GetComments(rows, slug)[j].id
  {
    var found := Where(rows, OnPost(slug));
    var r := GetComments(rows, slug);
    WhereMembers(rows, OnPost(slug));
    WhereWellFormed(rows, nextId, OnPost(slug));
    forall i | 0 <= i < |r|
      ensures exists k :: 0 <= k < |rows| && rows[k].doc.slug == slug && r[i] == ViewOf(rows[k])
    {
      assert found[i] in rows && OnPost(slug)(found[i].doc);
      var k :| 0 <= k < |rows| && rows[k] == found[i];
    }
    forall k | 0 <= k < |rows| && rows[k].doc.slug == slug ensures ViewOf(rows[k]) in r {
      assert OnPost(slug)(rows[k].doc);
      var i :| 0 <= i < |found| && found[i] == rows[k];
      assert r[i] == ViewOf(rows[k]);
    }
  }

  const Required := "Author and content are required"
  const AuthorTooLong := "Author name too long"
  const CommentTooLong := "Comment too long"

  /** The checks of `addComment`, in order: author and content must not be
      blank, then the raw author may have at most 50 characters and the raw
      content at most 2000. */
  function CommentError(author: string, content: string): (r: Option<string>)
    ensures r == Some(Required) <==> AllSpace(author) || AllSpace(content)
    ensures r == Some(AuthorTooLong) <==> !AllSpace(author) && !AllSpace(content) && |author| > 50
    ensures r == Some(CommentTooLong) <==>
              !AllSpace(author) && !AllSpace(content) && |author| <= 50 && |content| > 2000
    ensures r.None? <==> !AllSpace(author) && !AllSpace(content) && |author| <= 50 && |content| <= 2000
  {
    TrimEmpty(author);
    TrimEmpty(content);
    if Trim(author) == [] || Trim(content) == [] then Some(Required)
    else if |author| > 50 then Some(AuthorTooLong)
    else if |content| > 2000 then Some(CommentTooLong)
    else None
  }

  /** `addComment`: validates, then stores the trimmed author and content and
      returns the new comment's id. */
  method AddComment(db: Table<Comment>, slug: string, author: string, content: string, sessionId: string, now: int)
    returns (r: Result<nat>)
    requires db.Valid()
    modifies db
    ensures db.Valid()
    ensures r.Err? <==> CommentError(author, content).Some?
    ensures r.Err? ==> r.message == CommentError(author, content).value && unchanged(db)
    ensures r.Ok? ==> r.value == old(db.nextId) &&
                      db.rows == old(db.rows) + [Row(r.value, Comment(slug, Trim(author), Trim(content), sessionId, now))]
  {
    var error := CommentError(author, content);
    if error.Some? {
      return Err(error.value);
    }
    var id := db.Insert(Comment(slug, Trim(author), Trim(content), sessionId, now));
    r := Ok(id);
  }

  const NotOwner := "Cannot delete other's comments"

  /** `deleteComment`: false for a missing comment, an error for somebody
      else's, and true after deleting one's own. */
  method DeleteComment(db: Table<Comment>, id: nat, sessionId: string) returns (r: Result<bool>)
    requires db.Valid()
    modifies db
    ensures db.Valid()
    ensures Lookup(old(db.rows), id).None? ==> r == Ok(false) && unchanged(db)
    ensures Lookup(old(db.rows), id).Some? && Lookup(old(db.rows), id).value.sessionId != sessionId ==>
              r == Err(NotOwner) && unchanged(db)
    ensures Lookup(old(db.rows), id).Some? && Lookup(old(db.rows), id).value.sessionId == sessionId ==>
              r == Ok(true) && db.rows == Without(old(db.rows), id) && |db.rows| == |old(db.rows)| - 1
  {
    var comment := db.Get(id);
    if comment.None? {
      return Ok(false);
    }
    if comment.value.sessionId != sessionId {
      return Err(NotOwner);
    }
    db.Delete(id);
    r := Ok(true);
  }

  /** What deleting comment `k` does to the listings: every other post's
      listing is unchanged, and its own post's listing loses exactly that
      comment. */
  lemma DeleteListing(rows: seq<Row<Comment>>, nextId: nat, k: nat, slug: string)
    requires WellFormed(rows, nextId) && k < |rows|
    ensures rows[k].doc.slug != slug ==> GetComments(Without(rows, rows[k].id), slug) == GetComments(rows, slug)
    ensures rows[k].doc.slug == slug ==>
              |GetComments(Without(rows, rows[k].id), slug)| == |GetComments(rows, slug)| - 1 &&
              ViewOf(rows[k]) in GetComments(rows, slug) &&
              ViewOf(rows[k]) !in GetComments(Without(rows, rows[k].id), slug)
  {
    var p := OnPost(slug);
    if rows[k].doc.slug != slug {
      WhereWithoutAt(rows, nextId, k, p);
    } else {
      var a, b := rows[..k], rows[k + 1..];
      WithoutAt(rows, nextId, k);
      SplitAt(rows, k);
      WhereAppend(a + [rows[k]], b, p);
      WhereAppend(a, [rows[k]], p);
      WhereAppend(a, b, p);
      assert Where([rows[k]], p) == [rows[k]];
      GetCommentsExact(rows, nextId, slug);
      var after := Without(rows, rows[k].id);
      WithoutMembers(rows, rows[k].id);
      WhereMembers(after, p);
      var found := Where(after, p);
      forall i | 0 <= i < |found| ensures GetComments(after, slug)[i].id != rows[k].id {
        assert found[i] in after;
      }
    }
  }

  /** Deleting a comment right after adding it restores the table. */
  lemma AddThenDelete(rows: seq<Row<Comment>>, nextId: nat, c: Comment)
    requires WellFormed(rows, nextId)
    ensures Without(rows + [Row(nextId, c)], nextId) == rows
  {
    WithoutAppend(rows, [Row(nextId, c)], nextId);
    WithoutAbsent(rows, nextId);
    assert [Row(nextId, c)][1..] == [];
  }
}
