/** Highlights: a passage of a post, marked by offsets, with a comment and an
    author, listed per post and deletable by the session that made it. */
module Highlights {
  import opened Db
  import opened Text

  datatype Highlight = Highlight(
    slug: string, text: string, comment: string, author: string,
    startOffset: int, endOffset: int, sessionId: string, timestamp: int)

  /** Entry of `getHighlights`. */
  datatype HighlightView = HighlightView(
    id: nat, text: string, comment: string, author: string,
    startOffset: int, endOffset: int, timestamp: int)

  /** The `by_slug` index condition. */
  function OnPost(slug: string): Highlight -> bool {
    (h: Highlight) => h.slug == slug
  }

  function ViewOf(r: Row<Highlight>): HighlightView {
    HighlightView(r.id, r.doc.text, r.doc.comment, r.doc.author, r.doc.startOffset, r.doc.endOffset, r.doc.timestamp)
  }

  /** `getHighlights`: the post's highlights in ascending order. */
  function GetHighlights(rows: seq<Row<Highlight>>, slug: string): (r: seq<HighlightView>)
    ensures |r| == |Where(rows, OnPost(slug))|
  {
    var found := Where(rows, OnPost(slug));
    seq(|found|, i requires 0 <= i < |found| => ViewOf(found[i]))
  }

  /** The listing holds exactly the post's highlights, fields unchanged, oldest first. */
  lemma GetHighlightsExact(rows: seq<Row<Highlight>>, nextId: nat, slug: string)
    requires WellFormed(rows, nextId)
    ensures forall i :: 0 <= i < |GetHighlights(rows, slug)| ==>
              exists k :: 0 <= k < |rows| && rows[k].doc.slug == slug && GetHighlights(rows, slug)[i] == ViewOf(rows[k])
    ensures forall k :: 0 <= k < |rows| && rows[k].doc.slug == slug ==> ViewOf(rows[k]) in GetHighlights(rows, slug)
    ensures forall i, j :: 0 <= i < j < |GetHighlights(rows, slug)| ==>
              GetHighlights(rows, slug)[i].id < GetHighlights(rows, slug)[j].id
  {
    var found := Where(rows, OnPost(slug));
    var r := GetHighlights(rows, slug);
    WhereMembers(rows, OnPost(slug));
    WhereWellFormed(rows, nextId, OnPost(slug));
    forall i | 0 <= i < |r|
      ensures exists k :: 0 <= k < |rows| && rows[k].doc.slug == slug && r[i] == ViewOf(rows[k])
    {
      assert found[i] in rows && OnPost(slug)(found[i].doc);
      var k :| 0 <= k < |rows| && rows[k] == found[i];
    }
    forall k | 0 <= k < |rows| && rows[k].doc.slug == slug ensures ViewOf(rows[k]) in r {
      assert OnPost(slug)(rows[k].doc);
      var i :| 0 <= i < |found| && found[i] == rows[k];
      assert r[i] == ViewOf(rows[k]);
    }
  }

  const Required := "Text and comment are required"
  const Anonymous := "Anonymous"

  /** The only check of `addHighlight`: text and comment must not be blank.
      There is no length limit and no check of the offsets. */
  function HighlightError(text: string, comment: string): (r: Option<string>)
    ensures r.Some? <==> AllSpace(text) || AllSpace(comment)
    ensures r.Some? ==> r.value == Required
  {
    TrimEmpty(text);
    TrimEmpty(comment);
    if Trim(text) == [] || Trim(comment) == [] then Some(Required) else None
  }

  /** `args.author.trim() || "Anonymous"`. */
  function StoredAuthor(author: string): (r: string)
    ensures AllSpace(author) ==> r == Anonymous
    ensures !AllSpace(author) ==> r == Trim(author) && r != [] && !IsSpace(r[0]) && !IsSpace(r[|r| - 1])
  {
    var t := Trim(author);
    TrimEmpty(author);
    if t == [] then Anonymous else t
  }

  /** `addHighlight`: validates, then stores the trimmed text and comment, the
      author or "Anonymous", and the offsets and session as given. */
  method AddHighlight(db: Table<Highlight>, slug: string, text: string, comment: string, author: string,
                      startOffset: int, endOffset: int, sessionId: string, now: int)
    returns (r: Result<nat>)
    requires db.Valid()
    modifies db
    ensures db.Valid()
    ensures r.Err? <==> HighlightError(text, comment).Some?
    ensures r.Err? ==> r.message == Required && unchanged(db)
    ensures r.Ok? ==> r.value == old(db.nextId) &&
                      db.rows == old(db.rows) + [Row(r.value, Highlight(slug, Trim(text), Trim(comment),
                                   StoredAuthor(author), startOffset, endOffset, sessionId, now))]
  {
    var error := HighlightError(text, comment);
    if error.Some? {
      return Err(error.value);
    }
    var id := db.Insert(Highlight(slug, Trim(text), Trim(comment), StoredAuthor(author),
                                  startOffset, endOffset, sessionId, now));
    r := Ok(id);
  }

  /** `deleteHighlight`: false, without error and without change, for a
      missing highlight or somebody else's; true after deleting one's own. */
  method DeleteHighlight(db: Table<Highlight>, id: nat, sessionId: string) returns (r: bool)
    requires db.Valid()
    modifies db
    ensures db.Valid()
    ensures r <==> Lookup(old(db.rows), id).Some? && Lookup(old(db.rows), id).value.sessionId == sessionId
    ensures !r ==> unchanged(db)
    ensures r ==> db.rows == Without(old(db.rows), id) && |db.rows| == |old(db.rows)| - 1
  {
    var highlight := db.Get(id);
    if highlight.None? || highlight.value.sessionId != sessionId {
      return false;
    }
    db.Delete(id);
    r := true;
  }

  /** A deletion by the owner removes exactly that highlight and keeps every other. */
  lemma OwnerDeleteRemovesOnly(rows: seq<Row<Highlight>>, nextId: nat, k: nat)
    requires WellFormed(rows, nextId) && k < |rows|
    ensures forall x :: x in Without(rows, rows[k].id) <==> x in rows && x != rows[k]
  {
    WithoutMembers(rows, rows[k].id);
    forall x | x in rows && x.id == rows[k].id ensures x == rows[k] {
      var j :| 0 <= j < |rows| && rows[j] == x;
    }
  }
}
