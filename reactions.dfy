/** Emoji reactions on posts: one row per reaction a session gave a post,
    toggled on and off, and counted per emoji for display. */
module Reactions {
  import opened Db

  /** `ALLOWED_EMOJIS`: thumbs up, fire, light bulb, red heart (with the
      emoji presentation selector) and party popper, in this order. */
  const AllowedEmojis: seq<string> := ["\U{1F44D}", "\U{1F525}", "\U{1F4A1}", "\U{2764}\U{FE0F}", "\U{1F389}"]

  datatype Reaction = Reaction(slug: string, emoji: string, sessionId: string, timestamp: int)

  /** What identifies a reaction: who gave it, to which post, with which emoji. */
  datatype Key = Key(sessionId: string, slug: string, emoji: string)

  function KeyOf(r: Reaction): Key {
    Key(r.sessionId, r.slug, r.emoji)
  }

  /** The `by_slug` index condition. */
  function OnPost(slug: string): Reaction -> bool {
    (r: Reaction) => r.slug == slug
  }

  /** The `by_session_slug` index condition. */
  function BySessionOn(sessionId: string, slug: string): Reaction -> bool {
    (r: Reaction) => r.sessionId == sessionId && r.slug == slug
  }

  /** The `by_session_slug` index condition followed by the emoji filter. */
  function HasKey(k: Key): Reaction -> bool {
    (r: Reaction) => KeyOf(r) == k
  }

  function WithEmoji(emoji: string): Reaction -> bool {
    (r: Reaction) => r.emoji == emoji
  }

  // ---------------------------------------------------------------------------
  // getReactions

  datatype EmojiCount = EmojiCount(emoji: string, count: nat)

  /** `counts[emoji] || 0`. */
  function CountOr0(counts: map<string, nat>, emoji: string): nat {
    if emoji in counts then counts[emoji] else 0
  }

  /** `getReactions`: tallies the post's reactions by emoji, then reports each
      allowed emoji, in declared order, with its tally. */
  method GetReactions(rows: seq<Row<Reaction>>, slug: string) returns (r: seq<EmojiCount>)
    ensures |r| == |AllowedEmojis|
    ensures forall i :: 0 <= i < |r| ==>
              r[i].emoji == AllowedEmojis[i] &&
              r[i].count == CountWhere(Where(rows, OnPost(slug)), WithEmoji(AllowedEmojis[i]))
  {
    var reactions := Where(rows, OnPost(slug));
    var counts: map<string, nat> := map[];
    var i := 0;
    while i < |reactions|
      invariant 0 <= i <= |reactions|
      invariant forall e :: CountOr0(counts, e) == CountWhere(reactions[..i], WithEmoji(e))
    {
      var emoji := reactions[i].doc.emoji;
      forall e ensures CountWhere(reactions[..i + 1], WithEmoji(e)) ==
                       CountWhere(reactions[..i], WithEmoji(e)) + (if e == emoji then 1 else 0)
      {
        assert reactions[..i + 1] == reactions[..i] + [reactions[i]];
        CountSnoc(reactions[..i], reactions[i], WithEmoji(e));
      }
      counts := counts[emoji := CountOr0(counts, emoji) + 1];
      i := i + 1;
    }
    assert reactions[..i] == reactions;
    r := [];
    var j := 0;
    while j < |AllowedEmojis|
      invariant 0 <= j <= |AllowedEmojis| && |r| == j
      invariant forall m :: 0 <= m < j ==>
                  r[m].emoji == AllowedEmojis[m] &&
                  r[m].count == CountWhere(reactions, WithEmoji(AllowedEmojis[m]))
    {
      r := r + [EmojiCount(AllowedEmojis[j], CountOr0(counts, AllowedEmojis[j]))];
      j := j + 1;
    }
  }

  // ---------------------------------------------------------------------------
  // getUserReactions

  /** `getUserReactions`: the emoji of every reaction the session gave the
      post, in table order. */
  function GetUserReactions(rows: seq<Row<Reaction>>, slug: string, sessionId: string): (r: seq<string>)
    ensures |r| == |Where(rows, BySessionOn(sessionId, slug))|
  {
    var mine := Where(rows, BySessionOn(sessionId, slug));
    seq(|mine|, i requires 0 <= i < |mine| => mine[i].doc.emoji)
  }

  /** The session's reactions are exactly the emojis of its rows for the post. */
  lemma UserReactionsExact(rows: seq<Row<Reaction>>, slug: string, sessionId: string)
    ensures forall i :: 0 <= i < |GetUserReactions(rows, slug, sessionId)| ==>
              exists k :: 0 <= k < |rows| && rows[k].doc.sessionId == sessionId && rows[k].doc.slug == slug &&
                          GetUserReactions(rows, slug, sessionId)[i] == rows[k].doc.emoji
    ensures forall k :: 0 <= k < |rows| && rows[k].doc.sessionId == sessionId && rows[k].doc.slug == slug ==>
              rows[k].doc.emoji in GetUserReactions(rows, slug, sessionId)
  {
    var mine := Where(rows, BySessionOn(sessionId, slug));
    var r := GetUserReactions(rows, slug, sessionId);
    WhereMembers(rows, BySessionOn(sessionId, slug));
    forall i | 0 <= i < |r|
      ensures exists k :: 0 <= k < |rows| && rows[k].doc.sessionId == sessionId && rows[k].doc.slug == slug &&
                          r[i] == rows[k].doc.emoji
    {
      assert mine[i] in rows && BySessionOn(sessionId, slug)(mine[i].doc);
      var k :| 0 <= k < |rows| && rows[k] == mine[i];
    }
    forall k | 0 <= k < |rows| && rows[k].doc.sessionId == sessionId && rows[k].doc.slug == slug
      ensures rows[k].doc.emoji in r
    {
      assert BySessionOn(sessionId, slug)(rows[k].doc);
      var i :| 0 <= i < |mine| && mine[i] == rows[k];
      assert r[i] == rows[k].doc.emoji;
    }
  }

  // ---------------------------------------------------------------------------
  // toggleReaction

  /** The table after toggling reaction `k`: the first row with that key is
      deleted, or, when there is none, a row for it is appended. */
  function Toggled(rows: seq<Row<Reaction>>, nextId: nat, k: Key, now: int): seq<Row<Reaction>> {
    match FirstWhere(rows, HasKey(k))
    case Some(e) => Without(rows, e.id)
    case None => rows + [Row(nextId, Reaction(k.slug, k.emoji, k.sessionId, now))]
  }

  /** The next free id after toggling `k`. */
  function NextIdAfterToggle(rows: seq<Row<Reaction>>, nextId: nat, k: Key): nat {
    if FirstWhere(rows, HasKey(k)).Some? then nextId else nextId + 1
  }

  /** `toggleReaction`: throws "Invalid emoji" for an emoji outside the allow
      list; otherwise removes the session's reaction and answers false, or adds
      it and answers true. */
  method ToggleReaction(db: Table<Reaction>, slug: string, emoji: string, sessionId: string, now: int)
    returns (r: Result<bool>)
    requires db.Valid()
    modifies db
    ensures db.Valid()
    ensures emoji !in AllowedEmojis ==> r == Err("Invalid emoji") && unchanged(db)
    ensures emoji in AllowedEmojis ==>
              var k := Key(sessionId, slug, emoji);
              r == Ok(FirstWhere(old(db.rows), HasKey(k)).None?) &&
              db.rows == Toggled(old(db.rows), old(db.nextId), k, now) &&
              db.nextId == NextIdAfterToggle(old(db.rows), old(db.nextId), k)
  {
    if emoji !in AllowedEmojis {
      return Err("Invalid emoji");
    }
    var existing := db.First(HasKey(Key(sessionId, slug, emoji)));
    match existing
    case Some(e) =>
      db.Delete(e.id);
      r := Ok(false);
    case None =>
      var _ := db.Insert(Reaction(slug, emoji, sessionId, now));
      r := Ok(true);
  }

  /** Number of rows with key `k`. */
  function Copies(rows: seq<Row<Reaction>>, k: Key): nat {
    CountWhere(rows, HasKey(k))
  }

  /** A toggle flips whether key `k` is present: with at most one row for `k`
      before, there is one after exactly when there was none before. */
  lemma ToggleFlips(rows: seq<Row<Reaction>>, nextId: nat, k: Key, now: int)
    requires WellFormed(rows, nextId) && Copies(rows, k) <= 1
    ensures Copies(Toggled(rows, nextId, k, now), k) == 1 - Copies(rows, k)
    ensures FirstWhere(rows, HasKey(k)).None? <==> Copies(rows, k) == 0
  {
    var first := FirstWhere(rows, HasKey(k));
    if first.Some? {
      var j :| 0 <= j < |rows| && rows[j] == first.value && HasKey(k)(first.value.doc);
      CountWithoutAt(rows, nextId, j, HasKey(k));
    } else {
      CountSnoc(rows, Row(nextId, Reaction(k.slug, k.emoji, k.sessionId, now)), HasKey(k));
    }
  }

  /** A toggle leaves the rows of every other key exactly as they were. */
  lemma ToggleOthersUntouched(rows: seq<Row<Reaction>>, nextId: nat, k: Key, now: int, other: Key)
    requires WellFormed(rows, nextId) && other != k
    ensures Where(Toggled(rows, nextId, k, now), HasKey(other)) == Where(rows, HasKey(other))
  {
    var first := FirstWhere(rows, HasKey(k));
    if first.Some? {
      var j :| 0 <= j < |rows| && rows[j] == first.value && HasKey(k)(first.value.doc);
      WhereWithoutAt(rows, nextId, j, HasKey(other));
    } else {
      var x := Row(nextId, Reaction(k.slug, k.emoji, k.sessionId, now));
      WhereAppend(rows, [x], HasKey(other));
      assert Where([x], HasKey(other)) == [] by { assert [x][1..] == []; }
    }
  }

  /** At most one row per (session, post, emoji). */
  ghost predicate AtMostOnePerKey(rows: seq<Row<Reaction>>) {
    forall k :: Copies(rows, k) <= 1
  }

  /** Toggling keeps at most one row per key. */
  lemma ToggleKeepsAtMostOne(rows: seq<Row<Reaction>>, nextId: nat, k: Key, now: int)
    requires WellFormed(rows, nextId) && AtMostOnePerKey(rows)
    ensures AtMostOnePerKey(Toggled(rows, nextId, k, now))
  {
    var t := Toggled(rows, nextId, k, now);
    forall other ensures Copies(t, other) <= 1 {
      if other == k {
        assert Copies(rows, k) <= 1;
        ToggleFlips(rows, nextId, k, now);
      } else {
        assert Copies(rows, k) <= 1;
        ToggleOthersUntouched(rows, nextId, k, now, other);
        CountWhereOfWhere(t, HasKey(other));
        CountWhereOfWhere(rows, HasKey(other));
        assert Copies(rows, other) <= 1;
      }
    }
  }

  lemma {:induction false} CountWhereOfWhere(rows: seq<Row<Reaction>>, p: Reaction -> bool)
    ensures CountWhere(rows, p) == |Where(rows, p)|
  {
    if rows != [] {
      CountWhereOfWhere(rows[1..], p);
    }
  }

  /** The table keeps Valid ids through a toggle. */
  lemma ToggleWellFormed(rows: seq<Row<Reaction>>, nextId: nat, k: Key, now: int)
    requires WellFormed(rows, nextId)
    ensures WellFormed(Toggled(rows, nextId, k, now), NextIdAfterToggle(rows, nextId, k))
  {
    var first := FirstWhere(rows, HasKey(k));
    if first.Some? {
      WithoutWellFormed(rows, nextId, first.value.id);
    }
  }

  /** Two identical toggles answer opposite values and restore, for every
      key, the number of rows with it. */
  lemma ToggleTwice(rows: seq<Row<Reaction>>, nextId: nat, k: Key, now1: int, now2: int, other: Key)
    requires WellFormed(rows, nextId) && Copies(rows, k) <= 1
    ensures var once := Toggled(rows, nextId, k, now1);
            FirstWhere(once, HasKey(k)).None? == !FirstWhere(rows, HasKey(k)).None?
    ensures var once := Toggled(rows, nextId, k, now1);
            var twice := Toggled(once, NextIdAfterToggle(rows, nextId, k), k, now2);
            Copies(twice, other) == Copies(rows, other)
  {
    var once := Toggled(rows, nextId, k, now1);
    var n1 := NextIdAfterToggle(rows, nextId, k);
    ToggleWellFormed(rows, nextId, k, now1);
    ToggleFlips(rows, nextId, k, now1);
    ToggleFlips(once, n1, k, now2);
    if other != k {
      var twice := Toggled(once, n1, k, now2);
      ToggleOthersUntouched(rows, nextId, k, now1, other);
      ToggleOthersUntouched(once, n1, k, now2, other);
      CountWhereOfWhere(rows, HasKey(other));
      CountWhereOfWhere(twice, HasKey(other));
    }
  }
}
