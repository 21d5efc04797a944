/** Newsletter subscriptions: e-mail validation, normalisation, a duplicate
    check, and the count of confirmed subscribers. */
module Newsletter {
  import opened Db
  import opened Text

  datatype Subscriber = Subscriber(email: string, subscribedAt: int, confirmed: bool)

  /** The `{ success, message }` object `subscribe` returns. */
  datatype Reply = Reply(success: bool, message: string)

  const InvalidEmail := "Invalid email address"
  const AlreadySubscribed := "Already subscribed"
  const Subscribed := "Successfully subscribed!"

  /** One `[^\s@]+` run of the pattern: non-empty, no white space, no '@'. */
  ghost predicate Plain(x: string) {
    |x| > 0 && forall k :: 0 <= k < |x| ==> !IsSpace(x[k]) && x[k] != '@'
  }

  /** What `^[^\s@]+@[^\s@]+\.[^\s@]+$` matches: a run, '@', a run, '.', a run. */
  ghost predicate EmailShape(s: string) {
    exists i, j :: 0 <= i < j < |s| && s[i] == '@' && s[j] == '.' &&
                   Plain(s[..i]) && Plain(s[i + 1..j]) && Plain(s[j + 1..])
  }

  /** The first position of `c` in `s`. */
  function IndexOf(s: string, c: char): (r: Option<nat>)
    ensures r.None? <==> c !in s
    ensures r.Some? ==> r.value < |s| && s[r.value] == c && c !in s[..r.value]
  {
    if s == [] then None
    else if s[0] == c then Some(0)
    else
      match IndexOf(s[1..], c)
      case None => None
      case Some(i) =>
        assert s[..i + 1] == [s[0]] + s[1..][..i];
        Some(i + 1)
  }

  /** The pattern test, one scan at a time: no white space anywhere, exactly
      one '@' and not first, and a '.' in the part after it that is neither
      that part's first nor its last character. */
  predicate Scan(s: string) {
    NoSpace(s) &&
    match IndexOf(s, '@')
    case None => false
    case Some(i) => 0 < i && '@' !in s[i + 1..] && i + 3 <= |s| && '.' in s[i + 2..|s| - 1]
  }

  /** The scan accepts exactly what the pattern matches. */
  lemma ScanMatchesPattern(s: string)
    ensures Scan(s) <==> EmailShape(s)
  {
    if Scan(s) {
      ShapeOfValid(s);
    } else if EmailShape(s) {
      ValidOfShape(s);
    }
  }

  /** `emailRegex.test(email)`: the scan, which accepts exactly the strings
      `^[^\s@]+@[^\s@]+\.[^\s@]+$` matches. */
  predicate ValidEmail(s: string)
    ensures ValidEmail(s) <==> EmailShape(s)
  {
    ScanMatchesPattern(s);
    Scan(s)
  }

  lemma ShapeOfValid(s: string)
    requires Scan(s)
    ensures EmailShape(s)
  {
    var i := IndexOf(s, '@').value;
    var m :| 0 <= m < |s[i + 2..|s| - 1]| && s[i + 2..|s| - 1][m] == '.';
    var j := i + 2 + m;
    assert s[j] == '.';
    NoAtElsewhere(s, i);
    PlainSlice(s, 0, i);
    PlainSlice(s, i + 1, j);
    PlainSlice(s, j + 1, |s|);
    assert s[0..i] == s[..i] && s[j + 1..|s|] == s[j + 1..];
  }

  /** The first '@', with none after it, is the only one. */
  lemma NoAtElsewhere(s: string, i: nat)
    requires IndexOf(s, '@') == Some(i) && '@' !in s[i + 1..]
    ensures forall k :: 0 <= k < |s| && k != i ==> s[k] != '@'
  {
    forall k | 0 <= k < |s| && k != i ensures s[k] != '@' {
      if k < i { assert s[..i][k] == s[k]; } else { assert s[i + 1..][k - i - 1] == s[k]; }
    }
  }

  /** A non-empty slice of a string without white space, avoiding the '@'s, is a run. */
  lemma PlainSlice(s: string, lo: nat, hi: nat)
    requires lo < hi <= |s| && NoSpace(s)
    requires forall k :: lo <= k < hi ==> s[k] != '@'
    ensures Plain(s[lo..hi])
  {
    var x := s[lo..hi];
    forall k | 0 <= k < |x| ensures !IsSpace(x[k]) && x[k] != '@' {
      assert x[k] == s[lo + k];
    }
  }

  lemma ValidOfShape(s: string)
    requires EmailShape(s)
    ensures Scan(s)
  {
    var i, j :| 0 <= i < j < |s| && s[i] == '@' && s[j] == '.' &&
                Plain(s[..i]) && Plain(s[i + 1..j]) && Plain(s[j + 1..]);
    forall k | 0 <= k < |s| ensures !IsSpace(s[k]) && (s[k] == '@' ==> k == i) {
      if k < i { assert s[..i][k] == s[k]; }
      else if i < k < j { assert s[i + 1..j][k - i - 1] == s[k]; }
      else if j < k { assert s[j + 1..][k - j - 1] == s[k]; }
    }
    assert '@' in s;
    var at := IndexOf(s, '@').value;
    assert at == i;
    assert s[i + 2..|s| - 1][j - i - 2] == '.';
  }

  /** `email.toLowerCase().trim()`. */
  function Normalize(email: string): (r: string)
    ensures |r| <= |email|
    ensures NoCapital(r)
    ensures r == [] || (!IsSpace(r[0]) && !IsSpace(r[|r| - 1]))
  {
    var r := Trim(ToLower(email));
    LowerTrimmed(email);
    r
  }

  /** An address that passes the test has no white space, so the trim does
      nothing and the stored key is the lowercased input. */
  lemma NormalizeValid(email: string)
    requires ValidEmail(email)
    ensures Normalize(email) == ToLower(email)
  {
    forall k | 0 <= k < |email| ensures !IsSpace(ToLower(email)[k]) {
      LowerCharKeepsClass(email[k]);
    }
    TrimNoSpace(ToLower(email));
  }

  /** The test runs on the raw input: an address followed by white space is
      refused even though its trimmed form would pass. */
  lemma TrailingSpaceRefused(email: string, c: char)
    requires IsSpace(c)
    ensures !ValidEmail(email + [c])
  {
    assert (email + [c])[|email|] == c;
  }

  /** The test only looks at white space, '@' and '.', which lowercasing keeps,
      so an address passes exactly when its lowercased form does. */
  lemma ValidEmailCaseBlind(s: string)
    ensures ValidEmail(ToLower(s)) == ValidEmail(s)
  {
    var t := ToLower(s);
    forall k | 0 <= k < |s|
      ensures IsSpace(t[k]) == IsSpace(s[k]) && (t[k] == '@') == (s[k] == '@') && (t[k] == '.') == (s[k] == '.')
    {
      LowerCharKeepsClass(s[k]);
    }
    if EmailShape(s) {
      var i, j :| 0 <= i < j < |s| && s[i] == '@' && s[j] == '.' &&
                  Plain(s[..i]) && Plain(s[i + 1..j]) && Plain(s[j + 1..]);
      SameShape(s, t, i, j);
    }
    if EmailShape(t) {
      var i, j :| 0 <= i < j < |t| && t[i] == '@' && t[j] == '.' &&
                  Plain(t[..i]) && Plain(t[i + 1..j]) && Plain(t[j + 1..]);
      SameShape(t, s, i, j);
    }
  }

  /** Two strings that agree on white space, '@' and '.' split the same way. */
  lemma SameShape(s: string, t: string, i: nat, j: nat)
    requires |s| == |t|
    requires forall k :: 0 <= k < |s| ==>
               IsSpace(t[k]) == IsSpace(s[k]) && (t[k] == '@') == (s[k] == '@') && (t[k] == '.') == (s[k] == '.')
    requires i < j < |s| && s[i] == '@' && s[j] == '.' && Plain(s[..i]) && Plain(s[i + 1..j]) && Plain(s[j + 1..])
    ensures EmailShape(t)
  {
    SamePlain(s, t, 0, i);
    SamePlain(s, t, i + 1, j);
    SamePlain(s, t, j + 1, |s|);
    assert s[0..i] == s[..i] && t[0..i] == t[..i];
    assert s[j + 1..|s|] == s[j + 1..] && t[j + 1..|t|] == t[j + 1..];
  }

  lemma SamePlain(s: string, t: string, lo: nat, hi: nat)
    requires |s| == |t| && lo <= hi <= |s|
    requires forall k :: 0 <= k < |s| ==> IsSpace(t[k]) == IsSpace(s[k]) && (t[k] == '@') == (s[k] == '@')
    requires Plain(s[lo..hi])
    ensures Plain(t[lo..hi])
  {
    var x, y := s[lo..hi], t[lo..hi];
    forall k | 0 <= k < |y| ensures !IsSpace(y[k]) && y[k] != '@' {
      assert x[k] == s[lo + k] && y[k] == t[lo + k];
    }
  }

  /** The `by_email` index condition. */
  function ByEmail(email: string): Subscriber -> bool {
    (s: Subscriber) => s.email == email
  }

  /** What `subscribe` answers. */
  function Outcome(rows: seq<Row<Subscriber>>, email: string): Reply {
    if !ValidEmail(email) then Reply(false, InvalidEmail)
    else if FirstWhere(rows, ByEmail(Normalize(email))).Some? then Reply(false, AlreadySubscribed)
    else Reply(true, Subscribed)
  }

  /** The table after `subscribe`: one confirmed row on success, else as it was. */
  function AfterSubscribe(rows: seq<Row<Subscriber>>, nextId: nat, email: string, now: int): seq<Row<Subscriber>> {
    if Outcome(rows, email).success then rows + [Row(nextId, Subscriber(Normalize(email), now, true))] else rows
  }

  /** `subscribe`. */
  method Subscribe(db: Table<Subscriber>, email: string, now: int) returns (r: Reply)
    requires db.Valid()
    modifies db
    ensures db.Valid()
    ensures r == Outcome(old(db.rows), email)
    ensures db.rows == AfterSubscribe(old(db.rows), old(db.nextId), email, now)
    ensures !r.success ==> unchanged(db)
  {
    if !ValidEmail(email) {
      return Reply(false, InvalidEmail);
    }
    var normalized := Normalize(email);
    var existing := db.First(ByEmail(normalized));
    if existing.Some? {
      return Reply(false, AlreadySubscribed);
    }
    var _ := db.Insert(Subscriber(normalized, now, true));
    r := Reply(true, Subscribed);
  }

  /** The three answers, by the input and the table: refused when the
      pattern fails, a duplicate when some row holds the normalised address,
      and success otherwise. */
  lemma OutcomeCases(rows: seq<Row<Subscriber>>, email: string)
    ensures Outcome(rows, email) == Reply(false, InvalidEmail) <==> !EmailShape(email)
    ensures Outcome(rows, email) == Reply(false, AlreadySubscribed) <==>
              EmailShape(email) && exists k :: 0 <= k < |rows| && rows[k].doc.email == Normalize(email)
    ensures Outcome(rows, email).success <==>
              EmailShape(email) && forall k :: 0 <= k < |rows| ==> rows[k].doc.email != Normalize(email)
  {
    KnownAddress(rows, Normalize(email));
    assert AlreadySubscribed != InvalidEmail by { assert |AlreadySubscribed| != |InvalidEmail|; }
  }

  /** The duplicate check finds a row exactly when some row holds the address. */
  lemma KnownAddress(rows: seq<Row<Subscriber>>, email: string)
    ensures FirstWhere(rows, ByEmail(email)).Some? <==> exists k :: 0 <= k < |rows| && rows[k].doc.email == email
  {
    if FirstWhere(rows, ByEmail(email)).Some? {
      var k :| 0 <= k < |rows| && ByEmail(email)(rows[k].doc);
    } else {
      assert forall k :: 0 <= k < |rows| ==> !ByEmail(email)(rows[k].doc);
    }
  }

  /** No two rows hold the same address. */
  ghost predicate EmailsUnique(rows: seq<Row<Subscriber>>) {
    forall i, j :: 0 <= i < j < |rows| ==> rows[i].doc.email != rows[j].doc.email
  }

  /** `subscribe` keeps addresses unique. */
  lemma SubscribeKeepsUnique(rows: seq<Row<Subscriber>>, nextId: nat, email: string, now: int)
    requires EmailsUnique(rows)
    ensures EmailsUnique(AfterSubscribe(rows, nextId, email, now))
  {
    if Outcome(rows, email).success {
      assert forall k :: 0 <= k < |rows| ==> !ByEmail(Normalize(email))(rows[k].doc);
    }
  }

  /** Once an address is subscribed, subscribing it again in any letter case
      is answered "Already subscribed" and changes nothing. */
  lemma ResubscribeAnyCase(rows: seq<Row<Subscriber>>, nextId: nat, email: string, again: string, now: int, later: int)
    requires Outcome(rows, email).success && ToLower(again) == ToLower(email)
    ensures Outcome(AfterSubscribe(rows, nextId, email, now), again) == Reply(false, AlreadySubscribed)
    ensures AfterSubscribe(AfterSubscribe(rows, nextId, email, now), nextId + 1, again, later) ==
            AfterSubscribe(rows, nextId, email, now)
  {
    var after := AfterSubscribe(rows, nextId, email, now);
    ValidEmailCaseBlind(email);
    ValidEmailCaseBlind(again);
    assert after[|rows|].doc.email == Normalize(again);
    OutcomeCases(after, again);
  }

  /** `getSubscriberCount`: the number of confirmed rows. */
  function Confirmed(s: Subscriber): bool {
    s.confirmed
  }

  /** `getSubscriberCount`: the number of confirmed subscribers. */
  function GetSubscriberCount(rows: seq<Row<Subscriber>>): (n: nat)
    ensures n <= |rows|
    ensures n == 0 <==> forall i :: 0 <= i < |rows| ==> !rows[i].doc.confirmed
  {
    CountWhere(rows, Confirmed)
  }

  /** The count rises by one exactly on a successful `subscribe`. */
  lemma SubscriberCountRises(rows: seq<Row<Subscriber>>, nextId: nat, email: string, now: int)
    ensures GetSubscriberCount(AfterSubscribe(rows, nextId, email, now)) ==
            GetSubscriberCount(rows) + (if Outcome(rows, email).success then 1 else 0)
  {
    if Outcome(rows, email).success {
      CountSnoc(rows, Row(nextId, Subscriber(Normalize(email), now, true)), Confirmed);
    }
  }
}
