/** The client-side page tracker: an anonymous session id kept in local
    storage, page-view records sent when the path changes, and heartbeats
    debounced through state shared by every tracker on the page. */
module PageTracking {
  import opened Db

  /** A value `(Math.random() * 16) | 0` can produce. */
  newtype Nibble = x: int | 0 <= x < 16

  /** Where `Math.random` is drawn: the value for each position of the template. */
  type Random = nat -> Nibble

  const HexDigits := "0123456789abcdef"

  /** The `xxxxxxxx-xxxx-4xxx-yxxx-xxxxxxxxxxxx` template, position by position. */
  function TemplateChar(i: nat): char {
    if i == 8 || i == 13 || i == 18 || i == 23 then '-'
    else if i == 14 then '4'
    else if i == 19 then 'y'
    else 'x'
  }

  const Template: string := seq(36, i requires 0 <= i => TemplateChar(i))

  lemma TemplateIsLiteral()
    ensures Template == "xxxxxxxx-xxxx-4xxx-yxxx-xxxxxxxxxxxx"
  {
  }

  /** `(r & 0x3) | 0x8`: the variant nibble, one of 8, 9, a or b. */
  function VariantNibble(r: Nibble): (v: Nibble)
    ensures 8 <= v <= 11 && v as int % 4 == r as int % 4
  {
    (((r as int as bv4) & 0x3) | 0x8) as int as Nibble
  }

  /** What the replacement callback returns for one template character. */
  function Fill(c: char, r: Nibble): char {
    if c == 'x' then HexDigits[r] else if c == 'y' then HexDigits[VariantNibble(r)] else c
  }

  /** `generateSessionId`, given the random draws. */
  function GenerateSessionId(random: Random): (id: string)
    ensures |id| == 36
    ensures id[8] == '-' && id[13] == '-' && id[18] == '-' && id[23] == '-' && id[14] == '4'
  {
    seq(|Template|, i requires 0 <= i < |Template| => Fill(Template[i], random(i)))
  }

  /** The shape of a generated id: 36 characters, hyphens at 8, 13, 18 and 23,
      '4' at 14, one of 8, 9, a, b at 19, and lowercase hex digits elsewhere. */
  predicate IsSessionId(s: string) {
    |s| == 36 &&
    forall i :: 0 <= i < 36 ==>
      if i == 8 || i == 13 || i == 18 || i == 23 then s[i] == '-'
      else if i == 14 then s[i] == '4'
      else if i == 19 then s[i] in "89ab"
      else s[i] in HexDigits
  }

  /** Every id `generateSessionId` returns has the shape. */
  lemma GeneratedIsSessionId(random: Random)
    ensures IsSessionId(GenerateSessionId(random))
  {
    var s := GenerateSessionId(random);
    forall i | 0 <= i < 36
      ensures if i == 8 || i == 13 || i == 18 || i == 23 then s[i] == '-'
              else if i == 14 then s[i] == '4'
              else if i == 19 then s[i] in "89ab"
              else s[i] in HexDigits
    {
      assert Template[i] == TemplateChar(i);
      assert s[i] == Fill(TemplateChar(i), random(i));
      if TemplateChar(i) == 'x' {
        assert HexDigits[random(i)] in HexDigits;
      }
      if i == 19 {
        var v := VariantNibble(random(i));
        assert s[i] == HexDigits[v];
        assert HexDigits[v] in "89ab" by {
          if v == 8 { assert HexDigits[8] == "89ab"[0]; }
          else if v == 9 { assert HexDigits[9] == "89ab"[1]; }
          else if v == 10 { assert HexDigits[10] == "89ab"[2]; }
          else { assert HexDigits[11] == "89ab"[3]; }
        }
      }
    }
  }

  /** The value of a lowercase hex digit. */
  function HexValue(c: char): (v: Nibble)
    requires c in HexDigits
    ensures HexDigits[v] == c
  {
    if '0' <= c <= '9' then (c as int - '0' as int) as Nibble
    else if c == 'a' then 10 else if c == 'b' then 11 else if c == 'c' then 12
    else if c == 'd' then 13 else if c == 'e' then 14 else 15
  }

  /** A variant digit is a hex digit whose value the variant mask keeps. */
  lemma VariantDigit(c: char)
    requires c in "89ab"
    ensures c in HexDigits && VariantNibble(HexValue(c)) == HexValue(c)
  {
    assert c == '8' || c == '9' || c == 'a' || c == 'b';
  }

  /** Conversely, every string of that shape is an id some draws produce. */
  lemma SessionIdGenerated(s: string)
    requires IsSessionId(s)
    ensures exists random: Random :: GenerateSessionId(random) == s
  {
    var random: Random := (i: nat) => if i < |s| && s[i] in HexDigits then HexValue(s[i]) else 0;
    var g := GenerateSessionId(random);
    forall i | 0 <= i < 36 ensures g[i] == s[i] {
      assert Template[i] == TemplateChar(i);
      assert g[i] == Fill(TemplateChar(i), random(i));
      if i == 19 {
        VariantDigit(s[i]);
      }
    }
    assert g == s;
  }

  const SessionIdKey := "markdown_blog_session_id"

  /** The id `getSessionId` returns: outside the browser a fresh one; in the
      browser the stored one unless it is missing or empty. */
  function SessionIdFor(browser: bool, stored: Option<string>, random: Random): string {
    if browser && stored.Some? && stored.value != [] then stored.value else GenerateSessionId(random)
  }

  /** The `markdown_blog_session_id` entry after `getSessionId`. */
  function StoredAfter(browser: bool, stored: Option<string>, random: Random): Option<string> {
    if browser then Some(SessionIdFor(browser, stored, random)) else stored
  }

  /** Local storage as far as the tracker uses it: its session-id entry. */
  class SessionStore {
    const browser: bool
    var stored: Option<string>

    constructor (browser: bool, stored: Option<string>)
      ensures this.browser == browser && this.stored == stored
    {
      this.browser := browser;
      this.stored := stored;
    }

    /** `getSessionId`. */
    method GetSessionId(random: Random) returns (id: string)
      modifies this
      ensures id == SessionIdFor(browser, old(stored), random)
      ensures stored == StoredAfter(browser, old(stored), random)
    {
      if !browser {
        return GenerateSessionId(random);
      }
      if stored.None? || stored.value == [] {
        id := GenerateSessionId(random);
        stored := Some(id);
      } else {
        id := stored.value;
      }
    }
  }

  /** In the browser, once `getSessionId` has run, every later call returns
      the same id, whatever the draws. */
  lemma SessionIdStable(stored: Option<string>, random: Random, later: Random)
    ensures SessionIdFor(true, StoredAfter(true, stored, random), later) == SessionIdFor(true, stored, random)
    ensures StoredAfter(true, StoredAfter(true, stored, random), later) == StoredAfter(true, stored, random)
  {
    GeneratedIsSessionId(random);
  }

  /** `getPageType`. */
  function GetPageType(path: string): (r: string)
    ensures r == "home" <==> path == "/" || path == ""
    ensures r == "stats" <==> path == "/stats"
    ensures r == "page" <==> path != "/" && path != "" && path != "/stats"
  {
    if path == "/" || path == "" then "home"
    else if path == "/stats" then "stats"
    else "page"
  }

  const HeartbeatIntervalMs := 30 * 1000
  const HeartbeatDebounceMs := 5 * 1000

  /** The debounce state shared by all trackers. */
  datatype Beats = Beats(pending: bool, lastTime: int, lastPath: Option<string>)

  /** `sendHeartbeat` does nothing while one is in flight, or when the same
      path fired less than five seconds ago. */
  predicate Skips(b: Beats, path: string, now: int) {
    b.pending || (b.lastPath == Some(path) && now - b.lastTime < HeartbeatDebounceMs)
  }

  /** The state once `sendHeartbeat` has decided. */
  function Begin(b: Beats, path: string, now: int): Beats {
    if Skips(b, path, now) then b else Beats(true, now, Some(path))
  }

  /** The state once the heartbeat call has settled, successfully or not. */
  function Finish(b: Beats): Beats {
    b.(pending := false)
  }

  /** A heartbeat interval: the path it reports, its period, and the tracker
      that armed it, whose `sendHeartbeat` its callback calls. */
  datatype Timer = Timer(path: string, periodMs: nat, owner: Tracker)

  /** The module-level variables behind every tracker. */
  class Heartbeat {
    var pending: bool
    var lastTime: int
    var lastPath: Option<string>
    var interval: Option<Timer>

    function State(): Beats
      reads this
    {
      Beats(pending, lastTime, lastPath)
    }

    constructor ()
      ensures State() == Beats(false, 0, None) && interval == None
    {
      pending := false;
      lastTime := 0;
      lastPath := None;
      interval := None;
    }

    /** The `finally` of `sendHeartbeat`: the call has settled. */
    method Settle()
      modifies this
      ensures State() == Finish(old(State())) && interval == old(interval)
    {
      pending := false;
    }
  }

  /** A call to `recordPageView`. */
  datatype PageView = PageView(path: string, pageType: string, sessionId: string)

  /** A call to `heartbeat`. */
  datatype Beat = Beat(sessionId: string, currentPath: string)

  /** What `createPageTracker` returns, with the calls it has made so far. */
  class Tracker {
    var lastRecordedPath: Option<string>
    var views: seq<PageView>
    var beats: seq<Beat>
    const heart: Heartbeat
    const store: SessionStore

    constructor (heart: Heartbeat, store: SessionStore)
      ensures this.heart == heart && this.store == store
      ensures lastRecordedPath == None && views == [] && beats == []
    {
      this.heart := heart;
      this.store := store;
      lastRecordedPath := None;
      views := [];
      beats := [];
    }

    /** `sendHeartbeat(path)` up to the call: a skipped heartbeat changes no
        heartbeat state; a fired one marks itself pending at `now` for `path`. */
    method SendHeartbeat(path: string, now: int, random: Random) returns (fired: bool)
      modifies this, heart, store
      ensures fired <==> !Skips(old(heart.State()), path, now)
      ensures heart.State() == Begin(old(heart.State()), path, now) && heart.interval == old(heart.interval)
      ensures store.stored == StoredAfter(store.browser, old(store.stored), random)
      ensures beats == old(beats) + if fired then [Beat(SessionIdFor(store.browser, old(store.stored), random), path)] else []
      ensures views == old(views) && lastRecordedPath == old(lastRecordedPath)
    {
      var sessionId := store.GetSessionId(random);
      if heart.pending {
        return false;
      }
      if heart.lastPath == Some(path) && now - heart.lastTime < HeartbeatDebounceMs {
        return false;
      }
      heart.pending := true;
      heart.lastTime := now;
      heart.lastPath := Some(path);
      beats := beats + [Beat(sessionId, path)];
      fired := true;
    }

    /** `track(path)`: records a view when the path changed, sends a
        heartbeat, and replaces the armed interval with one for `path`. */
    method Track(path: string, now: int, random: Random, beatRandom: Random)
      modifies this, heart, store
      ensures lastRecordedPath == Some(path)
      ensures views == old(views) +
                if old(lastRecordedPath) != Some(path)
                then [PageView(path, GetPageType(path), SessionIdFor(store.browser, old(store.stored), random))]
                else []
      ensures heart.State() == Begin(old(heart.State()), path, now)
      ensures heart.interval == Some(Timer(path, HeartbeatIntervalMs, this))
      ensures beats == old(beats) +
                if !Skips(old(heart.State()), path, now)
                then [Beat(SessionIdFor(store.browser, StoredAfter(store.browser, old(store.stored), random), beatRandom), path)]
                else []
      ensures store.stored == StoredAfter(store.browser, StoredAfter(store.browser, old(store.stored), random), beatRandom)
    {
      var sessionId := store.GetSessionId(random);
      if lastRecordedPath != Some(path) {
        lastRecordedPath := Some(path);
        views := views + [PageView(path, GetPageType(path), sessionId)];
      }
      var _ := SendHeartbeat(path, now, beatRandom);
      if heart.interval.Some? {
        heart.interval := None;
      }
      heart.interval := Some(Timer(path, HeartbeatIntervalMs, this));
    }

    /** One tick of the interval this tracker armed: a heartbeat for its path. */
    method Tick(now: int, random: Random) returns (fired: bool)
      requires heart.interval.Some? && heart.interval.value.owner == this
      modifies this, heart, store
      ensures fired <==> !Skips(old(heart.State()), old(heart.interval).value.path, now)
      ensures heart.State() == Begin(old(heart.State()), old(heart.interval).value.path, now)
      ensures heart.interval == old(heart.interval)
      ensures beats == old(beats) +
                if fired then [Beat(SessionIdFor(store.browser, old(store.stored), random), old(heart.interval).value.path)] else []
      ensures store.stored == StoredAfter(store.browser, old(store.stored), random)
      ensures views == old(views) && lastRecordedPath == old(lastRecordedPath)
    {
      fired := SendHeartbeat(heart.interval.value.path, now, random);
    }

    /** `cleanup`: disarms the interval; a second call changes nothing. */
    method Cleanup()
      modifies heart
      ensures heart.interval == None && heart.State() == old(heart.State())
      ensures old(heart.interval) == None ==> unchanged(heart)
    {
      if heart.interval.Some? {
        heart.interval := None;
      }
    }
  }

  /** What happens to the shared heartbeat state: a `sendHeartbeat` at some
      time for some path, or an in-flight call settling. */
  datatype Event = Send(path: string, now: int) | Settled

  /** A heartbeat that went out. */
  datatype Fired = Fired(path: string, now: int)

  function Step(b: Beats, e: Event): Beats {
    match e
    case Send(path, now) => Begin(b, path, now)
    case Settled => Finish(b)
  }

  function FiredBy(b: Beats, e: Event): seq<Fired> {
    match e
    case Send(path, now) => if Skips(b, path, now) then [] else [Fired(path, now)]
    case Settled => []
  }

  /** The heartbeats a run of events sends, in order. */
  function Fires(b: Beats, events: seq<Event>): seq<Fired>
    decreases |events|
  {
    if events == [] then [] else FiredBy(b, events[0]) + Fires(Step(b, events[0]), events[1..])
  }

  /** The first heartbeat of a run repeats the last path only after the debounce. */
  lemma {:induction false} FirstFireSpaced(b: Beats, events: seq<Event>)
    requires Fires(b, events) != [] && b.lastPath == Some(Fires(b, events)[0].path)
    ensures Fires(b, events)[0].now >= b.lastTime + HeartbeatDebounceMs
    decreases |events|
  {
    if FiredBy(b, events[0]) == [] {
      var b' := Step(b, events[0]);
      assert b'.lastPath == b.lastPath && b'.lastTime == b.lastTime;
      FirstFireSpaced(b', events[1..]);
    }
  }

  /** Whatever the order of calls and completions, two consecutive heartbeats
      for the same path are at least five seconds apart. */
  lemma {:induction false} HeartbeatsSpaced(b: Beats, events: seq<Event>)
    ensures forall i :: 0 <= i < |Fires(b, events)| - 1 && Fires(b, events)[i].path == Fires(b, events)[i + 1].path ==>
              Fires(b, events)[i + 1].now >= Fires(b, events)[i].now + HeartbeatDebounceMs
    decreases |events|
  {
    if events != [] {
      var b' := Step(b, events[0]);
      var rest := Fires(b', events[1..]);
      HeartbeatsSpaced(b', events[1..]);
      var first := FiredBy(b, events[0]);
      assert Fires(b, events) == first + rest;
      if first != [] && rest != [] && first[0].path == rest[0].path {
        FirstFireSpaced(b', events[1..]);
      }
    }
  }

  predicate NoneSettled(events: seq<Event>) {
    forall i :: 0 <= i < |events| ==> events[i].Send?
  }

  /** While no call settles, at most one heartbeat goes out, and none while
      one is already pending. */
  lemma {:induction false} OneInFlight(b: Beats, events: seq<Event>)
    requires NoneSettled(events)
    ensures |Fires(b, events)| <= if b.pending then 0 else 1
    decreases |events|
  {
    if events != [] {
      var b' := Step(b, events[0]);
      assert NoneSettled(events[1..]) by {
        forall i | 0 <= i < |events[1..]| ensures events[1..][i].Send? { assert events[1..][i] == events[i + 1]; }
      }
      OneInFlight(b', events[1..]);
    }
  }
}
