/** The response cache (individual/lib/Database.cpp), with the clock as an argument. */
module Database {
  import opened Common
  import opened Numbers
  import opened Http

  /** Clock ticks in a second: the steady clock counts nanoseconds. */
  const TICKS := 1_000_000_000

  const CACHE_CONTROL: string := "Cache-Control"

  /** Unreadable: a max-age directive without a number, which the code does not guard against. */
  datatype Duration = Seconds(n: int) | Unreadable

  predicate StartsWith(s: string, prefix: string) {
    |prefix| <= |s| && s[..|prefix|] == prefix
  }

  /** The directives in order: private and no-store decide at once, otherwise the last max-age counts. */
  function DurationFrom(ds: seq<string>, ret: int): Duration
    decreases |ds|
  {
    if ds == [] then Seconds(ret)
    else if ds[0] == "private" || ds[0] == "no-store" then Seconds(0)
    else if StartsWith(ds[0], "max-age") then
      if |ds[0]| < 8 then Unreadable
      else match FromChars(ds[0][8..], 10)
        case None => Unreadable
        case Some(n) => DurationFrom(ds[1..], n)
    else DurationFrom(ds[1..], ret)
  }

  function CacheDuration(m: Message): Duration {
    match FirstValue(m.headers, CACHE_CONTROL)
    case None => Seconds(0)
    case Some(v) => DurationFrom(Directives(v), 0)
  }

  method ComputeCacheDuration(headers: HttpHeaders, ghost m: Message) returns (duration: int)
    requires headers.Valid() && headers.headers == m.headers && CacheDuration(m).Seconds?
    ensures Seconds(duration) == CacheDuration(m)
  {
    hide FromChars, Directives;
    var mbHeader := headers.Find(CACHE_CONTROL);
    if mbHeader == None {
      return 0;
    }
    var directives := SplitValue(mbHeader.value.value);
    duration := 0;
    for i := 0 to |directives|
      invariant DurationFrom(directives[i..], duration) == CacheDuration(m)
    {
      assert directives[i..][1..] == directives[i + 1..];
      var directive := directives[i];
      if directive == "private" || directive == "no-store" {
        return 0;
      }
      if StartsWith(directive, "max-age") {
        var age := FromChars(directive[8..], 10);
        duration := age.value;
      }
    }
  }

  /** What private and no-store mean: wherever they stand, nothing is cached. */
  lemma {:induction false} ForbiddenIsNeverCached(ds: seq<string>, ret: int)
    requires "private" in ds || "no-store" in ds
    ensures DurationFrom(ds, ret) == Seconds(0) || DurationFrom(ds, ret) == Unreadable
    decreases |ds|
  {
    hide FromChars;
    if ds[0] != "private" && ds[0] != "no-store" {
      if StartsWith(ds[0], "max-age") {
        if |ds[0]| >= 8 && FromChars(ds[0][8..], 10).Some? {
          ForbiddenIsNeverCached(ds[1..], FromChars(ds[0][8..], 10).value);
        }
      } else {
        ForbiddenIsNeverCached(ds[1..], ret);
      }
    }
  }

  /** Where nothing forbids caching, the last max-age decides, whatever came before it. */
  lemma {:induction false} LastMaxAgeCounts(ds: seq<string>, ret: int, n: int)
    requires "private" !in ds && "no-store" !in ds && DurationFrom(ds, ret).Seconds?
    requires INT_MIN <= n <= INT_MAX
    ensures DurationFrom(ds + ["max-age=" + ToString(n)], ret) == Seconds(n)
    decreases |ds|
  {
    hide FromChars, ToString;
    var last := "max-age=" + ToString(n);
    var all := ds + [last];
    if ds == [] {
      MaxAge(n);
      assert all == [last] && all[1..] == [];
    } else {
      assert all[0] == ds[0] && all[1..] == ds[1..] + [last];
      var next := if StartsWith(ds[0], "max-age") then FromChars(ds[0][8..], 10).value else ret;
      LastMaxAgeCounts(ds[1..], next, n);
    }
  }

  predicate IsForbidding(d: string) { d == "private" || d == "no-store" }

  predicate IsMaxAge(d: string) { |d| >= 7 && d[..7] == "max-age" }

  /** Directives of no other kind leave the duration as it is. */
  lemma {:induction false} OthersAreIgnored(ds: seq<string>, ret: int)
    requires forall d :: d in ds ==> !IsForbidding(d) && !IsMaxAge(d)
    ensures DurationFrom(ds, ret) == Seconds(ret)
    decreases |ds|
  {
    if ds != [] {
      assert !IsForbidding(ds[0]) && !IsMaxAge(ds[0]);
      OthersAreIgnored(ds[1..], ret);
    }
  }

  lemma {:induction false} DurationOn(a: seq<string>, b: seq<string>, ret: int)
    requires (forall d :: d in a ==> !IsForbidding(d)) && DurationFrom(a, ret).Seconds?
    ensures DurationFrom(a + b, ret) == DurationFrom(b, DurationFrom(a, ret).n)
    decreases |a|
  {
    hide FromChars;
    if a == [] {
      assert a + b == b;
    } else {
      var all := a + b;
      assert all[0] == a[0] && all[1..] == a[1..] + b;
      assert !IsForbidding(a[0]);
      var next := if StartsWith(a[0], "max-age") then FromChars(a[0][8..], 10).value else ret;
      DurationOn(a[1..], b, next);
    }
  }

  /** The max-age that no other follows decides, wherever it stands and whatever other directives,
      such as must-revalidate, stand around it. */
  lemma MaxAgeAmongOthers(a: seq<string>, n: int, b: seq<string>, ret: int)
    requires (forall d :: d in a ==> !IsForbidding(d)) && DurationFrom(a, ret).Seconds?
    requires forall d :: d in b ==> !IsForbidding(d) && !IsMaxAge(d)
    requires INT_MIN <= n <= INT_MAX
    ensures DurationFrom(a + ["max-age=" + ToString(n)] + b, ret) == Seconds(n)
  {
    hide FromChars, ToString, DurationFrom;
    var last := "max-age=" + ToString(n);
    LastMaxAgeCounts(a, ret, n);
    MaxAge(n);
    forall d | d in a + [last] ensures !IsForbidding(d) {}
    DurationOn(a + [last], b, ret);
    OthersAreIgnored(b, n);
  }

  lemma MaxAge(n: int)
    requires INT_MIN <= n <= INT_MAX
    ensures var d := "max-age=" + ToString(n);
      && d != "private" && d != "no-store" && StartsWith(d, "max-age") && |d| >= 8
      && FromChars(d[8..], 10) == Some(n)
  {
    hide FromChars, ToString;
    var d := "max-age=" + ToString(n);
    assert d[..7] == "max-age";
    assert d[8..] == ToString(n);
    assert d[0] == 'm';
    FromCharsToString(n);
  }

  /** The duration that the first Cache-Control states as a plain max-age; none without one. */
  lemma PlainMaxAge(m: Message, n: int)
    requires INT_MIN <= n <= INT_MAX
    ensures FirstValue(m.headers, "Cache-Control") == Some("max-age=" + ToString(n)) ==> CacheDuration(m) == Seconds(n)
    ensures FirstValue(m.headers, "Cache-Control") == None ==> CacheDuration(m) == Seconds(0)
  {
    hide Directives, DurationFrom, ToString;
    var d := "max-age=" + ToString(n);
    ToStringStart(n);
    DirectivesOfWord(d);
    NothingSaid();
    LastMaxAgeCounts([], 0, n);
    assert [] + [d] == [d];
  }

  lemma NothingSaid()
    ensures DurationFrom([], 0) == Seconds(0)
  {}

  datatype Entry = Entry(response: Message, expire: int)

  type Saved = map<string, Entry>

  /** Everything the cache has been asked to do. */
  datatype Event = Stored(url: string, response: Message, now: int) | Asked(url: string, now: int)

  function ExpireTime(response: Message, now: int): int
    requires CacheDuration(response).Seconds?
  {
    now + CacheDuration(response).n * TICKS
  }

  predicate Cacheable(response: Message) {
    CacheDuration(response).Seconds? && CacheDuration(response).n > 0
  }

  function Store(db: Saved, url: string, response: Message, now: int): Saved {
    if Cacheable(response) then db[url := Entry(response, ExpireTime(response, now))] else db
  }

  datatype Served = Served(db: Saved, response: Option<Message>)

  function Serve(db: Saved, url: string, now: int): Served {
    if url !in db then Served(db, None)
    else if db[url].expire < now then Served(db - {url}, None)
    else Served(db, Some(db[url].response))
  }

  function Happens(db: Saved, e: Event): Saved {
    match e
    case Stored(url, response, now) => Store(db, url, response, now)
    case Asked(url, now) => Serve(db, url, now).db
  }

  function RunEvents(history: seq<Event>): Saved {
    if history == [] then map[] else Happens(RunEvents(history[..|history| - 1]), history[|history| - 1])
  }

  // ----- what the cache means -----

  /** The most recent response stored for the URL with a positive duration. */
  function LastStored(history: seq<Event>, url: string): Option<Entry> {
    if history == [] then None
    else
      match history[|history| - 1]
      case Stored(u, response, now) =>
        if u == url && Cacheable(response) then Some(Entry(response, ExpireTime(response, now)))
        else LastStored(history[..|history| - 1], url)
      case Asked(_, _) => LastStored(history[..|history| - 1], url)
  }

  function Fresh(history: seq<Event>, url: string, now: int): Option<Message> {
    match LastStored(history, url)
    case None => None
    case Some(e) => if now <= e.expire then Some(e.response) else None
  }

  function TimeOf(e: Event): int { e.now }

  predicate NotBefore(history: seq<Event>, now: int) {
    forall i :: 0 <= i < |history| ==> TimeOf(history[i]) <= now
  }

  /** What is stored is the last response; what is missing is absent or expired for good. */
  predicate Agrees(db: Saved, history: seq<Event>, url: string) {
    if url in db then LastStored(history, url) == Some(db[url])
    else
      LastStored(history, url) == None ||
      exists i :: 0 <= i < |history| && LastStored(history, url).value.expire < TimeOf(history[i])
  }

  lemma LastStoredSnoc(history: seq<Event>, e: Event, url: string)
    ensures LastStored(history + [e], url) ==
            if e.Stored? && e.url == url && Cacheable(e.response)
            then Some(Entry(e.response, ExpireTime(e.response, e.now))) else LastStored(history, url)
  {
    assert (history + [e])[..|history|] == history;
  }

  lemma AgreesSnoc(db: Saved, history: seq<Event>, e: Event, url: string)
    requires Agrees(db, history, url)
    ensures Agrees(Happens(db, e), history + [e], url)
  {
    hide CacheDuration, LastStored;
    LastStoredSnoc(history, e, url);
    var all := history + [e];
    assert all[|history|] == e;
    if url !in db && LastStored(history, url).Some? {
      var i :| 0 <= i < |history| && LastStored(history, url).value.expire < TimeOf(history[i]);
      assert TimeOf(all[i]) == TimeOf(history[i]);
    }
    if e.Asked? && e.url == url && url in db && db[url].expire < e.now {
      assert TimeOf(all[|history|]) == e.now;
    }
  }

  lemma {:induction false} AgreesAlways(history: seq<Event>, url: string)
    ensures Agrees(RunEvents(history), history, url)
    decreases |history|
  {
    if history != [] {
      var before, e := history[..|history| - 1], history[|history| - 1];
      assert history == before + [e];
      AgreesAlways(before, url);
      AgreesSnoc(RunEvents(before), before, e, url);
    }
  }

  lemma ServeIsFresh(db: Saved, history: seq<Event>, url: string, now: int)
    requires Agrees(db, history, url) && NotBefore(history, now)
    ensures Serve(db, url, now).response == Fresh(history, url, now)
  {}

  /** With a clock that does not run backwards, the answer is the most recent storable response for
      the URL, exactly while it has not expired: when entries are erased cannot be observed. */
  lemma {:induction false} CacheRefinement(history: seq<Event>, url: string, now: int)
    requires NotBefore(history, now)
    ensures Serve(RunEvents(history), url, now).response == Fresh(history, url, now)
  {
    AgreesAlways(history, url);
    ServeIsFresh(RunEvents(history), history, url, now);
  }

  /** Whether e can replace what is cached under the URL. */
  predicate Replaces(e: Event, url: string) { e.Stored? && e.url == url && Cacheable(e.response) }

  lemma {:induction false} StillStored(before: seq<Event>, after: seq<Event>, url: string)
    requires forall e :: e in after ==> !Replaces(e, url)
    ensures LastStored(before + after, url) == LastStored(before, url)
    decreases |after|
  {
    hide Cacheable;
    if after == [] {
      assert before + after == before;
    } else {
      var init, e := after[..|after| - 1], after[|after| - 1];
      assert before + after == before + init + [e];
      assert e in after && !Replaces(e, url);
      forall x | x in init ensures !Replaces(x, url) {
        assert x in after;
      }
      StillStored(before, init, url);
      LastStoredSnoc(before + init, e, url);
    }
  }

  /** In seconds: a response with max-age n, stored at t, answers requests for its URL until n seconds
      later and not beyond, as long as no other storable response comes for that URL. */
  lemma FreshForMaxAge(before: seq<Event>, url: string, m: Message, n: int, t: int, after: seq<Event>, now: int)
    requires FirstValue(m.headers, "Cache-Control") == Some("max-age=" + ToString(n)) && 0 < n <= INT_MAX
    requires forall e :: e in after ==> !Replaces(e, url)
    ensures Fresh(before + [Stored(url, m, t)] + after, url, now) ==
            if now <= t + n * 1_000_000_000 then Some(m) else None
  {
    hide CacheDuration, LastStored;
    PlainMaxAge(m, n);
    LastStoredSnoc(before, Stored(url, m, t), url);
    StillStored(before + [Stored(url, m, t)], after, url);
  }

  /** A response that states no positive duration leaves the cache as it was. */
  lemma OnlyPositiveIsStored(before: seq<Event>, m: Message, url: string, t: int, asked: string)
    requires match CacheDuration(m) case Unreadable => true case Seconds(n) => n <= 0
    ensures Store(RunEvents(before), url, m, t) == RunEvents(before)
    ensures LastStored(before + [Stored(url, m, t)], asked) == LastStored(before, asked)
  {
    hide CacheDuration, LastStored;
    LastStoredSnoc(before, Stored(url, m, t), asked);
  }

  /** TDatabase, with the events it has seen. */
  class ResponseDatabase {
    var saved: Saved
    ghost var history: seq<Event>

    ghost predicate Valid()
      reads this
    {
      forall url :: Agrees(saved, history, url)
    }

    constructor ()
      ensures Valid() && history == [] && saved == map[]
    {
      saved := map[];
      history := [];
    }

    method ServeCached(url: string, now: int) returns (r: Option<Message>)
      requires Valid() && NotBefore(history, now)
      modifies this
      ensures Valid() && history == old(history) + [Asked(url, now)]
      ensures r == Fresh(old(history), url, now)
      ensures Served(saved, r) == Serve(old(saved), url, now)
    {
      Observe(Asked(url, now));
      ServeIsFresh(saved, history, url, now);
      history := history + [Asked(url, now)];
      r := None;
      if url in saved {
        if saved[url].expire < now {
          saved := saved - {url};
        } else {
          r := Some(saved[url].response);
        }
      }
      assert saved == Happens(old(saved), Asked(url, now));
    }

    method CacheResponse(url: string, response: Message, now: int)
      requires Valid() && CacheDuration(response).Seconds?
      modifies this
      ensures Valid() && history == old(history) + [Stored(url, response, now)]
      ensures saved == Store(old(saved), url, response, now)
    {
      Observe(Stored(url, response, now));
      var headers := new HttpHeaders(response.headers);
      var duration := ComputeCacheDuration(headers, response);
      history := history + [Stored(url, response, now)];
      if duration > 0 {
        saved := saved[url := Entry(response, now + duration * TICKS)];
      }
      assert saved == Happens(old(saved), Stored(url, response, now));
    }

    lemma Observe(e: Event)
      requires Valid()
      ensures forall url :: Agrees(Happens(saved, e), history + [e], url)
    {
      forall url ensures Agrees(Happens(saved, e), history + [e], url) {
        AgreesSnoc(saved, history, e, url);
      }
    }
  }
}
