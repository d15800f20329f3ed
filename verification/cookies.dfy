/** `connectWithCookie` and `updateCookie`: which of the two cookie stores
    a request reads and writes, and in what order, recorded as a trace of
    events over an immutable state. */
module Cookies {
  import opened Wrappers
  import opened Http
  import opened Preferences
  import Transport

  /** The shared `CookieManager` store: the `Cookie` value it returns for each URL. */
  type Jar = map<string, string>

  /** How the shared store folds one `Set-Cookie` line into the value it
      holds for a URL (`CookieManager`'s own parsing and merging). */
  type Merge = (Option<string>, string) -> string

  /** `CookieManager.getCookie(url)`; absent when it returns null. */
  function GetCookie(jar: Jar, url: string): (r: Option<string>)
    ensures r.Some? <==> url in jar
  {
    if url in jar then Some(jar[url]) else None
  }

  /** `CookieManager.setCookie(url, line)`. */
  function SetCookie(merge: Merge, jar: Jar, url: string, line: string): (r: Jar)
    ensures r.Keys == jar.Keys + {url}
    ensures GetCookie(r, url) == Some(merge(GetCookie(jar, url), line))
    ensures forall u :: u != url ==> GetCookie(r, u) == GetCookie(jar, u)
  {
    jar[url := merge(GetCookie(jar, url), line)]
  }

  /** The shared store, the preferences holding the fallback cookie, and
      `userManager.isUserUnlocked`. */
  datatype CookieState = CookieState(jar: Jar, prefs: Prefs, unlocked: bool)

  /** What a request does with the stores and the caller's `setup`, in order. */
  datatype Event =
    | ReadShared(url: string)
    | ReadFallback
    | AttachCookie(cookie: string)
    | Setup
    | WriteShared(url: string, line: string)
    | WriteFallback(saved: Option<string>)
    | FlushShared

  predicate TouchesShared(e: Event) {
    e.ReadShared? || e.WriteShared? || e.FlushShared?
  }

  predicate TouchesFallback(e: Event) {
    e.ReadFallback? || e.WriteFallback?
  }

  /** What the caller's `setup(conn)` did: it returned, leaving the
      connection with its response, or it threw. */
  datatype SetupOutcome = Completed(conn: Conn) | Threw

  /** How `connectWithCookie` can end in an exception: opening the
      connection threw, or the caller's `setup` threw. */
  datatype Failure = OpenFailed(error: Transport.OpenError) | SetupThrew

  /** `connectWithCookie`'s result: the connection or the exception that
      propagated, the stores afterwards and the trace. */
  datatype Request = Request(conn: Result<Conn, Failure>, state: CookieState, trace: seq<Event>)

  /** The cookie the current mode offers for `url`: the shared store's while
      unlocked, the single fallback (whatever the URL) while locked. */
  function CookieFor(st: CookieState, url: string): Option<string> {
    if st.unlocked then GetCookie(st.jar, url) else st.prefs.cookie
  }

  /** The attach step before `setup`: read the store the mode selects and,
      if it holds a cookie, add it as a `Cookie` request header. */
  function Attach(st: CookieState, url: string, conn: Conn): (r: (Conn, seq<Event>))
    ensures CookieFor(st, url).Some? ==>
              Values(r.0.requestHeaders, "Cookie") == Values(conn.requestHeaders, "Cookie") + [CookieFor(st, url).value]
    ensures CookieFor(st, url).None? ==> r.0 == conn
    ensures forall k :: k != "Cookie" ==> Values(r.0.requestHeaders, k) == Values(conn.requestHeaders, k)
    ensures r.0.(requestHeaders := conn.requestHeaders) == conn
    ensures st.unlocked ==> forall e :: e in r.1 ==> !TouchesFallback(e)
    ensures !st.unlocked ==> forall e :: e in r.1 ==> !TouchesShared(e)
    ensures forall e :: e in r.1 ==> !e.Setup? && !e.WriteShared? && !e.WriteFallback?
  {
    var read := if st.unlocked then ReadShared(url) else ReadFallback;
    match CookieFor(st, url)
    case Some(v) => (AddRequestProperty(conn, "Cookie", v), [read, AttachCookie(v)])
    case None => (conn, [read])
  }

  /** The `Set-Cookie` values of the response, none when the header is absent. */
  function SetCookieLines(c: Conn): seq<string> {
    Values(c.responseHeaders, "Set-Cookie")
  }

  /** The shared store after `lines` have been set for `url`, first to last. */
  function Harvested(merge: Merge, jar: Jar, url: string, lines: seq<string>): Jar {
    if |lines| == 0 then jar
    else SetCookie(merge, Harvested(merge, jar, url, lines[..|lines| - 1]), url, lines[|lines| - 1])
  }

  /** Harvesting for `url` changes what the store holds for `url` alone,
      and holds something for it once any line was set. */
  lemma {:induction false} HarvestOnlyTouchesUrl(merge: Merge, jar: Jar, url: string, lines: seq<string>)
    ensures forall u :: u != url ==> GetCookie(Harvested(merge, jar, url, lines), u) == GetCookie(jar, u)
    ensures |lines| > 0 ==> url in Harvested(merge, jar, url, lines)
    ensures Harvested(merge, jar, url, lines).Keys <= jar.Keys + {url}
  {
    if |lines| > 0 {
      HarvestOnlyTouchesUrl(merge, jar, url, lines[..|lines| - 1]);
    }
  }

  /** Writes every `Set-Cookie` value of the response back to the shared
      store for `url`, in order. */
  method Harvest(merge: Merge, jar: Jar, url: string, lines: seq<string>) returns (jar': Jar, events: seq<Event>)
    ensures jar' == Harvested(merge, jar, url, lines)
    ensures |events| == |lines|
    ensures forall i :: 0 <= i < |lines| ==> events[i] == WriteShared(url, lines[i])
  {
    jar' := jar;
    events := [];
    var i := 0;
    while i < |lines|
      invariant 0 <= i <= |lines|
      invariant jar' == Harvested(merge, jar, url, lines[..i])
      invariant |events| == i
      invariant forall j :: 0 <= j < i ==> events[j] == WriteShared(url, lines[j])
    {
      assert lines[..i + 1][..i] == lines[..i];
      jar' := SetCookie(merge, jar', url, lines[i]);
      events := events + [WriteShared(url, lines[i])];
      i := i + 1;
    }
    assert lines[..|lines|] == lines;
  }

  function CountSetup(t: seq<Event>): nat {
    if |t| == 0 then 0 else (if t[0].Setup? then 1 else 0) + CountSetup(t[1..])
  }

  /** Every cookie attach comes before `setup`, and every write-back after it. */
  predicate AttachSetupHarvest(t: seq<Event>) {
    forall i, j :: 0 <= i < |t| && 0 <= j < |t| && t[j].Setup? ==>
      (t[i].AttachCookie? ==> i < j) && (t[i].WriteShared? ==> j < i)
  }

  lemma {:induction false} CountSetupAppend(a: seq<Event>, b: seq<Event>)
    ensures CountSetup(a + b) == CountSetup(a) + CountSetup(b)
  {
    if |a| > 0 {
      assert (a + b)[1..] == a[1..] + b;
      CountSetupAppend(a[1..], b);
    } else {
      assert a + b == b;
    }
  }

  lemma {:induction false} CountSetupNone(t: seq<Event>)
    requires forall e :: e in t ==> !e.Setup?
    ensures CountSetup(t) == 0
  {
    if |t| > 0 {
      assert t[0] in t;
      assert forall e :: e in t[1..] ==> e in t;
      CountSetupNone(t[1..]);
    }
  }

  /** The part of `connectWithCookie` after the connection is open.
      Unlocked: the shared store's cookie is attached, `setup` runs once on
      the connection carrying it, and each `Set-Cookie` value is written
      back for `url`; the fallback is neither read nor written. Locked: the
      fallback cookie is attached and `setup` runs once; neither store is
      written. A throwing `setup` ends the request with nothing harvested. */
  method Exchange(merge: Merge, st: CookieState, url: string, conn: Conn, setup: Conn -> SetupOutcome)
    returns (r: Request)
    ensures var attached := Attach(st, url, conn).0;
            && (setup(attached).Threw? ==> r.conn == Err(SetupThrew) && r.state == st)
            && (setup(attached).Completed? ==> r.conn == Ok(setup(attached).conn))
            && (setup(attached).Completed? && st.unlocked ==>
                  r.state == st.(jar := Harvested(merge, st.jar, url, SetCookieLines(setup(attached).conn))))
    ensures CountSetup(r.trace) == 1
    ensures AttachSetupHarvest(r.trace)
    ensures st.unlocked ==> forall e :: e in r.trace ==> !TouchesFallback(e)
    ensures !st.unlocked ==> forall e :: e in r.trace ==> !TouchesShared(e)
    ensures !st.unlocked ==> r.state == st
    ensures r.state.prefs == st.prefs && r.state.unlocked == st.unlocked
  {
    var (attached, before) := Attach(st, url, conn);
    CountSetupNone(before);
    CountSetupAppend(before, [Setup]);
    var outcome := setup(attached);
    if outcome.Threw? {
      return Request(Err(SetupThrew), st, before + [Setup]);
    }
    var after := outcome.conn;
    if st.unlocked {
      var jar', writes := Harvest(merge, st.jar, url, SetCookieLines(after));
      assert forall e :: e in writes ==> e.WriteShared? by {
        forall e | e in writes ensures e.WriteShared? {
          var k :| 0 <= k < |writes| && writes[k] == e;
        }
      }
      CountSetupNone(writes);
      CountSetupAppend(before + [Setup], writes);
      r := Request(Ok(after), st.(jar := jar'), before + [Setup] + writes);
    } else {
      r := Request(Ok(after), st, before + [Setup]);
    }
  }

  /** `connectWithCookie(url, setup)`: when the connection cannot be opened
      the exception propagates before any store is read or `setup` runs;
      otherwise the request proceeds as `Exchange` describes, with `setup`
      run exactly once. */
  method ConnectWithCookie(platform: Transport.Platform, merge: Merge, st: CookieState,
                           url: string, parsed: Transport.ParsedUrl, setup: Conn -> SetupOutcome)
    returns (r: Request)
    ensures Transport.OpenConnection(platform, url, parsed).Err? ==>
              && r.conn == Err(OpenFailed(Transport.OpenConnection(platform, url, parsed).error))
              && r.state == st && r.trace == [] && CountSetup(r.trace) == 0
    ensures Transport.OpenConnection(platform, url, parsed).Ok? ==>
              var attached := Attach(st, url, Transport.OpenConnection(platform, url, parsed).value).0;
              && (setup(attached).Threw? ==> r.conn == Err(SetupThrew) && r.state == st)
              && (setup(attached).Completed? ==> r.conn == Ok(setup(attached).conn))
              && (setup(attached).Completed? && st.unlocked ==>
                    r.state == st.(jar := Harvested(merge, st.jar, url, SetCookieLines(setup(attached).conn))))
              && CountSetup(r.trace) == 1
    ensures AttachSetupHarvest(r.trace)
    ensures st.unlocked ==> forall e :: e in r.trace ==> !TouchesFallback(e)
    ensures !st.unlocked ==> forall e :: e in r.trace ==> !TouchesShared(e)
    ensures !st.unlocked ==> r.state == st
    ensures r.state.prefs == st.prefs && r.state.unlocked == st.unlocked
  {
    var openResult := Transport.OpenConnection(platform, url, parsed);
    if openResult.Err? {
      return Request(Err(OpenFailed(openResult.error)), st, []);
    }
    r := Exchange(merge, st, url, openResult.value, setup);
  }

  /** `updateCookie()`, given `apiUrl`: the shared store's cookie for the
      API URL becomes the fallback (removed when there is none), then the
      shared store is flushed; nothing else changes. */
  function UpdateCookie(st: CookieState, apiUrl: string): (r: (CookieState, seq<Event>))
    ensures r.0.prefs.cookie == GetCookie(st.jar, apiUrl)
    ensures r.0.prefs.brotli == st.prefs.brotli
    ensures r.0.jar == st.jar && r.0.unlocked == st.unlocked
    ensures r.1 == [ReadShared(apiUrl), WriteFallback(GetCookie(st.jar, apiUrl)), FlushShared]
  {
    var value := GetCookie(st.jar, apiUrl);
    (st.(prefs := st.prefs.(cookie := value)), [ReadShared(apiUrl), WriteFallback(value), FlushShared])
  }

  /** After `updateCookie`, a request made while locked carries exactly the
      cookie the shared store held for the API URL, whatever URL it targets,
      and no cookie at all when the store held none (the stale fallback was
      removed). */
  lemma LockedRequestCarriesSavedCookie(st: CookieState, apiUrl: string, url: string, conn: Conn)
    ensures var saved := UpdateCookie(st, apiUrl).0.(unlocked := false);
            Values(Attach(saved, url, conn).0.requestHeaders, "Cookie")
              == Values(conn.requestHeaders, "Cookie") + (if apiUrl in st.jar then [st.jar[apiUrl]] else [])
  {
  }
}
