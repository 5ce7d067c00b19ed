/** The Chaptarr client's catalogue snapshot: which base URL the books in memory and in the
    store came from, when calls do and do not overlap a change of configuration. */
module SnapshotCache {
  import opened Wrappers

  /** A crawled catalogue, and the base URL it was crawled from. */
  datatype Snapshot = Snapshot(origin: string, books: seq<string>, refreshedAt: int)

  /** Rows by scope. The scope is a hash of the base URL, taken to be injective: the URL
      stands for it. */
  type Rows = map<string, Snapshot>

  function TrimSlashes(url: string): (r: string)
    ensures r <= url && (r != "" ==> r[|r| - 1] != '/')
  {
    if url != "" && url[|url| - 1] == '/' then TrimSlashes(url[..|url| - 1]) else url
  }

  predicate Slashes(s: string) {
    forall i | 0 <= i < |s| :: s[i] == '/'
  }

  lemma {:induction false} SlashesGo(url: string, slashes: string)
    requires (url != "" ==> url[|url| - 1] != '/') && Slashes(slashes)
    ensures TrimSlashes(url + slashes) == url
    decreases |slashes|
  {
    var all := url + slashes;
    if slashes == "" {
      assert all == url;
    } else {
      assert all[..|all| - 1] == url + slashes[..|slashes| - 1];
      SlashesGo(url, slashes[..|slashes| - 1]);
    }
  }

  /** Trailing slashes of a base URL go and nothing else does. */
  lemma {:induction false} OnlySlashesGo(url: string)
    ensures url == TrimSlashes(url) + url[|TrimSlashes(url)|..] && Slashes(url[|TrimSlashes(url)|..])
    ensures TrimSlashes(url) != "" ==> TrimSlashes(url)[|TrimSlashes(url)| - 1] != '/'
    decreases |url|
  {
    if url != "" && url[|url| - 1] == '/' {
      var init, base := url[..|url| - 1], TrimSlashes(url);
      OnlySlashesGo(init);
      assert url[|base|..] == init[|base|..] + "/";
    }
  }

  /** cacheScopeLocked. */
  function Scope(baseURL: string, apiKey: string): Option<string> {
    if baseURL == "" || apiKey == "" then None else Some(baseURL)
  }

  /** Every row was crawled from the URL it is stored for. */
  predicate RowsMatch(rows: Rows) {
    forall url | url in rows :: rows[url].origin == url
  }

  // ---------------------------------------------------------------------------
  // The client, one call at a time
  // ---------------------------------------------------------------------------

  /** The chaptarr_catalog_cache table; a call that fails changes nothing. */
  class Store {
    var rows: Rows

    constructor ()
      ensures rows == map[]
    {
      rows := map[];
    }

    method Load(scope: string, works: bool) returns (found: Option<Snapshot>)
      ensures found == if works && scope in rows then Some(rows[scope]) else None
    {
      found := None;
      if works && scope in rows {
        found := Some(rows[scope]);
      }
    }

    method Save(scope: string, s: Snapshot, works: bool) returns (ok: bool)
      modifies this
      ensures ok == works && rows == if ok then old(rows)[scope := s] else old(rows)
    {
      if works {
        rows := rows[scope := s];
      }
      return works;
    }

    method Clear(scope: string, works: bool) returns (ok: bool)
      modifies this
      ensures ok == works && rows == if ok then old(rows) - {scope} else old(rows)
    {
      if works {
        rows := rows - {scope};
      }
      return works;
    }
  }

  /** What loading from these rows leaves in memory. */
  function Restorable(rows: Rows, scope: Option<string>, works: bool): Option<Snapshot> {
    if scope.Some? && works && scope.value in rows then Some(rows[scope.value]) else None
  }

  class Client {
    var enabled: bool
    var baseURL: string
    var apiKey: string
    var cached: Option<Snapshot>
    var store: Store?

    /** A snapshot in memory was crawled from the configured base URL. */
    ghost predicate Valid()
      reads this, store
    {
      && (cached.Some? ==> cached.value.origin == baseURL)
      && (store != null ==> RowsMatch(store.rows))
    }

    constructor (on: bool, url: string, key: string)
      ensures Valid() && cached == None && store == null
      ensures enabled == on && baseURL == TrimSlashes(url) && apiKey == key
    {
      enabled, baseURL, apiKey, cached, store := on, TrimSlashes(url), key, None, null;
    }

    method SetCacheStore(st: Store?, loads: bool)
      requires Valid() && (st != null ==> RowsMatch(st.rows))
      modifies this
      ensures Valid() && store == st && enabled == old(enabled) && baseURL == old(baseURL) && apiKey == old(apiKey)
      ensures cached ==
        if st != null && Restorable(st.rows, Scope(baseURL, apiKey), loads).Some?
        then Restorable(st.rows, Scope(baseURL, apiKey), loads) else old(cached)
    {
      store := st;
      var scope := Scope(baseURL, apiKey);
      if st == null || scope == None {
        return;
      }
      var found := st.Load(scope.value, loads);
      if found.Some? {
        cached := found;
      }
    }

    /** Nothing crawled from the old URL stays in memory. The old URL's row is cleared when
        the scope changes, and unless that fails the new URL's row comes back. */
    method SetConfig(on: bool, url: string, key: string, clears: bool, loads: bool)
      requires Valid()
      modifies this, store
      ensures Valid() && store == old(store)
      ensures enabled == on && baseURL == TrimSlashes(url) && apiKey == key
      ensures var from, to := Scope(old(baseURL), old(apiKey)), Scope(baseURL, apiKey);
              && (store == null ==> cached == None)
              && (store != null ==>
                    && store.rows ==
                       (if from.Some? && from != to && clears then old(store.rows) - {from.value} else old(store.rows))
                    && cached ==
                       if from.Some? && from != to && !clears then None else Restorable(old(store.rows), to, loads))
    {
      var oldScope := Scope(baseURL, apiKey);
      enabled, baseURL, apiKey, cached := on, TrimSlashes(url), key, None;
      var newScope := Scope(baseURL, apiKey);
      if store != null && oldScope.Some? && oldScope != newScope {
        var cleared := store.Clear(oldScope.value, clears);
        if !cleared {
          return;
        }
      }
      if store != null && newScope.Some? {
        var found := store.Load(newScope.value, loads);
        if found.Some? {
          cached := found;
        }
      }
    }

    /** crawl is what listing the catalogue of a base URL yields, None for an error. A
        failed crawl or save leaves the old snapshot. */
    method RefreshBooks(crawl: string -> Option<seq<string>>, now: int, saves: bool) returns (ok: bool)
      requires Valid()
      modifies this`cached, store
      ensures Valid()
      ensures var scope := Scope(baseURL, apiKey);
              && (ok <==> crawl(baseURL).Some? && (store != null && scope.Some? ==> saves))
              && cached == (if ok then Some(Snapshot(baseURL, crawl(baseURL).value, now)) else old(cached))
              && (store != null ==>
                    store.rows ==
                      if ok && scope.Some? then old(store.rows)[scope.value := cached.value] else old(store.rows))
    {
      var books := crawl(baseURL);
      if books.None? {
        return false;
      }
      var s := Snapshot(baseURL, books.value, now);
      var scope := Scope(baseURL, apiKey);
      if store != null && scope.Some? {
        var saved := store.Save(scope.value, s, saves);
        if !saved {
          return false;
        }
      }
      cached := Some(s);
      return true;
    }
  }

  // ---------------------------------------------------------------------------
  // Overlapping calls
  // ---------------------------------------------------------------------------

  /** A call between two of its locked regions or store accesses. */
  datatype Flight =
    | Crawled(snapshot: Snapshot)                          // RefreshBooks, before reading the scope
    | Scoped(snapshot: Snapshot, scope: Option<string>)    // RefreshBooks, before saving
    | Ready(snapshot: Snapshot)                            // any call, before installing a snapshot
    | Switched(from: Option<string>, to: Option<string>)   // SetConfig, before clearing the old scope
    | Restoring(url: string)                               // SetConfig or SetCacheStore, before loading

  /** rows is None without a store. */
  datatype State = State(baseURL: string, apiKey: string, cached: Option<Snapshot>, rows: Option<Rows>,
                         flights: map<int, Flight>)

  datatype Action =
    | Crawl(call: int, books: seq<string>, now: int)
    | ReadScope(call: int)
    | Save(call: int, ok: bool)
    | Install(call: int)
    | Configure(call: int, url: string, key: string)
    | Clear(call: int, ok: bool)
    | Attach(call: int, rows: Rows)
    | Load(call: int, ok: bool)

  function ScopeOf(s: State): Option<string> {
    if s.rows.None? then None else Scope(s.baseURL, s.apiKey)
  }

  function Ended(s: State, call: int): State {
    s.(flights := s.flights - {call})
  }

  function Goes(s: State, call: int, f: Flight): State {
    s.(flights := s.flights[call := f])
  }

  function Restored(s: State, call: int, scope: Option<string>): State {
    if scope.Some? then Goes(s, call, Restoring(scope.value)) else Ended(s, call)
  }

  predicate Step(s: State, a: Action, t: State) {
    match a
    case Crawl(c, books, now) =>
      c !in s.flights && t == Goes(s, c, Crawled(Snapshot(s.baseURL, books, now)))
    case ReadScope(c) =>
      c in s.flights && s.flights[c].Crawled? && t == Goes(s, c, Scoped(s.flights[c].snapshot, ScopeOf(s)))
    case Save(c, ok) =>
      && c in s.flights && s.flights[c].Scoped?
      && var x, scope := s.flights[c].snapshot, s.flights[c].scope;
         if scope.None? || s.rows.None? then t == Goes(s, c, Ready(x))
         else if ok then t == Goes(s, c, Ready(x)).(rows := Some(s.rows.value[scope.value := x]))
         else t == Ended(s, c)
    case Install(c) =>
      c in s.flights && s.flights[c].Ready? && t == Ended(s, c).(cached := Some(s.flights[c].snapshot))
    case Configure(c, url, key) =>
      && c !in s.flights
      && var u := s.(baseURL := TrimSlashes(url), apiKey := key, cached := None);
         t == Goes(u, c, Switched(ScopeOf(s), ScopeOf(u)))
    case Clear(c, ok) =>
      && c in s.flights && s.flights[c].Switched?
      && var from, to := s.flights[c].from, s.flights[c].to;
         if s.rows.None? || from.None? || from == to then t == Restored(s, c, to)
         else if ok then t == Restored(s.(rows := Some(s.rows.value - {from.value})), c, to)
         else t == Ended(s, c)
    case Attach(c, rows) =>
      c !in s.flights && RowsMatch(rows) && t == Restored(s.(rows := Some(rows)), c, Scope(s.baseURL, s.apiKey))
    case Load(c, ok) =>
      && c in s.flights && s.flights[c].Restoring?
      && var url := s.flights[c].url;
         t == if ok && s.rows.Some? && url in s.rows.value then Goes(s, c, Ready(s.rows.value[url])) else Ended(s, c)
  }

  /** Without a base URL or an API key nothing is stored and nothing comes back. */
  lemma NothingStoredUnconfigured(s: State, a: Action, t: State, c: int)
    requires Step(s, a, t) && (s.baseURL == "" || s.apiKey == "") && (a == ReadScope(c) || (a.Attach? && a.call == c))
    ensures a.ReadScope? ==> c in t.flights && t.flights[c].Scoped? && t.flights[c].scope == None
    ensures a.Attach? ==> c !in t.flights && t.cached == s.cached
  {
  }

  /** With both, what is stored and what comes back is the base URL's own. */
  lemma ScopeIsBase(s: State, a: Action, t: State, c: int)
    requires Step(s, a, t) && s.baseURL != "" && s.apiKey != "" && (a == ReadScope(c) || (a.Attach? && a.call == c))
    ensures a.ReadScope? && s.rows.Some? ==>
      c in t.flights && t.flights[c].Scoped? && t.flights[c].scope == Some(s.baseURL)
    ensures a.Attach? ==> c in t.flights && t.flights[c] == Restoring(s.baseURL)
  {
  }

  /** What is in memory was crawled from the configured URL, and every row from its own. */
  predicate Provenance(s: State) {
    && (s.cached.Some? ==> s.cached.value.origin == s.baseURL)
    && (s.rows.Some? ==> RowsMatch(s.rows.value))
  }

  /** What a call under way will install or store is for this URL. */
  predicate For(f: Flight, url: string) {
    match f
    case Crawled(x) => x.origin == url
    case Scoped(x, scope) => x.origin == url && (scope.Some? ==> scope.value == url)
    case Ready(x) => x.origin == url
    case Switched(_, to) => to.Some? ==> to.value == url
    case Restoring(scope) => scope == url
  }

  predicate Inv(s: State) {
    Provenance(s) && forall c | c in s.flights :: For(s.flights[c], s.baseURL)
  }

  /** The configuration changes only while no other call is under way. */
  predicate Exclusive(s: State, a: Action) {
    a.Configure? ==> s.flights == map[]
  }

  lemma StepKeepsInv(s: State, a: Action, t: State)
    requires Inv(s) && Step(s, a, t) && Exclusive(s, a)
    ensures Inv(t)
  {
  }

  ghost predicate IsRun(run: seq<State>, actions: seq<Action>) {
    && |run| == |actions| + 1
    && run[0].cached == None && run[0].rows == None && run[0].flights == map[]
    && forall i | 0 <= i < |actions| :: Step(run[i], actions[i], run[i + 1])
  }

  /** In every run that changes the configuration only while no refresh, restore or other
      change is under way, no snapshot is ever held or stored for another server. */
  lemma {:induction false} ProvenanceHolds(run: seq<State>, actions: seq<Action>, n: nat)
    requires IsRun(run, actions) && n < |run|
    requires forall i | 0 <= i < n :: Exclusive(run[i], actions[i])
    ensures Inv(run[n])
  {
    if n > 0 {
      ProvenanceHolds(run, actions, n - 1);
      assert Step(run[n - 1], actions[n - 1], run[n - 1 + 1]);
      StepKeepsInv(run[n - 1], actions[n - 1], run[n]);
    }
  }

  /** Whatever overlaps, an install keeps memory right exactly when the configured URL is
      still the one crawled, and a save the store, exactly when the scope read after the
      crawl is the one crawled. */
  lemma InstallKeepsProvenanceIff(s: State, c: int, t: State)
    requires Provenance(s) && Step(s, Install(c), t)
    ensures Provenance(t) <==> s.flights[c].snapshot.origin == s.baseURL
  {
  }

  lemma SaveKeepsProvenanceIff(s: State, c: int, ok: bool, t: State)
    requires Provenance(s) && Step(s, Save(c, ok), t)
    ensures Provenance(t) <==>
      (ok && s.rows.Some? && s.flights[c].scope.Some? ==> s.flights[c].scope.value == s.flights[c].snapshot.origin)
    ensures !ok && s.rows.Some? && s.flights[c].scope.Some? ==> t.cached == s.cached && t.rows == s.rows
  {
    if ok && s.rows.Some? && s.flights[c].scope.Some? {
      var scope := s.flights[c].scope.value;
      assert t.rows.value[scope] == s.flights[c].snapshot;
    }
  }

  // ---------------------------------------------------------------------------
  // One refresh among other calls
  // ---------------------------------------------------------------------------

  /** The snapshot that a refresh under way carries. */
  function Carried(f: Flight): Option<Snapshot> {
    match f
    case Crawled(x) => Some(x)
    case Scoped(x, _) => Some(x)
    case Ready(x) => Some(x)
    case Switched(_, _) => None
    case Restoring(_) => None
  }

  ghost predicate UnderWay(run: seq<State>, c: int, i: nat, j: nat)
    requires i <= j < |run|
  {
    forall k | i < k <= j :: c in run[k].flights
  }

  lemma StepCarries(s: State, a: Action, t: State, c: int)
    requires Step(s, a, t) && c in s.flights && c in t.flights && Carried(s.flights[c]).Some?
    ensures Carried(t.flights[c]) == Carried(s.flights[c])
  {
  }

  /** From its crawl on a refresh carries what it crawled from the URL configured then. */
  lemma {:induction false} CarriesItsCrawl(run: seq<State>, actions: seq<Action>, c: int, i: nat, j: nat)
    requires IsRun(run, actions) && i < j < |run| && actions[i].Crawl? && actions[i].call == c
    requires UnderWay(run, c, i, j)
    ensures Carried(run[j].flights[c]).Some? && Carried(run[j].flights[c]).value.origin == run[i].baseURL
    decreases j
  {
    if j == i + 1 {
      assert Step(run[i], actions[i], run[i + 1]);
    } else {
      CarriesItsCrawl(run, actions, c, i, j - 1);
      assert Step(run[j - 1], actions[j - 1], run[j - 1 + 1]);
      StepCarries(run[j - 1], actions[j - 1], run[j], c);
    }
  }

  lemma ScopeStays(s: State, a: Action, t: State, c: int)
    requires Step(s, a, t) && c in s.flights && c in t.flights && (s.flights[c].Scoped? || s.flights[c].Ready?)
    ensures t.flights[c].Scoped? || t.flights[c].Ready?
    ensures t.flights[c].Scoped? ==> t.flights[c] == s.flights[c]
  {
  }

  /** Once a refresh has read its scope it keeps that scope. */
  lemma {:induction false} KeepsItsScope(run: seq<State>, actions: seq<Action>, c: int, m: nat, j: nat)
    requires IsRun(run, actions) && m < j < |run| && actions[m] == ReadScope(c) && UnderWay(run, c, m, j)
    ensures run[j].flights[c].Scoped? || run[j].flights[c].Ready?
    ensures run[j].flights[c].Scoped? ==> run[j].flights[c].scope == ScopeOf(run[m])
    decreases j
  {
    assert Step(run[j - 1], actions[j - 1], run[j - 1 + 1]);
    if j > m + 1 {
      KeepsItsScope(run, actions, c, m, j - 1);
      ScopeStays(run[j - 1], actions[j - 1], run[j], c);
    }
  }

  /** Whatever overlaps a refresh, its install leaves memory and store right if and only if
      the URL configured then is the one configured at its crawl. */
  lemma RefreshInstallsRightIff(run: seq<State>, actions: seq<Action>, c: int, i: nat, j: nat)
    requires IsRun(run, actions) && i < j < |actions| && UnderWay(run, c, i, j)
    requires actions[i].Crawl? && actions[i].call == c && actions[j] == Install(c)
    requires Provenance(run[j])
    ensures Provenance(run[j + 1]) <==> run[j].baseURL == run[i].baseURL
  {
    CarriesItsCrawl(run, actions, c, i, j);
    assert Step(run[j], actions[j], run[j + 1]);
    InstallKeepsProvenanceIff(run[j], c, run[j + 1]);
  }

  /** Its save does so if and only if there is no scope to save for, or the URL configured
      when it read the scope is the one configured at its crawl. */
  lemma RefreshSavesRightIff(run: seq<State>, actions: seq<Action>, c: int, i: nat, m: nat, j: nat)
    requires IsRun(run, actions) && i < m < j < |actions| && UnderWay(run, c, i, j)
    requires actions[i].Crawl? && actions[i].call == c && actions[m] == ReadScope(c) && actions[j] == Save(c, true)
    requires Provenance(run[j])
    ensures Provenance(run[j + 1]) <==>
      (ScopeOf(run[m]).Some? && run[j].rows.Some? ==> run[m].baseURL == run[i].baseURL)
  {
    CarriesItsCrawl(run, actions, c, i, j);
    assert Step(run[j], actions[j], run[j + 1]);
    KeepsItsScope(run, actions, c, m, j);
    SaveKeepsProvenanceIff(run[j], c, true, run[j + 1]);
  }

  /** A refresh that a change of configuration overtakes reads the new scope after crawling
      the old server: the old catalogue is then held, and stored, for the new one. */
  lemma OverlapMixesServers() returns (run: seq<State>, actions: seq<Action>)
    ensures IsRun(run, actions)
    ensures var s := run[|actions|];
            && s.baseURL == "http://b"
            && s.cached.Some? && s.cached.value.origin == "http://a"
            && s.rows.Some? && "http://b" in s.rows.value && s.rows.value["http://b"].origin == "http://a"
  {
    var x := Snapshot("http://a", [], 0);
    var s0 := State("http://a", "key", None, None, map[]);
    var s1 := s0.(rows := Some(map[]), flights := map[0 := Restoring("http://a")]);
    var s2 := s1.(flights := map[]);
    var s3 := s2.(flights := map[1 := Crawled(x)]);
    var s4 := s3.(baseURL := "http://b", flights := s3.flights[2 := Switched(Some("http://a"), Some("http://b"))]);
    var s5 := s4.(flights := s4.flights[1 := Scoped(x, Some("http://b"))]);
    var s6 := s5.(rows := Some(map["http://b" := x]), flights := s5.flights[1 := Ready(x)]);
    var s7 := s6.(cached := Some(x), flights := s6.flights - {1});
    run := [s0, s1, s2, s3, s4, s5, s6, s7];
    actions := [Attach(0, map[]), Load(0, false), Crawl(1, [], 0), Configure(2, "http://b", "key"),
      ReadScope(1), Save(1, true), Install(1)];
    assert TrimSlashes("http://b") == "http://b";
    assert Step(s0, actions[0], s1) && Step(s1, actions[1], s2) && Step(s2, actions[2], s3);
    assert Step(s3, actions[3], s4) && Step(s4, actions[4], s5);
    assert Step(s5, actions[5], s6) && Step(s6, actions[6], s7);
  }
}
