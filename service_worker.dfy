/**
  The offline-caching policy of the game's service worker: the precache done
  at install, the cleanup of old caches at activation, and the cache-first
  answer to every intercepted GET request. The network is an input
  (`NetOutcome`, and for precaching the map of URLs whose fetch succeeded),
  so every decision is a function of the request, the registry and that input.
 */
module ServiceWorker {
  import opened Wrappers
  import opened Http
  import opened CacheRegistry

  /** A cache name declared for a page-builder tool; the worker never opens it. */
  const PWABUILDER_CACHE := "pwabuilder-page"

  /** The one current cache: precache and runtime writes go here, cleanup keeps only it. */
  const CACHE_NAME := "capibara-snake-offline-v2.2.0"

  /** Declared but never read: offline documents fall back to INDEX_URL instead. */
  const OFFLINE_URL := "./offline.html"

  /** The page served to a document request that misses the cache while offline. */
  const INDEX_URL := "./index.html"

  /** Requests to URLs with this prefix are left to the browser. */
  const CHROME_EXTENSION_SCHEME := "chrome-extension://"

  /** The fixed precache list: the page, sprites, music and effects, the
      21 level-complete voice clips and the manifest, 37 entries in all. */
  const UrlsToCache: seq<string> := [
    "./",
    "./index.html",
    "./capibara_sprite.png",
    "./bully0.png",
    "./bully1.png",
    "./bully2.png",
    "./bully3.png",
    "./bully4.png",
    "./bully5.png",
    "./brigada_capibara_logo.png",
    "./background_music.mp3",
    "./pop.mp3",
    "./boing.mp3",
    "./step.mp3",
    "./triumph.mp3",
    "./level_complete_01.mp3",
    "./level_complete_02.mp3",
    "./level_complete_03.mp3",
    "./level_complete_04.mp3",
    "./level_complete_05.mp3",
    "./level_complete_06.mp3",
    "./level_complete_07.mp3",
    "./level_complete_08.mp3",
    "./level_complete_09.mp3",
    "./level_complete_10.mp3",
    "./level_complete_11.mp3",
    "./level_complete_12.mp3",
    "./level_complete_13.mp3",
    "./level_complete_14.mp3",
    "./level_complete_15.mp3",
    "./level_complete_16.mp3",
    "./level_complete_17.mp3",
    "./level_complete_18.mp3",
    "./level_complete_19.mp3",
    "./level_complete_20.mp3",
    "./level_complete_21.mp3",
    "./manifest.json"
  ]

  /** The precache list has its 37 entries and includes the index page that
      offline documents fall back to. */
  lemma ManifestShape()
    ensures |UrlsToCache| == 37 && INDEX_URL in UrlsToCache
  {
    assert UrlsToCache[1] == INDEX_URL;
  }

  /** The synthetic answer for a non-document request that is neither cached nor reachable. */
  const OfflineResponse := Response(408, "Offline", "Offline - Recurso no disponible")

  // ---------------------------------------------------------------------------
  // Install: precache

  /** The store after `cache.add` of each URL of `urls` in turn, where the adds
      that succeed are exactly the URLs in `fetched`, with those responses. */
  function AddAll(store: Store, urls: seq<string>, fetched: map<string, Response>): Store {
    if urls == [] then store
    else
      var s := AddAll(store, urls[..|urls| - 1], fetched);
      var u := urls[|urls| - 1];
      if u in fetched then s[u := fetched[u]] else s
  }

  /** One more URL of the list: its response is added when its fetch succeeded. */
  lemma AddAllStep(store: Store, urls: seq<string>, fetched: map<string, Response>, i: nat)
    requires i < |urls|
    ensures AddAll(store, urls[..i + 1], fetched) ==
      var s := AddAll(store, urls[..i], fetched);
      if urls[i] in fetched then s[urls[i] := fetched[urls[i]]] else s
  {
    assert urls[..i + 1][..i] == urls[..i];
  }

  /** After the adds, a key holds the fetched response when it is a listed URL
      whose add succeeded, and otherwise whatever it held before. */
  lemma {:induction false} AddAllContents(store: Store, urls: seq<string>, fetched: map<string, Response>)
    ensures forall k :: k in AddAll(store, urls, fetched) <==> k in store || (k in urls && k in fetched)
    ensures forall k :: k in AddAll(store, urls, fetched) ==>
      AddAll(store, urls, fetched)[k] == if k in urls && k in fetched then fetched[k] else store[k]
  {
    if urls != [] {
      AddAllContents(store, urls[..|urls| - 1], fetched);
      assert forall k :: k in urls <==> k in urls[..|urls| - 1] || k == urls[|urls| - 1];
    }
  }

  /** The registry after install with precache list `urls`: the current cache
      is opened (created if missing) and every URL is added to it, failures skipped. */
  function Installed(reg: Registry, urls: seq<string>, fetched: map<string, Response>): (r: Registry)
    ensures WellFormed(reg) ==> WellFormed(r)
  {
    var o := Opened(reg, CACHE_NAME);
    o.(stores := o.stores[CACHE_NAME := AddAll(o.stores[CACHE_NAME], urls, fetched)])
  }

  /** The install handler. A failed add is swallowed, so install always completes. */
  method Install(caches: Caches, fetched: map<string, Response>)
    requires caches.Valid()
    modifies caches
    ensures caches.Valid() && caches.State() == Installed(old(caches.State()), UrlsToCache, fetched)
  {
    caches.Open(CACHE_NAME);
    AddEach(caches, UrlsToCache, fetched);
  }

  /** The precache loop: `cache.add` of each URL into the open current cache,
      a failed add skipped. */
  method AddEach(caches: Caches, urls: seq<string>, fetched: map<string, Response>)
    requires caches.Valid() && CACHE_NAME in caches.stores
    modifies caches
    ensures caches.Valid() && caches.names == old(caches.names)
    ensures caches.stores == old(caches.stores)[CACHE_NAME := AddAll(old(caches.stores)[CACHE_NAME], urls, fetched)]
  {
    ghost var start := caches.stores;
    var i := 0;
    while i < |urls|
      invariant 0 <= i <= |urls|
      invariant caches.Valid() && caches.names == old(caches.names)
      invariant caches.stores == start[CACHE_NAME := AddAll(start[CACHE_NAME], urls[..i], fetched)]
    {
      AddAllStep(start[CACHE_NAME], urls, fetched, i);
      AddUrl(caches, urls[i], fetched);
      i := i + 1;
    }
    assert urls[..i] == urls;
  }

  /** The per-URL callback of the precache: `cache.add(url)`, whose failure is
      caught and ignored. */
  method AddUrl(caches: Caches, url: string, fetched: map<string, Response>)
    requires caches.Valid() && CACHE_NAME in caches.stores
    modifies caches
    ensures caches.Valid() && caches.names == old(caches.names)
    ensures caches.stores == old(caches.stores)[CACHE_NAME :=
      if url in fetched then old(caches.stores)[CACHE_NAME][url := fetched[url]] else old(caches.stores)[CACHE_NAME]]
  {
    if url in fetched {
      caches.Put(CACHE_NAME, url, fetched[url]);
    }
  }

  /** Every precache URL whose add succeeded is in the current cache with the
      fetched response; any other key of the current cache keeps its entry
      (a failed add does not disturb it); no other cache changes, and the
      names are those after opening the current cache. */
  lemma InstallCachesWhatSucceeds(reg: Registry, urls: seq<string>, fetched: map<string, Response>)
    requires WellFormed(reg)
    ensures WellFormed(Installed(reg, urls, fetched))
    ensures Installed(reg, urls, fetched).names == Opened(reg, CACHE_NAME).names
    ensures CACHE_NAME in Installed(reg, urls, fetched).stores
    ensures forall u :: u in urls && u in fetched ==>
      Holds(Installed(reg, urls, fetched).stores, CACHE_NAME, u)
      && Installed(reg, urls, fetched).stores[CACHE_NAME][u] == fetched[u]
    ensures forall u :: u !in urls || u !in fetched ==>
      (Holds(Installed(reg, urls, fetched).stores, CACHE_NAME, u) <==> Holds(reg.stores, CACHE_NAME, u))
    ensures forall k :: Holds(reg.stores, CACHE_NAME, k) && !(k in urls && k in fetched) ==>
      Holds(Installed(reg, urls, fetched).stores, CACHE_NAME, k)
      && Installed(reg, urls, fetched).stores[CACHE_NAME][k] == reg.stores[CACHE_NAME][k]
    ensures forall n :: n in reg.stores && n != CACHE_NAME ==>
      n in Installed(reg, urls, fetched).stores && Installed(reg, urls, fetched).stores[n] == reg.stores[n]
  {
    AddAllContents(Opened(reg, CACHE_NAME).stores[CACHE_NAME], urls, fetched);
  }

  // ---------------------------------------------------------------------------
  // Activate: cleanup

  /** The names of `names` other than the current one. */
  function StaleIn(names: seq<string>): (gone: set<string>)
    ensures CACHE_NAME !in gone
  {
    set n | n in names && n != CACHE_NAME
  }

  /** The registry after deleting, in turn, each name of `names` that is not the current one. */
  function DeleteStale(reg: Registry, names: seq<string>): (r: Registry)
    ensures WellFormed(reg) ==> WellFormed(r)
  {
    if names == [] then reg
    else
      var r := DeleteStale(reg, names[..|names| - 1]);
      var n := names[|names| - 1];
      if n != CACHE_NAME then Deleted(r, n) else r
  }

  /** One more name of the list: deleted when stale, skipped when current. */
  lemma DeleteStaleStep(reg: Registry, names: seq<string>, i: nat)
    requires i < |names|
    ensures DeleteStale(reg, names[..i + 1]) ==
      if names[i] != CACHE_NAME then Deleted(DeleteStale(reg, names[..i]), names[i])
      else DeleteStale(reg, names[..i])
  {
    assert names[..i + 1][..i] == names[..i];
  }

  /** The registry after activation: every name listed by caches.keys() but
      the current one has been deleted. */
  function Cleaned(reg: Registry): (r: Registry)
    ensures WellFormed(reg) ==> WellFormed(r)
  {
    DeleteStale(reg, reg.names)
  }

  /** The activate handler: walks caches.keys() and deletes every name but CACHE_NAME. */
  method Activate(caches: Caches)
    requires caches.Valid()
    modifies caches
    ensures caches.Valid() && caches.State() == Cleaned(old(caches.State()))
  {
    var cacheNames := caches.names;
    ghost var before := caches.State();
    var i := 0;
    while i < |cacheNames|
      invariant 0 <= i <= |cacheNames|
      invariant caches.Valid() && caches.State() == DeleteStale(before, cacheNames[..i])
    {
      DeleteStaleStep(before, cacheNames, i);
      DeleteIfStale(caches, cacheNames[i]);
      i := i + 1;
    }
    assert cacheNames[..i] == cacheNames;
  }

  /** The per-name callback of the cleanup: a name other than CACHE_NAME is deleted. */
  method DeleteIfStale(caches: Caches, name: string)
    requires caches.Valid()
    modifies caches
    ensures caches.Valid()
    ensures caches.State() == if name != CACHE_NAME then Deleted(old(caches.State()), name) else old(caches.State())
  {
    if name != CACHE_NAME {
      var _ := caches.Delete(name);
    }
  }

  /** Deleting names one at a time removes exactly the stale ones, from the
      list of names and from the stores alike. */
  lemma {:induction false} DeleteStaleRemoves(reg: Registry, names: seq<string>)
    ensures DeleteStale(reg, names) == Registry(Without(reg.names, StaleIn(names)), reg.stores - StaleIn(names))
  {
    if names == [] {
      assert StaleIn(names) == {};
      assert reg.stores - {} == reg.stores;
    } else {
      var init, n := names[..|names| - 1], names[|names| - 1];
      assert forall m :: m in names <==> m in init || m == n;
      DeleteStaleRemoves(reg, init);
      if n != CACHE_NAME {
        DeletedOneMore(reg, StaleIn(init), n);
        assert StaleIn(names) == StaleIn(init) + {n};
      } else {
        assert StaleIn(names) == StaleIn(init);
      }
    }
  }

  /** After cleanup the current cache is the only one left, with its contents
      untouched, if it existed; every other name, the page-builder one
      included, is gone. */
  lemma CleanupKeepsOnlyCurrent(reg: Registry)
    requires WellFormed(reg)
    ensures Cleaned(reg).names == if CACHE_NAME in reg.stores then [CACHE_NAME] else []
    ensures Cleaned(reg).stores == if CACHE_NAME in reg.stores then map[CACHE_NAME := reg.stores[CACHE_NAME]] else map[]
    ensures PWABUILDER_CACHE !in Cleaned(reg).stores
  {
    DeleteStaleRemoves(reg, reg.names);
    WithoutAllBut(reg.names, StaleIn(reg.names), CACHE_NAME);
    assert CACHE_NAME in reg.stores <==> CACHE_NAME in reg.names;
  }

  // ---------------------------------------------------------------------------
  // Fetch: cache-first with offline fallbacks

  /** The handler answers only GET requests that are not for a browser extension. */
  predicate Intercepts(req: Request) {
    req.httpMethod == "GET" && !(CHROME_EXTENSION_SCHEME <= req.url)
  }

  /** Which branch of the fetch handler is taken. */
  datatype Decision =
    | Decline
    | FromCache(response: Response)
    | FromNetwork(response: Response, store: bool)
    | Fallback(answer: Option<Response>)

  /** What the page sees: the browser handles the request itself, or the
      handler answers it; an answer of None (no index page cached) reaches
      the page as a network error. */
  datatype Handled = PassThrough | RespondWith(answer: Option<Response>)

  /** Branch selection from the request, the cache lookup for it, the network
      outcome and the cache lookup for the index page. */
  function Decide(req: Request, cached: Option<Response>, net: NetOutcome, index: Option<Response>): (d: Decision)
    ensures d.Decline? <==> !Intercepts(req)
    ensures d.FromCache? <==> Intercepts(req) && cached.Some?
    ensures d.FromCache? ==> cached == Some(d.response)
    ensures d.FromNetwork? <==> Intercepts(req) && cached.None? && net.Fetched?
    ensures d.FromNetwork? ==> d.response == net.response && (d.store <==> net.response.status == 200)
    ensures d.Fallback? ==> d.answer == if req.destination == "document" then index else Some(OfflineResponse)
  {
    if !Intercepts(req) then Decline
    else if cached.Some? then FromCache(cached.value)
    else
      match net
      case Fetched(resp) => FromNetwork(resp, resp.status == 200)
      case NetworkError =>
        if req.destination == "document" then Fallback(index)
        else Fallback(Some(OfflineResponse))
  }

  /** A 200 response to a miss, written under the request's key in the current cache. */
  function Stored(reg: Registry, key: string, resp: Response): (r: Registry)
    ensures WellFormed(reg) ==> WellFormed(r)
    ensures Holds(r.stores, CACHE_NAME, key) && r.stores[CACHE_NAME][key] == resp
  {
    PutIn(Opened(reg, CACHE_NAME), CACHE_NAME, key, resp)
  }

  /** The fetch handler over the registry's value: the answer and the new registry. */
  function Step(reg: Registry, req: Request, net: NetOutcome): (r: (Handled, Registry))
    ensures WellFormed(reg) ==> WellFormed(r.1)
  {
    match Decide(req, Lookup(reg, req.url), net, Lookup(reg, INDEX_URL))
    case Decline => (PassThrough, reg)
    case FromCache(resp) => (RespondWith(Some(resp)), reg)
    case FromNetwork(resp, store) =>
      (RespondWith(Some(resp)), if store then Stored(reg, req.url, resp) else reg)
    case Fallback(answer) => (RespondWith(answer), reg)
  }

  /** The fetch handler. The network is consulted only on a miss, and the
      write of a 200 response is complete before the answer is returned. */
  method HandleFetch(caches: Caches, req: Request, net: NetOutcome) returns (h: Handled)
    requires caches.Valid()
    modifies caches
    ensures caches.Valid() && (h, caches.State()) == Step(old(caches.State()), req, net)
  {
    if req.httpMethod != "GET" || CHROME_EXTENSION_SCHEME <= req.url {
      return PassThrough;
    }
    var cached := caches.Match(req.url);
    if cached.Some? {
      return RespondWith(cached);
    }
    match net {
      case Fetched(resp) =>
        if resp.status == 200 {
          caches.Open(CACHE_NAME);
          caches.Put(CACHE_NAME, req.url, resp);
        }
        return RespondWith(Some(resp));
      case NetworkError =>
        if req.destination == "document" {
          var index := caches.Match(INDEX_URL);
          return RespondWith(index);
        }
        return RespondWith(Some(OfflineResponse));
    }
  }

  /** Non-GET and extension requests are not answered and change nothing. */
  lemma DeclinedRequestUntouched(reg: Registry, req: Request, net: NetOutcome)
    requires req.httpMethod != "GET" || CHROME_EXTENSION_SCHEME <= req.url
    ensures Step(reg, req, net) == (PassThrough, reg)
  {
  }

  /** A hit is answered with the entry of the first cache holding the key,
      whatever the network would do, and the registry is unchanged. */
  lemma HitServedFromCache(reg: Registry, req: Request, net: NetOutcome, other: NetOutcome)
    requires Intercepts(req)
    requires exists i :: 0 <= i < |reg.names| && Holds(reg.stores, reg.names[i], req.url)
    ensures Step(reg, req, net) == Step(reg, req, other)
    ensures Step(reg, req, net).1 == reg
    ensures exists i ::
      && 0 <= i < |reg.names| && Holds(reg.stores, reg.names[i], req.url)
      && (forall j :: 0 <= j < i ==> !Holds(reg.stores, reg.names[j], req.url))
      && Step(reg, req, net).0 == RespondWith(Some(reg.stores[reg.names[i]][req.url]))
  {
    MatchInFirstHolder(reg.names, reg.stores, req.url);
  }

  /** On a miss, a 200 response is returned unchanged and stored under the
      request's key in the current cache, nothing else changes, and the same
      request afterwards is a hit answered with that response. */
  lemma {:induction false} MissStoresOkResponse(reg: Registry, req: Request, resp: Response, later: NetOutcome)
    requires WellFormed(reg) && Intercepts(req)
    requires Lookup(reg, req.url).None?
    requires resp.status == 200
    ensures Step(reg, req, Fetched(resp)).0 == RespondWith(Some(resp))
    ensures Step(reg, req, Fetched(resp)).1.stores[CACHE_NAME] ==
      (if CACHE_NAME in reg.stores then reg.stores[CACHE_NAME] else map[])[req.url := resp]
    ensures forall n :: n in reg.stores && n != CACHE_NAME ==>
      Step(reg, req, Fetched(resp)).1.stores[n] == reg.stores[n]
    ensures var after := Step(reg, req, Fetched(resp)).1;
      Step(after, req, later) == (RespondWith(Some(resp)), after)
  {
    var after := Stored(reg, req.url, resp);
    assert Step(reg, req, Fetched(resp)) == (RespondWith(Some(resp)), after);
    StoredIsFound(reg, req.url, resp);
  }

  /** A key that no cache held, once stored, is found by lookup with the stored response. */
  lemma StoredIsFound(reg: Registry, key: string, resp: Response)
    requires WellFormed(reg) && Lookup(reg, key).None?
    ensures Lookup(Stored(reg, key, resp), key) == Some(resp)
  {
    var after := Stored(reg, key, resp);
    assert forall n :: n in after.stores && n != CACHE_NAME ==> !Holds(after.stores, n, key) by {
      MissHoldsNowhere(reg, key);
    }
    MatchInSoleHolder(after.names, after.stores, key, CACHE_NAME);
  }

  /** On a miss, a response of any other status is returned as it is and
      nothing is written. */
  lemma MissPassesOtherStatus(reg: Registry, req: Request, resp: Response)
    requires Intercepts(req) && Lookup(reg, req.url).None?
    requires resp.status != 200
    ensures Step(reg, req, Fetched(resp)) == (RespondWith(Some(resp)), reg)
  {
  }

  /** Offline, a document request that misses gets whatever the caches hold
      for the index page, possibly nothing; the registry is unchanged. */
  lemma OfflineDocumentGetsIndex(reg: Registry, req: Request)
    requires Intercepts(req) && Lookup(reg, req.url).None?
    requires req.destination == "document"
    ensures Step(reg, req, NetworkError) == (RespondWith(Lookup(reg, INDEX_URL)), reg)
  {
  }

  /** Offline, any other request that misses (image, audio or anything else)
      gets the synthetic 408 "Offline" response; the registry is unchanged. */
  lemma OfflineOtherGets408(reg: Registry, req: Request)
    requires Intercepts(req) && Lookup(reg, req.url).None?
    requires req.destination != "document"
    ensures Step(reg, req, NetworkError) == (RespondWith(Some(OfflineResponse)), reg)
    ensures OfflineResponse.status == 408 && OfflineResponse.statusText == "Offline"
  {
  }

  /** The handler's only write is a 200 network response to an intercepted
      miss, stored under the request's key in the current cache. */
  lemma OnlyOkMissesAreWritten(reg: Registry, req: Request, net: NetOutcome)
    ensures Step(reg, req, net).1 == reg
      || (Intercepts(req) && Lookup(reg, req.url).None? && net.Fetched? && net.response.status == 200
          && Step(reg, req, net).1 == Stored(reg, req.url, net.response))
  {
  }

  /** Once install has cached the index page (it is on the precache list,
      as ManifestShape shows for UrlsToCache, and its fetch succeeded) and
      activation has cleaned up, a document request that misses while
      offline is answered with that page. */
  lemma {:induction false} OfflineDocumentAfterInstall(
    reg: Registry, urls: seq<string>, fetched: map<string, Response>, req: Request)
    requires WellFormed(reg) && INDEX_URL in urls && INDEX_URL in fetched
    requires Intercepts(req) && req.destination == "document"
    requires Lookup(Cleaned(Installed(reg, urls, fetched)), req.url).None?
    ensures var ready := Cleaned(Installed(reg, urls, fetched));
      Step(ready, req, NetworkError) == (RespondWith(Some(fetched[INDEX_URL])), ready)
  {
    var ready := Cleaned(Installed(reg, urls, fetched));
    IndexCachedAfterInstall(reg, urls, fetched);
    OfflineDocumentGetsIndex(ready, req);
  }

  /** Install followed by cleanup leaves the fetched index page reachable by lookup. */
  lemma IndexCachedAfterInstall(reg: Registry, urls: seq<string>, fetched: map<string, Response>)
    requires WellFormed(reg) && INDEX_URL in urls && INDEX_URL in fetched
    ensures Lookup(Cleaned(Installed(reg, urls, fetched)), INDEX_URL) == Some(fetched[INDEX_URL])
  {
    var installed := Installed(reg, urls, fetched);
    assert WellFormed(installed) && Holds(installed.stores, CACHE_NAME, INDEX_URL)
      && installed.stores[CACHE_NAME][INDEX_URL] == fetched[INDEX_URL] by {
      InstallCachesWhatSucceeds(reg, urls, fetched);
    }
    assert Cleaned(installed) == Registry([CACHE_NAME], map[CACHE_NAME := installed.stores[CACHE_NAME]]) by {
      CleanupKeepsOnlyCurrent(installed);
    }
  }
}
