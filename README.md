# Offline-caching policy of the Capibara Snake service worker

This project models the caching logic of `service-worker.js`, the service worker
of a small browser game. Three handlers drive it:

- **install**: opens the current cache `capibara-snake-offline-v2.2.0` and adds
  each of the 37 URLs on the fixed precache list. A URL whose add fails is
  skipped, and install still completes.
- **activate**: lists every cache name and deletes each one that is not the
  current cache.
- **fetch**: lets the browser handle non-GET requests and `chrome-extension://`
  URLs itself. It answers every other request cache-first:
  - a response held by any cache is returned as it is;
  - on a miss, the network response is returned, and it is stored in the
    current cache only when its status is exactly 200;
  - when the network fails, a document request gets whatever the caches hold
    for `./index.html`, possibly nothing;
  - any other request that fails gets a synthetic `408 Offline` response with
    the body `Offline - Recurso no disponible`.

The browser's cache registry is the class `CacheRegistry.Caches`. Its fields are
the cache names in creation order and a map from name to store, where a store
maps a request key to a response. Its methods `Open`, `Put`, `Delete` and `Match`
are `caches.open`, `cache.put`, `caches.delete` and `caches.match`. `Match`
searches the caches in creation order, and the first cache that holds the key
answers. The registry's value is the datatype `Registry`, and `MatchIn` (with
`Lookup` on a whole registry) is the specification of `caches.match`.

Each of the three handlers is a method on that registry (`Install`, `Activate`,
`HandleFetch`). Each method is proved to leave the registry in the state that a
pure function gives for the old state: `Installed`, `Cleaned` and `Step`. The
lemmas then state the caching policy about those functions.

The network is an input. A fetch is a `NetOutcome`: either `Fetched(response)`
or `NetworkError`. For precaching, the input is the map `fetched`, which holds the
URLs whose `cache.add` succeeded and the responses they stored.

`service-worker.js` has one cache-first policy for every GET request. There is
no background refresh and no network-first path, and its only fallbacks are
`./index.html` and a 408 response.

A new registry (`Caches.constructor`) is empty, as the cache storage of an
origin is before its first install.

## Model

| member | source | states |
|---|---|---|
| `CacheRegistry.MatchInFirstHolder` | service-worker.js:122-128 | `MatchIn`, the lookup across all caches (`Lookup` on a registry), finds nothing exactly when no cache holds the key. Otherwise it returns the entry of the first cache, in creation order, that holds it. |
| `CacheRegistry.MatchInSoleHolder` | service-worker.js:122 | When exactly one cache holds the key, a lookup returns that cache's entry. |
| `CacheRegistry.MissHoldsNowhere` | service-worker.js:122-131 | In a well-formed registry, a lookup that misses means that no cache holds the key. |
| `CacheRegistry.Caches.Match` | service-worker.js:122 | `caches.match` walks the caches in creation order and returns exactly `MatchIn(names, stores, key)`. |
| `CacheRegistry.Caches.Open` | service-worker.js:65 | `caches.open` reuses an existing cache. A new name gets an empty cache, placed last in creation order. The registry stays well-formed. |
| `CacheRegistry.Caches.Put` | service-worker.js:136-139 | `cache.put` replaces the entry for the key in that one cache. Every other cache and entry is unchanged. |
| `CacheRegistry.Caches.Delete` | service-worker.js:104 | `caches.delete` reports whether the cache existed. It removes the name and its store, and everything else stays. |
| `CacheRegistry.Opened` | service-worker.js:65 | Opening a name makes it present and keeps the registry well-formed. An existing registry is returned unchanged, and a new store is empty. |
| `CacheRegistry.PutIn` | service-worker.js:138 | A put changes only the entry for the key in the named store. Names and other stores stay the same. |
| `CacheRegistry.Deleted` | service-worker.js:104 | After a delete, the name is absent from both the names and the stores, the set of stores is the old one without that name, and every other store keeps its contents. Deleting a name that is not there changes nothing. |
| `CacheRegistry.MatchInWithout` | service-worker.js:104 | Taking a set of deleted names out of the search order changes no lookup once their stores are gone: the remaining caches keep their order. |
| `CacheRegistry.LookupAfterDelete` | service-worker.js:104 | After a delete, a lookup answers as a lookup over the old creation order with the deleted cache removed, so the first remaining holder answers. |
| `ServiceWorker.ManifestShape` | service-worker.js:8-55 | The precache list has 37 entries and contains `./index.html`. |
| `ServiceWorker.AddAllContents` | service-worker.js:70-78 | After the adds `AddAll`, a listed URL whose add succeeded holds its fetched response. Every other key keeps what it held before, so one failure never stops another URL from being cached. |
| `ServiceWorker.Installed` | service-worker.js:64-79 | Install keeps the registry well-formed. |
| `ServiceWorker.Install` | service-worker.js:58-87 | The install handler opens the current cache and precaches the list. The new registry is `Installed` of the old one, and no failure escapes. |
| `ServiceWorker.AddEach` | service-worker.js:70-78 | The precache loop changes only the current cache, which becomes `AddAll` of its old contents: the URLs whose add succeeded are added in list order. |
| `ServiceWorker.AddUrl` | service-worker.js:71-76 | One `cache.add` stores the fetched response when it succeeds. When it fails, it changes nothing. |
| `ServiceWorker.InstallCachesWhatSucceeds` | service-worker.js:70-85 | After install, every URL whose add succeeded is in the current cache with its response. Every other key of the current cache, a failed URL's included, keeps its old entry and value. Every other cache is unchanged, and the names are those after opening the current cache. |
| `ServiceWorker.DeleteStale` | service-worker.js:99-108 | Deleting the non-current names one at a time keeps the registry well-formed. |
| `ServiceWorker.Cleaned` | service-worker.js:99-108 | Cleanup keeps the registry well-formed. |
| `ServiceWorker.DeleteStaleRemoves` | service-worker.js:99-108 | Deleting names one at a time removes exactly the non-current names among them, from the list of names and from the stores. |
| `ServiceWorker.Activate` | service-worker.js:90-111 | The activate handler walks `caches.keys()` and deletes each name but the current one. The new registry is `Cleaned` of the old one. |
| `ServiceWorker.DeleteIfStale` | service-worker.js:101-106 | The per-name callback deletes a name unless it is the current cache. |
| `ServiceWorker.CleanupKeepsOnlyCurrent` | service-worker.js:99-108 | After cleanup, the only name left is the current cache, with its contents untouched, if it existed. Every other name is gone, including `pwabuilder-page` (line 2). |
| `ServiceWorker.Decide` | service-worker.js:116-167 | The handler declines exactly the requests that fail `Intercepts` (the guard at lines 116-117): non-GET and extension requests. It serves from the cache exactly on a hit, and uses the network exactly on a miss that the network answers. A network response is stored exactly when its status is 200. When the network fails, a document gets the index lookup and anything else gets the 408 response. |
| `ServiceWorker.Stored` | service-worker.js:134-139 | Storing a 200 response opens the current cache. Afterwards that cache holds the response under the request's key, and the registry stays well-formed. |
| `ServiceWorker.Step` | service-worker.js:114-171 | Handling a request keeps the registry well-formed. |
| `ServiceWorker.HandleFetch` | service-worker.js:114-171 | The fetch handler gives the answer and the new registry that `Step` gives for the old registry. |
| `ServiceWorker.DeclinedRequestUntouched` | service-worker.js:116-119 | A request that fails `Intercepts` (a non-GET request, or a URL starting with `chrome-extension://`) gets no answer, and the registry is unchanged. |
| `ServiceWorker.HitServedFromCache` | service-worker.js:122-128 | On a hit, the answer is the entry of the first cache that holds the key, whatever the network would do. The registry is unchanged. |
| `ServiceWorker.MissStoresOkResponse` | service-worker.js:131-141 | On a miss, a 200 response is returned unchanged and stored under the request's key in the current cache. Every other cache is unchanged. The same request afterwards is a hit that returns that response. |
| `ServiceWorker.StoredIsFound` | service-worker.js:134-139 | When no cache held a key, a lookup after the store returns the stored response. |
| `ServiceWorker.MissPassesOtherStatus` | service-worker.js:134-141 | On a miss, a response with any status other than 200 is returned as it is, and nothing is written. |
| `ServiceWorker.OfflineDocumentGetsIndex` | service-worker.js:143-150 | On a miss with a network failure, a document request gets the cached `./index.html`, possibly nothing. The registry is unchanged. |
| `ServiceWorker.OfflineOtherGets408` | service-worker.js:152-167 | On a miss with a network failure, any other destination (image, audio or anything else) gets `408 Offline` with the fixed body. The registry is unchanged. |
| `ServiceWorker.OnlyOkMissesAreWritten` | service-worker.js:131-141 | The handler writes to the registry only one thing: a 200 network response to a miss, stored in the current cache. |
| `ServiceWorker.IndexCachedAfterInstall` | service-worker.js:64-108 | After install with `./index.html` fetched, and then cleanup, a lookup of `./index.html` returns the fetched page. |
| `ServiceWorker.OfflineDocumentAfterInstall` | service-worker.js:147-149 | After install and cleanup, an offline document request that misses gets the precached index page. |

## Left out

- Console logging throughout the file has no effect on behaviour and is not modelled.
- `self.skipWaiting()`, `self.clients.claim()` and the `SKIP_WAITING` message handler (lines 62, 96, 174-178) are browser lifecycle signals with no effect on the caches.
- The network and the `Response` object are not modelled: `fetch`, `new Response` and `.clone()` become the `NetOutcome` input and the `Response` value. Headers are not modelled; a response is its status, status text and body. The check `networkResponse &&` at line 134 is dropped because a fetch that resolves always gives a response.
- Cache API internals are not modelled: keys are the request URL as a plain string, with no resolution of relative URLs such as `./index.html` and no Vary or header matching. The platform rule that `cache.add` rejects a response that is not ok is part of the `fetched` input: a URL is in `fetched` exactly when its add succeeded.
- The concurrency of `Promise.all` (lines 70, 94, 100) is not modelled; the operations run one after another in list order. The precache adds touch distinct keys and the deletes touch distinct names, so the order does not change the result.
- HandleFetch: the `cache.put` at lines 136-139 is not awaited in the source. The model completes it before the answer is returned, so a request that races with the write is not modelled.
- Install: the outer `.catch` at lines 83-85 only logs. A failure of `caches.open` itself is not modelled, because `Open` cannot fail here.
- `respondWith` given `undefined` is not modelled beyond the answer. This happens when no `./index.html` is cached for an offline document, and the model returns `RespondWith(None)`. What the browser then shows (a network error) is left to the browser.
- `OFFLINE_URL` (`./offline.html`, line 5) is declared but never read by the code. It is kept as a constant and plays no part in any decision.
- OfflineDocumentAfterInstall and IndexCachedAfterInstall: these are stated for any precache list that contains `./index.html`, not only for `UrlsToCache`. `ManifestShape` shows that `UrlsToCache` contains it.
