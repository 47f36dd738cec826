# A verified model of the PWA service worker's caching policy

`sw.js` is the service worker of a small progressive web app. It keeps an "app
shell" of thirteen URLs in a cache bucket named `pwa-lab-v1`. It reacts to four
events:

- **install** stores the whole app shell as one batch and then requests
  skip-waiting.
- **activate** deletes every bucket of an older version and then claims the open
  pages.
- **fetch** serves requests stale-while-revalidate: a cached response is
  returned at once and refreshed in the background; a miss goes to the network
  and is written back.
- **message** handles `SKIP_WAITING`, which requests skip-waiting, and
  `UPDATE_CACHE`, which re-runs the app-shell batch.

This Dafny project models that policy as a state machine over plain data:

- `http.dfy` (module `Http`): requests (method and URL), responses (status and
  an opaque body) and network outcomes (a response, or a failure).
- `cache_storage.dfy` (module `CacheStorage`): the browser's cache storage as a
  value `Storage`. It holds the bucket names in creation order and a map from
  each name to its bucket of request → response entries. `caches.open`,
  `caches.delete`, `caches.match`, `cache.put` and `cache.addAll` are functions
  on that value. They follow the Cache API's rules where the worker depends on
  them:
  - opening a missing bucket creates it empty;
  - `match` returns the entry of the first bucket, in creation order, that holds
    the request;
  - `addAll` is all-or-nothing and rejects a network failure, a status outside
    200–299, a status of 206, a repeated request or a non-GET request;
  - only GET requests are ever stored.
- `service_worker.dfy` (module `ServiceWorker`):
  - the constants `CacheVersion`, `CacheName` and `ManifestRequests`;
  - the pure decisions: the stale-name filter, the two cacheability tests and the
    message-type tests;
  - the class `Worker`, which holds the storage and the two flags "skip-waiting
    requested" and "clients claimed", with one method per event handler.
- `properties.dfy` (module `Properties`): lemmas that relate several steps. They
  cover a lookup after a write-back, a lookup after a revalidation, an older
  bucket that shadows a refresh, and re-running the batch.

The network is an input. The batch takes a function from request to outcome.
The fetch handler takes the one outcome of its fetch. Host calls that fail
(a rejected bucket deletion) are inputs too.

Three consequences of the code as written:
- The install handler ends in `.catch`, which logs the error and resolves. So a
  failed batch does not fail the install event. It only means that skip-waiting
  is not requested.
- The activate handler runs its deletions under `Promise.all` with no `catch`.
  So one rejected deletion skips `clients.claim()`. The other deletions still
  take effect.
- A non-GET request can never hit, because only GET requests are ever stored.
  So it is never revalidated either.

## Model

| member | source | states |
|---|---|---|
| `CacheStorage.Open` | sw.js:27 | opening creates this bucket (empty, listed last) only when it is missing; no entry of any bucket changes |
| `CacheStorage.Put` | sw.js:89 | `cache.put` (over)writes exactly the one entry for the request in the named bucket; every other entry and the bucket names stay as they were |
| `CacheStorage.Delete` | sw.js:59 | `caches.delete` removes the bucket and its name, keeps every other bucket's entries, and keeps the storage well formed |
| `CacheStorage.Drop` | sw.js:53-59 | the remaining names are exactly the old names not deleted, no more of them than before, still without repeats |
| `CacheStorage.DropConcat` | sw.js:53-59 | deleting names from a list deletes them from each part of it separately, so the surviving names keep their relative order |
| `CacheStorage.MatchIn` | sw.js:76 | the lookup misses iff no listed bucket holds the request; on a hit it returns the entry of the first bucket in key order that holds it |
| `CacheStorage.MatchFirst` | sw.js:76 | when bucket `i` holds the request and no bucket listed before it does, the lookup returns bucket `i`'s entry |
| `CacheStorage.MatchAfterDrop` | sw.js:59-76 | after buckets are deleted, a lookup over the remaining names finds what a lookup over all the old names, skipping the deleted buckets, finds: deletion never reorders the search |
| `CacheStorage.Match` | sw.js:76 | `caches.match` searches all buckets: a hit is an entry of some listed bucket and is always for a GET request, and it misses iff no bucket holds the request |
| `CacheStorage.MatchInExtends` | sw.js:76 | a lookup depends only on the entries for that request: listing more buckets that lack it, or changing other requests' entries, leaves its result unchanged |
| `CacheStorage.Storable` | sw.js:30 | the status rule `cache.addAll` applies to each fetched response: a 200 always passes; a status below 200 (an opaque 0 included), a partial 206 or any status of 300 or more fails |
| `CacheStorage.BatchOk` | sw.js:30 | the rule deciding whether `cache.addAll` succeeds: an empty batch succeeds; a success means every fetch returned a response; a repeated request fails the batch |
| `CacheStorage.PutAll` | sw.js:30 | after the batch, the bucket holds the fetched response for every request of the batch, and every other entry is unchanged |
| `CacheStorage.AddAll` | sw.js:30 | `cache.addAll` is all-or-nothing: on success every request is stored with its fetched response; on failure the storage is unchanged; no other bucket changes |
| `ServiceWorker.IsStale` | sw.js:53-56 | a bucket name is stale exactly when the activate filter keeps it for deletion, which is every name except `pwa-lab-v1` |
| `ServiceWorker.RefreshesOnHit` | sw.js:87 | the hit path writes back only a status-200 response, and such a response is always one `cache.addAll` would store too |
| `ServiceWorker.StoresOnMiss` | sw.js:107 | what the miss path stores is a GET with a status `cache.addAll` would also accept, so storing it keeps the storage well formed |
| `ServiceWorker.StaleNames` | sw.js:52-56 | the names to delete are exactly the existing names other than `pwa-lab-v1` |
| `ServiceWorker.DeleteStale` | sw.js:48-62 | every stale bucket is deleted except those whose deletion is rejected; `allDeleted` holds iff no stale bucket's deletion was rejected |
| `ServiceWorker.SweepOutcome` | sw.js:48-62 | after the sweep only `pwa-lab-v1` and the buckets whose deletion was rejected remain; `pwa-lab-v1` is untouched; the storage stays well formed; a lookup searches the surviving buckets in their old order |
| `ServiceWorker.Precache` | sw.js:26-31 | the app-shell batch changes only bucket `pwa-lab-v1`, and the bucket order only by the open that lists a new `pwa-lab-v1` last; on success it holds the fetched response for every manifest URL; on failure its entries are unchanged (it may have been created empty) |
| `ServiceWorker.StoreCurrent` | sw.js:88-91 | a write from the fetch handler opens `pwa-lab-v1` (listed last if new) and sets exactly the entry for the request there, whichever bucket the lookup hit; every other bucket, entry and the lookup of every other request stay as they were |
| `ServiceWorker.Revalidate` | sw.js:84-97 | the background refresh overwrites the entry in `pwa-lab-v1` only for a status-200 response, changing the bucket order only by opening `pwa-lab-v1` last; lookups of other requests are unchanged; a non-200 status or a network failure leaves the storage unchanged |
| `ServiceWorker.WriteBack` | sw.js:104-115 | after a miss, the entry is stored only for a status-200 response to a GET, changing the bucket order only by opening `pwa-lab-v1` last; lookups of other requests are unchanged; otherwise, a failure included, the storage is unchanged |
| `ServiceWorker.AsksSkipWaiting` | sw.js:127 | the `SKIP_WAITING` branch is taken only for a message with data, and never together with the `UPDATE_CACHE` branch |
| `ServiceWorker.AsksUpdateCache` | sw.js:132 | the `UPDATE_CACHE` branch is taken only for a message with data that has a `type` |
| `ServiceWorker.Worker.constructor` | sw.js:2-20 | the worker starts on the storage it finds, with neither flag set and the app-shell manifest as its batch |
| `ServiceWorker.Worker.OnInstall` | sw.js:23-41 | install runs the batch into `pwa-lab-v1` and requests skip-waiting iff the batch succeeded; a failure is caught and clients are not touched |
| `ServiceWorker.Worker.OnActivate` | sw.js:44-69 | activation deletes every stale bucket whose deletion is not rejected, leaves `pwa-lab-v1` as it was, keeps the search order of the surviving buckets, and claims clients iff no deletion was rejected |
| `ServiceWorker.Worker.OnFetch` | sw.js:72-123 | on a hit the page gets the cached response whatever the network does, then the refresh runs; on a miss the page gets the network outcome itself (a failure is rethrown) and the write-back runs; the flags are untouched |
| `ServiceWorker.Worker.OnMessage` | sw.js:126-142 | `SKIP_WAITING` sets the skip-waiting flag; `UPDATE_CACHE` re-runs the batch and requests nothing; missing data or any other type changes nothing |
| `Properties.MatchSole` | sw.js:76 | when exactly one bucket holds the request, the lookup returns that bucket's entry |
| `Properties.MissThenLookup` | sw.js:104-114 | after a miss, the next lookup of the same request hits with the network's response iff that response had status 200 and the request was a GET; otherwise it misses again |
| `Properties.RefreshAfterActivation` | sw.js:84-92 | when no bucket listed before `pwa-lab-v1` holds the request (as after a full activation), a hit refreshed by a status-200 response is served that response on the next lookup |
| `Properties.OlderBucketShadowsRefresh` | sw.js:76-92 | for any well-formed storage: while a bucket other than `pwa-lab-v1`, listed before it, is the first to hold the request, the lookup serves that bucket's response, before and after any revalidation, because the refresh writes only to `pwa-lab-v1` |
| `Properties.ShadowExample` | sw.js:76-92 | an instance: with `pwa-lab-v0` left over and holding `/js/main.js`, a status-200 refresh still leaves the old response served |
| `Properties.PrecacheTwice` | sw.js:134-136 | re-running the app-shell batch against the same network outcomes leaves the storage as the first run left it |
| `Properties.ManifestDistinct` | sw.js:6-20 | no URL of the app shell is listed twice |
| `Properties.HealthyNetworkFillsManifest` | sw.js:30 | the app-shell batch succeeds whenever every one of its fetches returns status 200 |

## Left out

- Logging (`console.log`, `console.error`): it has no effect on state.
- Promise timing, `event.waitUntil` and `event.respondWith`: each handler is
  one sequential step. The fire-and-forget revalidation runs as a step after
  the reply is chosen. Concurrent handlers and last-write-wins races on one
  entry are not modelled.
- `self.skipWaiting()` and `self.clients.claim()` only set a flag. Their effect
  on the browser's worker lifecycle is not modelled.
- The real `fetch` and `Response.clone()`. Fetch outcomes are inputs, and
  response bodies are opaque values.
- Failures of `caches.open`, `caches.keys` and `cache.put`. The host is assumed
  to carry these out. The only host failure modelled is a rejected bucket
  deletion.
- Request matching details of the Cache API: the URL fragment and query,
  `Vary` headers and the `ignore*` options. A request matches an entry with the
  same method and URL.
- The promise returned by the `UPDATE_CACHE` batch rejects on failure. Nothing
  observes that rejection, so the model only records the storage effect.
- `ServiceWorker.Worker.OnActivate`: it does not model the order in which the
  concurrent deletions settle, or `Promise.all` rejecting before the other
  deletions finish. Only the state after all deletions have settled is stated.
