/**
 * The worker of `sw.js`: its constants, the pure decisions its handlers make,
 * and the four handlers (install, activate, fetch, message) as methods of a
 * class that holds the cache storage and the two lifecycle flags.
 */
module ServiceWorker {
  import opened Http
  import opened CacheStorage

  const CacheVersion: string := "v1"
  /** The one bucket this version of the worker reads and writes. */
  const CacheName: string := "pwa-lab-" + CacheVersion

  /**
   * The app shell, stored as one batch on install and on UPDATE_CACHE; each
   * URL given to `cache.addAll` becomes a GET request for it.
   */
  const ManifestRequests: seq<Request> := [
    Request("GET", "/"),
    Request("GET", "/index.html"),
    Request("GET", "/other.html"),
    Request("GET", "/below/another.html"),
    Request("GET", "/js/main.js"),
    Request("GET", "/js/other.js"),
    Request("GET", "/js/another.js"),
    Request("GET", "/styles/index.css"),
    Request("GET", "/styles/other.css"),
    Request("GET", "/styles/another.css"),
    Request("GET", "/manifest/manifest.webmanifest"),
    Request("GET", "/manifest/iti-logo-192.png"),
    Request("GET", "/manifest/iti-logo-512.png")
  ]

  /** The activate handler's filter: a bucket is stale when it is not this version's. */
  predicate IsStale(name: string)
    ensures IsStale(name) <==> Drop([name], {CacheName}) == [name]
  {
    name != CacheName
  }

  /** The names, in key order, that the activate handler asks the host to delete. */
  function StaleNames(names: seq<string>): (r: seq<string>)
    ensures forall n :: n in r <==> n in names && n != CacheName
    ensures |r| <= |names|
  {
    Drop(names, {CacheName})
  }

  /** The stale buckets whose deletion the host carries out (it rejects those in `rejects`). */
  function Doomed(st: Storage, rejects: set<string>): set<string> {
    set n | n in st.names && IsStale(n) && n !in rejects
  }

  /** The hit path's revalidation test (sw.js line 87): only status 200 is written back. */
  predicate RefreshesOnHit(resp: Response)
    ensures RefreshesOnHit(resp) ==> Storable(resp)
  {
    resp.status == 200
  }

  /** The miss path's write-back test (sw.js line 107): status 200 and a GET request. */
  predicate StoresOnMiss(req: Request, resp: Response)
    ensures StoresOnMiss(req, resp) ==> Storable(resp) && req.verb == "GET"
  {
    resp.status == 200 && req.verb == "GET"
  }

  /**
   * The install handler's batch, also run by UPDATE_CACHE: open this version's
   * bucket and `addAll` the manifest (`ManifestRequests`) into it. Only that bucket can change; on
   * success it holds the fetched response of every manifest URL, on failure
   * its entries are as before (it may have been created, empty, by the open).
   */
  function Precache(st: Storage, manifest: seq<Request>, network: Request -> NetResult): (r: Storage)
    ensures CacheName in r.buckets
    ensures r.names == Open(st, CacheName).names
    ensures forall n :: n != CacheName ==> (n in r.buckets <==> n in st.buckets)
    ensures forall n, k :: n != CacheName ==> Entry(r.buckets, n, k) == Entry(st.buckets, n, k)
    ensures BatchOk(manifest, network) ==>
              forall k :: k in manifest ==> Entry(r.buckets, CacheName, k) == Some(network(k).response)
    ensures forall k :: k !in manifest || !BatchOk(manifest, network) ==>
              Entry(r.buckets, CacheName, k) == Entry(st.buckets, CacheName, k)
    ensures WellFormed(st) ==> WellFormed(r)
  {
    AddAll(Open(st, CacheName), CacheName, manifest, network)
  }

  /**
   * Stores `resp` for `req` in this version's bucket (opened first), as the
   * fetch handler does on both of its paths.
   */
  function StoreCurrent(st: Storage, req: Request, resp: Response): (r: Storage)
    requires req.verb == "GET"
    ensures CacheName in r.buckets
    ensures r.names == Open(st, CacheName).names
    ensures forall n :: n != CacheName ==> (n in r.buckets <==> n in st.buckets)
    ensures Entry(r.buckets, CacheName, req) == Some(resp)
    ensures forall n, k :: n != CacheName || k != req ==> Entry(r.buckets, n, k) == Entry(st.buckets, n, k)
    ensures forall k :: k != req ==> Match(r, k) == Match(st, k)
    ensures WellFormed(st) ==> WellFormed(r)
  {
    var r := Put(Open(st, CacheName), CacheName, req, resp);
    var more := if CacheName in st.buckets then [] else [CacheName];
    assert r.names == st.names + more;
    forall k | k != req
      ensures Match(r, k) == Match(st, k)
    {
      MatchInExtends(st.names, more, st.buckets, r.buckets, k);
    }
    r
  }

  /**
   * The background revalidation after a hit: a status-200 response overwrites
   * the entry for `req` in this version's bucket; anything else changes nothing.
   */
  function Revalidate(st: Storage, req: Request, net: NetResult): (r: Storage)
    requires WellFormed(st) && Match(st, req).Some?
    ensures WellFormed(r)
    ensures net.Received? && RefreshesOnHit(net.response) ==>
              Entry(r.buckets, CacheName, req) == Some(net.response)
    ensures net.Received? && RefreshesOnHit(net.response) ==> r.names == Open(st, CacheName).names
    ensures forall n, k :: n != CacheName || k != req ==> Entry(r.buckets, n, k) == Entry(st.buckets, n, k)
    ensures forall k :: k != req ==> Match(r, k) == Match(st, k)
    ensures !(net.Received? && RefreshesOnHit(net.response)) ==> r == st
  {
    if net.Received? && RefreshesOnHit(net.response) then StoreCurrent(st, req, net.response) else st
  }

  /**
   * The write-back after a miss: a status-200 response to a GET is stored in
   * this version's bucket; anything else, a failure included, changes nothing.
   */
  function WriteBack(st: Storage, req: Request, net: NetResult): (r: Storage)
    requires WellFormed(st)
    ensures WellFormed(r)
    ensures net.Received? && StoresOnMiss(req, net.response) ==>
              Entry(r.buckets, CacheName, req) == Some(net.response)
    ensures net.Received? && StoresOnMiss(req, net.response) ==> r.names == Open(st, CacheName).names
    ensures forall n, k :: n != CacheName || k != req ==> Entry(r.buckets, n, k) == Entry(st.buckets, n, k)
    ensures forall k :: k != req ==> Match(r, k) == Match(st, k)
    ensures !(net.Received? && StoresOnMiss(req, net.response)) ==> r == st
  {
    if net.Received? && StoresOnMiss(req, net.response) then StoreCurrent(st, req, net.response) else st
  }

  /**
   * The activate handler's sweep: asks the host to delete every stale bucket,
   * in key order. The host carries out every deletion except those of the
   * names in `rejects`; `allDeleted` tells whether none was rejected, which is
   * when the `Promise.all` over the deletions resolves.
   */
  method DeleteStale(st: Storage, rejects: set<string>) returns (r: Storage, allDeleted: bool)
    ensures r.buckets == st.buckets - Doomed(st, rejects)
    ensures r.names == Drop(st.names, Doomed(st, rejects))
    ensures allDeleted <==> forall n :: n in st.names && IsStale(n) ==> n !in rejects
  {
    r := st;
    var stale := StaleNames(st.names);
    DropNothing(st.names);
    ghost var seen: set<string> := {};
    ghost var gone: set<string> := {};
    allDeleted := true;
    var i := 0;
    while i < |stale|
      invariant 0 <= i <= |stale|
      invariant forall n :: n in seen <==> n in stale[..i]
      invariant gone == seen - rejects
      invariant r == Storage(Drop(st.names, gone), st.buckets - gone)
      invariant allDeleted <==> seen !! rejects
    {
      var name := stale[i];
      SweepStep(st, rejects, stale, i, seen, gone);
      if name !in rejects {
        r := Delete(r, name);
        gone := gone + {name};
      } else {
        allDeleted := false;
      }
      seen := seen + {name};
      i := i + 1;
    }
    assert stale[..i] == stale;
    SweptAreDoomed(st, rejects, seen);
  }

  /** The stale names the sweep went through, without the rejected ones, are `Doomed(st, rejects)`. */
  lemma SweptAreDoomed(st: Storage, rejects: set<string>, seen: set<string>)
    requires forall n :: n in seen <==> n in StaleNames(st.names)
    ensures seen - rejects == Doomed(st, rejects)
    ensures seen !! rejects <==> forall n :: n in st.names && IsStale(n) ==> n !in rejects
  {
  }

  /** One step of the sweep: the name at `i` is seen, and deleted unless rejected. */
  lemma SweepStep(st: Storage, rejects: set<string>, stale: seq<string>, i: nat, seen: set<string>, gone: set<string>)
    requires i < |stale|
    requires forall n :: n in seen <==> n in stale[..i]
    requires gone == seen - rejects
    ensures forall n :: n in seen + {stale[i]} <==> n in stale[..i + 1]
    ensures stale[i] in rejects ==> gone == (seen + {stale[i]}) - rejects
    ensures stale[i] !in rejects ==> gone + {stale[i]} == (seen + {stale[i]}) - rejects
    ensures Delete(Storage(Drop(st.names, gone), st.buckets - gone), stale[i])
            == Storage(Drop(st.names, gone + {stale[i]}), st.buckets - (gone + {stale[i]}))
  {
    assert stale[..i + 1] == stale[..i] + [stale[i]];
    DeleteAfterDrops(st.names, st.buckets, gone, stale[i]);
  }

  /**
   * What the sweep leaves: a well-formed storage where only this version's
   * bucket and the buckets whose deletion was rejected remain, and this
   * version's bucket, if it existed, is as it was. A lookup afterwards
   * searches the surviving buckets in their old order.
   */
  lemma SweepOutcome(st: Storage, rejects: set<string>)
    requires WellFormed(st)
    ensures var r := Storage(Drop(st.names, Doomed(st, rejects)), st.buckets - Doomed(st, rejects));
            && WellFormed(r)
            && (forall n :: n in r.buckets ==> n == CacheName || n in rejects)
            && (CacheName in st.buckets ==> CacheName in r.buckets && r.buckets[CacheName] == st.buckets[CacheName])
            && (forall req :: Match(r, req) == MatchIn(st.names, st.buckets - Doomed(st, rejects), req))
  {
    var doomed := Doomed(st, rejects);
    DropWellFormed(st, doomed);
    forall req {
      MatchAfterDrop(st.names, st.buckets, doomed, req);
    }
  }

  /**
   * The `data` of a message event: `NoData` when it is falsy, otherwise
   * `Payload(kind)` where `kind` is its `type` field when that is a string.
   */
  datatype MessageData = NoData | Payload(kind: Option<string>)

  /** The SKIP_WAITING branch (sw.js line 127); missing data never takes it, and it excludes UPDATE_CACHE. */
  predicate AsksSkipWaiting(data: MessageData)
    ensures AsksSkipWaiting(data) ==> data.Payload? && !AsksUpdateCache(data)
  {
    data.Payload? && data.kind == Some("SKIP_WAITING")
  }

  /** The UPDATE_CACHE branch (sw.js line 132); missing data never takes it. */
  predicate AsksUpdateCache(data: MessageData)
    ensures AsksUpdateCache(data) ==> data.Payload? && data.kind.Some?
  {
    data.Payload? && data.kind == Some("UPDATE_CACHE")
  }

  class Worker {
    /** The requests of the app shell, `ManifestRequests`. */
    const manifest: seq<Request>
    /** The host's cache storage, as this worker sees it. */
    var storage: Storage
    /** Set once `self.skipWaiting()` has been called. */
    var skipWaitingRequested: bool
    /** Set once `self.clients.claim()` has been called. */
    var clientsClaimed: bool

    ghost predicate Valid()
      reads this
    {
      WellFormed(storage)
    }

    /** A worker starting on whatever storage earlier versions left behind. */
    constructor (existing: Storage)
      requires WellFormed(existing)
      ensures Valid()
      ensures storage == existing && !skipWaitingRequested && !clientsClaimed
      ensures manifest == ManifestRequests
    {
      manifest := ManifestRequests;
      storage := existing;
      skipWaitingRequested := false;
      clientsClaimed := false;
    }

    /**
     * The install handler. The batch's failure is caught, so the handler
     * itself always completes; `stored` tells whether the batch succeeded,
     * and skip-waiting is requested exactly then.
     */
    method OnInstall(network: Request -> NetResult) returns (stored: bool)
      requires Valid()
      modifies this
      ensures Valid()
      ensures stored == BatchOk(manifest, network)
      ensures storage == Precache(old(storage), manifest, network)
      ensures skipWaitingRequested == (old(skipWaitingRequested) || stored)
      ensures clientsClaimed == old(clientsClaimed)
    {
      storage := Open(storage, CacheName);
      stored := BatchOk(manifest, network);
      storage := AddAll(storage, CacheName, manifest, network);
      if stored {
        skipWaitingRequested := true;
      }
    }

    /**
     * The activate handler. Every stale bucket is deleted except those whose
     * deletion the host rejects (`rejects`); the current bucket is untouched.
     * Clients are claimed only when every deletion succeeded, since a rejected
     * deletion rejects the whole `Promise.all` and nothing catches it.
     */
    method OnActivate(rejects: set<string>) returns (claimed: bool)
      requires Valid()
      modifies this
      ensures Valid()
      ensures storage.buckets == old(storage.buckets) - Doomed(old(storage), rejects)
      ensures storage.names == Drop(old(storage.names), Doomed(old(storage), rejects))
      ensures forall n :: n in storage.buckets ==> n == CacheName || n in rejects
      ensures CacheName in old(storage.buckets) ==>
                CacheName in storage.buckets && storage.buckets[CacheName] == old(storage.buckets[CacheName])
      ensures forall req :: Match(storage, req) == MatchIn(old(storage.names), old(storage.buckets) - Doomed(old(storage), rejects), req)
      ensures claimed <==> forall n :: n in old(storage.names) && IsStale(n) ==> n !in rejects
      ensures clientsClaimed == (old(clientsClaimed) || claimed)
      ensures skipWaitingRequested == old(skipWaitingRequested)
    {
      SweepOutcome(storage, rejects);
      var swept, allDeleted := DeleteStale(storage, rejects);
      storage := swept;
      if allDeleted {
        clientsClaimed := true;
      }
      claimed := allDeleted;
    }

    /**
     * The fetch handler, stale-while-revalidate. `net` is what fetching `req`
     * settles to. On a hit the cached response is the reply whatever `net` is,
     * and the revalidation runs after it; on a miss the reply is `net` itself
     * (a failure is passed on to the page) and the write-back runs.
     */
    method OnFetch(req: Request, net: NetResult) returns (reply: NetResult)
      requires Valid()
      modifies this
      ensures Valid()
      ensures Match(old(storage), req).Some? ==>
                reply == Received(Match(old(storage), req).value)
                && storage == Revalidate(old(storage), req, net)
      ensures Match(old(storage), req).None? ==>
                reply == net && storage == WriteBack(old(storage), req, net)
      ensures skipWaitingRequested == old(skipWaitingRequested)
      ensures clientsClaimed == old(clientsClaimed)
    {
      var cached := Match(storage, req);
      if cached.Some? {
        reply := Received(cached.value);
        if net.Received? && RefreshesOnHit(net.response) {
          storage := StoreCurrent(storage, req, net.response);
        }
      } else {
        if net.Received? && StoresOnMiss(req, net.response) {
          storage := StoreCurrent(storage, req, net.response);
        }
        reply := net;
      }
    }

    /**
     * The message handler: SKIP_WAITING requests skip-waiting, UPDATE_CACHE
     * re-runs the manifest batch (its failure is not caught, and requests
     * nothing), and any other message changes nothing.
     */
    method OnMessage(data: MessageData, network: Request -> NetResult)
      requires Valid()
      modifies this
      ensures Valid()
      ensures skipWaitingRequested == (old(skipWaitingRequested) || AsksSkipWaiting(data))
      ensures storage == if AsksUpdateCache(data) then Precache(old(storage), manifest, network) else old(storage)
      ensures clientsClaimed == old(clientsClaimed)
    {
      if AsksSkipWaiting(data) {
        skipWaitingRequested := true;
      }
      if AsksUpdateCache(data) {
        storage := Precache(storage, manifest, network);
      }
    }
  }
}
