/**
 * Properties that relate several steps of the worker: what a later lookup
 * sees after a write-back or a revalidation, and what re-running the
 * manifest batch does.
 */
module Properties {
  import opened Http
  import opened CacheStorage
  import opened ServiceWorker

  /** When exactly one bucket holds `req`, the lookup returns that bucket's entry. */
  lemma MatchSole(st: Storage, name: string, req: Request)
    requires WellFormed(st)
    requires Entry(st.buckets, name, req).Some?
    requires forall n :: n != name ==> Entry(st.buckets, n, req).None?
    ensures Match(st, req) == Entry(st.buckets, name, req)
  {
    var r := Match(st, req);
    assert name in st.names;
    assert r.Some?;
    var i :| 0 <= i < |st.names| && Entry(st.buckets, st.names[i], req) == r;
    assert st.names[i] == name;
  }

  /**
   * A miss followed by its write-back: the next lookup of the same request
   * hits, with the network's response, exactly when that response had status
   * 200 and the request was a GET; otherwise it misses again.
   */
  lemma MissThenLookup(st: Storage, req: Request, net: NetResult)
    requires WellFormed(st) && Match(st, req).None?
    ensures Match(WriteBack(st, req, net), req)
            == if net.Received? && StoresOnMiss(req, net.response) then Some(net.response) else None
  {
    var r := WriteBack(st, req, net);
    if net.Received? && StoresOnMiss(req, net.response) {
      MatchSole(r, CacheName, req);
    }
  }

  /**
   * A hit in this version's bucket, with no bucket listed before it holding
   * the request (activation deleted the others, or they never held it), is
   * served fresh on the next lookup once a status-200 response revalidates it.
   */
  lemma RefreshAfterActivation(st: Storage, req: Request, net: NetResult, c: nat)
    requires WellFormed(st) && Match(st, req).Some?
    requires c < |st.names| && st.names[c] == CacheName
    requires forall j :: 0 <= j < c ==> Entry(st.buckets, st.names[j], req).None?
    requires net.Received? && RefreshesOnHit(net.response)
    ensures Match(Revalidate(st, req, net), req) == Some(net.response)
  {
    var r := Revalidate(st, req, net);
    assert r.names == st.names;
    forall j | 0 <= j < c
      ensures Entry(r.buckets, r.names[j], req).None?
    {
      assert st.names[j] != CacheName;
    }
    MatchFirst(r.names, r.buckets, req, c);
  }

  /**
   * While an older bucket that holds the request is listed before this
   * version's bucket (before activation, or after its deletion was rejected),
   * the lookup keeps serving that bucket's response whatever the revalidation
   * brings: the revalidation writes only to this version's bucket.
   */
  lemma OlderBucketShadowsRefresh(st: Storage, req: Request, net: NetResult, i: nat)
    requires WellFormed(st)
    requires i < |st.names| && Entry(st.buckets, st.names[i], req).Some?
    requires forall j :: 0 <= j <= i ==> st.names[j] != CacheName
    requires forall j :: 0 <= j < i ==> Entry(st.buckets, st.names[j], req).None?
    ensures Match(st, req) == Entry(st.buckets, st.names[i], req)
    ensures Match(Revalidate(st, req, net), req) == Match(st, req)
  {
    MatchFirst(st.names, st.buckets, req, i);
    var r := Revalidate(st, req, net);
    assert |st.names| <= |r.names|;
    forall j | 0 <= j <= i
      ensures r.names[j] == st.names[j]
      ensures Entry(r.buckets, r.names[j], req) == Entry(st.buckets, st.names[j], req)
    {
    }
    MatchFirst(r.names, r.buckets, req, i);
  }

  /** An instance: `pwa-lab-v0` survived activation and still holds `/js/main.js`. */
  lemma ShadowExample(older: Response, cached: Response, renewed: Response)
    requires renewed.status == 200
    ensures var req := Request("GET", "/js/main.js");
            var st := Storage(["pwa-lab-v0", CacheName],
                              map["pwa-lab-v0" := map[req := older], CacheName := map[req := cached]]);
            && WellFormed(st)
            && Match(st, req) == Some(older)
            && Match(Revalidate(st, req, Received(renewed)), req) == Some(older)
  {
    var req := Request("GET", "/js/main.js");
    var st := Storage(["pwa-lab-v0", CacheName],
                      map["pwa-lab-v0" := map[req := older], CacheName := map[req := cached]]);
    assert "pwa-lab-v0" != CacheName by {
      assert "pwa-lab-v0"[9] != CacheName[9];
    }
    assert WellFormed(st);
    OlderBucketShadowsRefresh(st, req, Received(renewed), 0);
  }

  /** Storing the same batch twice gives the same bucket as storing it once. */
  lemma PutAllTwice(bucket: Bucket, reqs: seq<Request>, network: Request -> NetResult)
    requires forall k :: k in reqs ==> network(k).Received?
    ensures PutAll(PutAll(bucket, reqs, network), reqs, network) == PutAll(bucket, reqs, network)
  {
    var once := PutAll(bucket, reqs, network);
    var twice := PutAll(once, reqs, network);
    assert twice.Keys == once.Keys;
    forall k | k in twice
      ensures twice[k] == once[k]
    {
    }
  }

  /**
   * Re-running the manifest batch (UPDATE_CACHE) against the same network
   * results leaves the storage as the first run left it.
   */
  lemma PrecacheTwice(st: Storage, manifest: seq<Request>, network: Request -> NetResult)
    ensures Precache(Precache(st, manifest, network), manifest, network) == Precache(st, manifest, network)
  {
    var once := Precache(st, manifest, network);
    var withBucket := Open(st, CacheName);
    assert once == AddAll(withBucket, CacheName, manifest, network);
    assert Open(once, CacheName) == once;
    if BatchOk(manifest, network) {
      PutAllTwice(withBucket.buckets[CacheName], manifest, network);
    }
  }

  /** No URL of the app shell is listed twice. */
  lemma ManifestDistinct()
    ensures Distinct(ManifestRequests)
  {
  }

  /**
   * The manifest batch succeeds whenever every one of its fetches returns
   * status 200: the duplicate check of `cache.addAll` never fails it.
   */
  lemma HealthyNetworkFillsManifest(network: Request -> NetResult)
    requires forall k :: k in ManifestRequests ==> network(k).Received? && network(k).response.status == 200
    ensures BatchOk(ManifestRequests, network)
  {
    ManifestDistinct();
    assert forall k :: k in ManifestRequests ==> k.verb == "GET";
    forall k | k in ManifestRequests
      ensures Storable(network(k).response)
    {
    }
  }
}
