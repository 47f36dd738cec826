/**
 * The host's cache storage, reduced to plain data: an ordered list of bucket
 * names (the order in which `caches.keys()` reports them and `caches.match`
 * searches them) and a map from each name to its bucket of entries.
 * Every operation the worker uses (`caches.open`, `caches.delete`,
 * `caches.match`, `cache.put`, `cache.addAll`) is a function on that value.
 */
module CacheStorage {
  import opened Http

  type Bucket = map<Request, Response>

  datatype Storage = Storage(names: seq<string>, buckets: map<string, Bucket>)

  predicate Distinct<T(==)>(s: seq<T>) {
    forall i, j :: 0 <= i < j < |s| ==> s[i] != s[j]
  }

  /**
   * What the host keeps true of its storage: each name is listed once, the
   * listed names are exactly the buckets, and only GET requests are stored
   * (`cache.put` and `cache.addAll` refuse any other method).
   */
  ghost predicate WellFormed(st: Storage) {
    && Distinct(st.names)
    && (forall n :: n in st.buckets <==> n in st.names)
    && (forall n, k :: n in st.buckets && k in st.buckets[n] ==> k.verb == "GET")
  }

  /** The entry stored for `k` in bucket `n`, if there is one. */
  function Entry(buckets: map<string, Bucket>, n: string, k: Request): Option<Response> {
    if n in buckets && k in buckets[n] then Some(buckets[n][k]) else None
  }

  /** `names` without the names in `gone`, order kept. */
  function Drop(names: seq<string>, gone: set<string>): (r: seq<string>)
    ensures forall n :: n in r <==> n in names && n !in gone
    ensures |r| <= |names|
    ensures Distinct(names) ==> Distinct(r)
  {
    if names == [] then []
    else if names[0] in gone then Drop(names[1..], gone)
    else [names[0]] + Drop(names[1..], gone)
  }

  lemma {:induction false} DropNothing(names: seq<string>)
    ensures Drop(names, {}) == names
  {
    if names != [] {
      DropNothing(names[1..]);
    }
  }

  lemma {:induction false} DropTwice(names: seq<string>, a: set<string>, b: set<string>)
    ensures Drop(Drop(names, a), b) == Drop(names, a + b)
  {
    if names != [] {
      DropTwice(names[1..], a, b);
      if names[0] !in a {
        assert Drop(names, a) == [names[0]] + Drop(names[1..], a);
        assert Drop(names, a)[1..] == Drop(names[1..], a);
      }
    }
  }

  /**
   * Dropping names from a concatenation drops them from each part: together
   * with `Drop([n], gone)` being `[n]` or `[]`, the surviving names keep the
   * relative order they had.
   */
  lemma {:induction false} DropConcat(a: seq<string>, b: seq<string>, gone: set<string>)
    ensures Drop(a + b, gone) == Drop(a, gone) + Drop(b, gone)
  {
    if a == [] {
      assert a + b == b;
    } else {
      var ab := a + b;
      assert ab[0] == a[0] && ab[1..] == a[1..] + b;
      DropConcat(a[1..], b, gone);
      if a[0] !in gone {
        calc {
          Drop(ab, gone);
          [a[0]] + Drop(a[1..] + b, gone);
          [a[0]] + (Drop(a[1..], gone) + Drop(b, gone));
          ([a[0]] + Drop(a[1..], gone)) + Drop(b, gone);
        }
      }
    }
  }

  /** Deleting one more bucket after the buckets in `gone`. */
  lemma DeleteAfterDrops(names: seq<string>, buckets: map<string, Bucket>, gone: set<string>, name: string)
    ensures Delete(Storage(Drop(names, gone), buckets - gone), name)
            == Storage(Drop(names, gone + {name}), buckets - (gone + {name}))
  {
    DropTwice(names, gone, {name});
  }

  /** Dropping any set of buckets, names and all, keeps the storage well formed. */
  lemma DropWellFormed(st: Storage, gone: set<string>)
    requires WellFormed(st)
    ensures WellFormed(Storage(Drop(st.names, gone), st.buckets - gone))
  {
  }

  /**
   * `caches.open(name)`: the bucket is created empty, and listed last, when
   * it does not exist yet; no entry of any bucket changes.
   */
  function Open(st: Storage, name: string): (r: Storage)
    ensures name in r.buckets
    ensures name in st.buckets ==> r == st
    ensures name !in st.buckets ==> r.names == st.names + [name]
    ensures forall n :: n in r.buckets <==> n in st.buckets || n == name
    ensures forall n, k :: Entry(r.buckets, n, k) == Entry(st.buckets, n, k)
    ensures WellFormed(st) ==> WellFormed(r)
  {
    if name in st.buckets then st
    else Storage(st.names + [name], st.buckets[name := map[]])
  }

  /** `cache.put(req, resp)` on the bucket `name`: that one entry is (over)written. */
  function Put(st: Storage, name: string, req: Request, resp: Response): (r: Storage)
    requires name in st.buckets
    requires req.verb == "GET"
    ensures r.names == st.names && r.buckets.Keys == st.buckets.Keys
    ensures Entry(r.buckets, name, req) == Some(resp)
    ensures forall n, k :: n != name || k != req ==> Entry(r.buckets, n, k) == Entry(st.buckets, n, k)
    ensures WellFormed(st) ==> WellFormed(r)
  {
    Storage(st.names, st.buckets[name := st.buckets[name][req := resp]])
  }

  /** `caches.delete(name)`: the bucket and its name go; every other bucket stays as it was. */
  function Delete(st: Storage, name: string): (r: Storage)
    ensures name !in r.buckets
    ensures forall n :: n in r.buckets <==> n in st.buckets && n != name
    ensures forall n, k :: n != name ==> Entry(r.buckets, n, k) == Entry(st.buckets, n, k)
    ensures r.names == Drop(st.names, {name})
    ensures WellFormed(st) ==> WellFormed(r)
  {
    Storage(Drop(st.names, {name}), st.buckets - {name})
  }

  /**
   * `caches.match(req)` over the buckets listed in `names`: the entry of the
   * first of them that holds `req`.
   */
  function MatchIn(names: seq<string>, buckets: map<string, Bucket>, req: Request): (r: Option<Response>)
    ensures r.None? <==> forall i :: 0 <= i < |names| ==> Entry(buckets, names[i], req).None?
    ensures r.Some? ==> exists i :: 0 <= i < |names| && Entry(buckets, names[i], req) == r
                                   && forall j :: 0 <= j < i ==> Entry(buckets, names[j], req).None?
  {
    if names == [] then None
    else if Entry(buckets, names[0], req).Some? then Entry(buckets, names[0], req)
    else
      var r := MatchIn(names[1..], buckets, req);
      assert forall i :: 1 <= i < |names| ==> names[i] == names[1..][i - 1];
      if r.Some? then
        var i :| 0 <= i < |names[1..]| && Entry(buckets, names[1..][i], req) == r
                 && forall j :: 0 <= j < i ==> Entry(buckets, names[1..][j], req).None?;
        assert Entry(buckets, names[i + 1], req) == r;
        r
      else r
  }

  /** A hit is the entry of the first listed bucket that holds the request. */
  lemma MatchFirst(names: seq<string>, buckets: map<string, Bucket>, req: Request, i: nat)
    requires i < |names| && Entry(buckets, names[i], req).Some?
    requires forall j :: 0 <= j < i ==> Entry(buckets, names[j], req).None?
    ensures MatchIn(names, buckets, req) == Entry(buckets, names[i], req)
  {
    var r := MatchIn(names, buckets, req);
    assert r.Some?;
    var w :| 0 <= w < |names| && Entry(buckets, names[w], req) == r
             && forall j :: 0 <= j < w ==> Entry(buckets, names[j], req).None?;
    assert w == i;
  }

  /**
   * Deleting buckets does not reorder the rest: searching the remaining names
   * finds what searching all the old names, skipping the deleted buckets, finds.
   */
  lemma {:induction false} MatchAfterDrop(names: seq<string>, buckets: map<string, Bucket>, gone: set<string>, req: Request)
    ensures MatchIn(Drop(names, gone), buckets - gone, req) == MatchIn(names, buckets - gone, req)
  {
    if names != [] {
      MatchAfterDrop(names[1..], buckets, gone, req);
      if names[0] in gone {
        assert Entry(buckets - gone, names[0], req).None?;
      } else {
        var d := Drop(names, gone);
        assert d == [names[0]] + Drop(names[1..], gone);
        assert d[1..] == Drop(names[1..], gone);
      }
    }
  }

  /** `caches.match(req)`: searches every bucket in key order. */
  function Match(st: Storage, req: Request): (r: Option<Response>)
    ensures WellFormed(st) ==> (r.None? <==> forall n :: Entry(st.buckets, n, req).None?)
    ensures WellFormed(st) && r.Some? ==> req.verb == "GET"
    ensures r.Some? ==> exists n :: n in st.names && Entry(st.buckets, n, req) == r
  {
    var r := MatchIn(st.names, st.buckets, req);
    if r.Some? then
      var i :| 0 <= i < |st.names| && Entry(st.buckets, st.names[i], req) == r;
      r
    else r
  }

  /**
   * A lookup is decided by the entries for that one request: listing more
   * buckets that lack it, or changing entries for other requests, does not
   * change what it returns.
   */
  lemma MatchInExtends(names: seq<string>, more: seq<string>, b: map<string, Bucket>, b': map<string, Bucket>, k: Request)
    requires forall i :: 0 <= i < |names| ==> Entry(b', names[i], k) == Entry(b, names[i], k)
    requires forall i :: 0 <= i < |more| ==> Entry(b', more[i], k).None?
    ensures MatchIn(names + more, b', k) == MatchIn(names, b, k)
  {
    var all := names + more;
    assert forall i :: 0 <= i < |names| ==> all[i] == names[i];
    assert forall i :: |names| <= i < |all| ==> all[i] == more[i - |names|];
    var r := MatchIn(names, b, k);
    if r.Some? {
      var w :| 0 <= w < |names| && Entry(b, names[w], k) == r
               && forall j :: 0 <= j < w ==> Entry(b, names[j], k).None?;
      MatchFirst(all, b', k, w);
    } else {
      assert forall i :: 0 <= i < |all| ==> Entry(b', all[i], k).None?;
    }
  }

  /** The status test `cache.addAll` applies to each response: ok (2xx) and not partial (206). */
  predicate Storable(resp: Response)
    ensures resp.status == 200 ==> Storable(resp)
    ensures resp.status < 200 || resp.status == 206 || resp.status >= 300 ==> !Storable(resp)
  {
    200 <= resp.status <= 299 && resp.status != 206
  }

  /**
   * Whether `cache.addAll(reqs)` succeeds: no request repeats, each is a GET,
   * and each fetch yields a storable response.
   */
  predicate BatchOk(reqs: seq<Request>, network: Request -> NetResult)
    ensures reqs == [] ==> BatchOk(reqs, network)
    ensures BatchOk(reqs, network) ==> forall k :: k in reqs ==> network(k).Received?
    ensures forall i, j :: 0 <= i < j < |reqs| && reqs[i] == reqs[j] ==> !BatchOk(reqs, network)
  {
    && Distinct(reqs)
    && forall k :: k in reqs ==> k.verb == "GET" && network(k).Received? && Storable(network(k).response)
  }

  /** Writes the fetched response of every request of `reqs` into `bucket`. */
  function PutAll(bucket: Bucket, reqs: seq<Request>, network: Request -> NetResult): (r: Bucket)
    requires forall k :: k in reqs ==> network(k).Received?
    ensures forall k :: k in r <==> k in bucket || k in reqs
    ensures forall k :: k in reqs ==> r[k] == network(k).response
    ensures forall k :: k in bucket && k !in reqs ==> r[k] == bucket[k]
    decreases |reqs|
  {
    if reqs == [] then bucket
    else PutAll(bucket[reqs[0] := network(reqs[0]).response], reqs[1..], network)
  }

  /**
   * `cache.addAll(reqs)` on the bucket `name`: all or nothing. On success every
   * request of the batch is stored with its fetched response; on failure the
   * storage is unchanged. No other entry and no other bucket changes.
   */
  function AddAll(st: Storage, name: string, reqs: seq<Request>, network: Request -> NetResult): (r: Storage)
    requires name in st.buckets
    ensures r.names == st.names && r.buckets.Keys == st.buckets.Keys
    ensures BatchOk(reqs, network) ==>
              forall k :: k in reqs ==> Entry(r.buckets, name, k) == Some(network(k).response)
    ensures forall n, k :: n != name || k !in reqs ==> Entry(r.buckets, n, k) == Entry(st.buckets, n, k)
    ensures !BatchOk(reqs, network) ==> r == st
    ensures WellFormed(st) ==> WellFormed(r)
  {
    if BatchOk(reqs, network) then
      Storage(st.names, st.buckets[name := PutAll(st.buckets[name], reqs, network)])
    else st
  }
}
