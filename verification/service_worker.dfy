/**
 The offline layer of the trainer: its install, activate and fetch handlers
 as pure transitions over the origin's Cache Storage. The host's network is
 an input (`NetOutcome`), and so are the page origin and the worker's base URL.
 */
module ServiceWorker {
  import opened Wrappers
  import opened CacheStorage

  /** The current cache generation. */
  const CACHE_NAME: string := "number-recall-trainer-v1"

  /** The application shell installed for offline use, relative to the worker. */
  const OFFLINE_ASSETS: seq<string> := [
    "./",
    "./index.html",
    "./manifest.webmanifest",
    "./icons/icon-180.png",
    "./icons/icon-192.png",
    "./icons/icon-512.png"
  ]

  /** The document served to navigations while offline. */
  const INDEX_PATH: string := "./index.html"

  /** What the network does with one request. */
  datatype NetOutcome = Ok(response: Response) | Fail

  /** Resolves a path written relative to the worker (`./x`) against its base URL. */
  function Resolve(base: Url, path: string): Url {
    if |path| >= 2 && path[..2] == "./" then base + path[2..] else path
  }

  /** The URLs `cache.addAll(OFFLINE_ASSETS)` stores. */
  function AssetUrls(base: Url): (urls: seq<Url>)
    ensures |urls| == |OFFLINE_ASSETS|
    ensures urls[1] == Resolve(base, INDEX_PATH)
  {
    ResolveAll(base, OFFLINE_ASSETS)
  }

  function ResolveAll(base: Url, paths: seq<string>): (urls: seq<Url>)
    ensures |urls| == |paths|
    ensures forall i :: 0 <= i < |paths| ==> urls[i] == Resolve(base, paths[i])
  {
    if |paths| == 0 then [] else [Resolve(base, paths[0])] + ResolveAll(base, paths[1..])
  }

  // ---------- install ----------

  /**
   A fetch result `cache.addAll` accepts: a response that is not an error
   response and whose status is ok (200-299) but not 206 (partial content).
   */
  predicate Storable(o: NetOutcome) {
    o.Ok? && o.response.kind != Error && 200 <= o.response.status <= 299 && o.response.status != 206
  }

  predicate AllStorable(urls: seq<Url>, net: Url -> NetOutcome) {
    forall i :: 0 <= i < |urls| ==> Storable(net(urls[i]))
  }

  /**
   `cache.addAll(urls)` on a store `s`: fetches every URL; when each fetch
   yields an ok response, all of them are put (the result is Some),
   otherwise the operation rejects and nothing is stored (None).
   */
  function AddAll(s: Store, urls: seq<Url>, net: Url -> NetOutcome): (r: Option<Store>)
    ensures r.Some? <==> AllStorable(urls, net)
    ensures r.Some? ==> forall i :: 0 <= i < |urls| ==> urls[i] in r.value && r.value[urls[i]] == net(urls[i]).response
    ensures r.Some? ==> forall u :: u !in urls ==> (u in r.value <==> u in s) && (u in s ==> r.value[u] == s[u])
    decreases |urls|
  {
    if |urls| == 0 then Some(s)
    else if !Storable(net(urls[0])) then None
    else
      var r := AddAll(s[urls[0] := net(urls[0]).response], urls[1..], net);
      assert forall i :: 1 <= i < |urls| ==> urls[i] == urls[1..][i - 1];
      r
  }

  /** How the promise handed to `event.waitUntil` settles. */
  datatype Settled = Resolved | Rejected

  datatype InstallStep = InstallStep(settled: Settled, registry: Registry)

  /**
   The install handler. It opens (creating) the current store and adds the
   offline assets to it; a failed `addAll` is caught and logged, so the
   install promise resolves whether or not the assets were cached.
   */
  function Install(reg: Registry, base: Url, net: Url -> NetOutcome): (r: InstallStep)
    ensures r.settled == Resolved
    ensures CACHE_NAME in Names(r.registry)
    ensures CACHE_NAME in Names(reg) ==> Names(r.registry) == Names(reg)
    ensures CACHE_NAME !in Names(reg) ==> Names(r.registry) == Names(reg) + [CACHE_NAME]
    ensures forall n :: n != CACHE_NAME ==> Lookup(r.registry, n) == Lookup(reg, n)
    ensures Valid(reg) ==> Valid(r.registry)
    ensures AllStorable(AssetUrls(base), net) ==>
              forall u :: u in AssetUrls(base) ==>
                u in StoreOf(r.registry, CACHE_NAME) && StoreOf(r.registry, CACHE_NAME)[u] == net(u).response
    ensures AllStorable(AssetUrls(base), net) ==>
              forall u :: u !in AssetUrls(base) && u in StoreOf(reg, CACHE_NAME) ==>
                u in StoreOf(r.registry, CACHE_NAME) && StoreOf(r.registry, CACHE_NAME)[u] == StoreOf(reg, CACHE_NAME)[u]
    ensures AllStorable(AssetUrls(base), net) ==>
              forall u :: u in StoreOf(r.registry, CACHE_NAME) ==> u in AssetUrls(base) || u in StoreOf(reg, CACHE_NAME)
    ensures !AllStorable(AssetUrls(base), net) ==>
              StoreOf(r.registry, CACHE_NAME) == StoreOf(reg, CACHE_NAME)
  {
    var current := Open(reg, CACHE_NAME);
    var urls := AssetUrls(base);
    match AddAll(StoreOf(current, CACHE_NAME), urls, net)
    case Some(s) => InstallStep(Resolved, WithStore(current, CACHE_NAME, s))
    case None => InstallStep(Resolved, current)
  }

  // ---------- activate ----------

  /** The names `caches.keys()` lists that are not the current generation. */
  function StaleNames(reg: Registry): (ns: seq<string>)
    ensures forall n :: n in ns <==> n in Names(reg) && n != CACHE_NAME
  {
    if |reg| == 0 then []
    else if reg[0].name == CACHE_NAME then StaleNames(reg[1..])
    else [reg[0].name] + StaleNames(reg[1..])
  }

  /** Deletes the stores named in `ns`, one `caches.delete` each. */
  function DeleteAll(reg: Registry, ns: seq<string>): (r: Registry)
    ensures forall n :: Lookup(r, n) == if n in ns then None else Lookup(reg, n)
    ensures Valid(reg) ==> Valid(r)
    decreases |ns|
  {
    if |ns| == 0 then reg else DeleteAll(Delete(reg, ns[0]), ns[1..])
  }

  /** The activate handler: every store but the current generation is deleted. */
  function Activate(reg: Registry): (r: Registry)
    ensures forall i :: 0 <= i < |r| ==> r[i].name == CACHE_NAME
    ensures Lookup(r, CACHE_NAME) == Lookup(reg, CACHE_NAME)
    ensures Valid(reg) ==> Valid(r) && |r| <= 1
  {
    var r := DeleteAll(reg, StaleNames(reg));
    assert forall i :: 0 <= i < |r| ==> r[i].name == CACHE_NAME by {
      forall i | 0 <= i < |r| ensures r[i].name == CACHE_NAME {
        assert Names(r)[i] == r[i].name;
        assert Lookup(r, r[i].name).Some?;
      }
    }
    assert Valid(reg) ==> |r| <= 1;
    r
  }

  /** A second activation finds nothing stale and leaves the registry as it was. */
  lemma ActivateIdempotent(reg: Registry)
    ensures StaleNames(Activate(reg)) == []
    ensures Activate(Activate(reg)) == Activate(reg)
  {
    StaleNamesOfCurrent(Activate(reg));
  }

  lemma {:induction false} StaleNamesOfCurrent(reg: Registry)
    requires forall i :: 0 <= i < |reg| ==> reg[i].name == CACHE_NAME
    ensures StaleNames(reg) == []
  {
    if |reg| > 0 {
      StaleNamesOfCurrent(reg[1..]);
    }
  }

  /** Deleting a list of stores one by one removes exactly the set of names listed. */
  lemma {:induction false} DeleteAllIsWithout(reg: Registry, ns: seq<string>)
    ensures DeleteAll(reg, ns) == Without(reg, set n | n in ns)
    decreases |ns|
  {
    if |ns| == 0 {
      assert (set n | n in ns) == {};
      WithoutNothing(reg);
    } else {
      DeleteAllIsWithout(Without(reg, {ns[0]}), ns[1..]);
      WithoutWithout(reg, {ns[0]}, set n | n in ns[1..]);
      assert {ns[0]} + (set n | n in ns[1..]) == set n | n in ns;
    }
  }

  lemma {:induction false} WithoutNothing(reg: Registry)
    ensures Without(reg, {}) == reg
  {
    if |reg| > 0 {
      WithoutNothing(reg[1..]);
    }
  }

  /**
   The activate handler issues its deletions concurrently; whatever order
   they complete in, the same registry results.
   */
  lemma ActivateOrderIrrelevant(reg: Registry, ns: seq<string>)
    requires forall n :: n in ns <==> n in StaleNames(reg)
    ensures DeleteAll(reg, ns) == Activate(reg)
  {
    DeleteAllIsWithout(reg, ns);
    DeleteAllIsWithout(reg, StaleNames(reg));
    assert (set n | n in ns) == (set n | n in StaleNames(reg));
  }

  // ---------- fetch ----------

  datatype RequestMode = Navigate | SameOrigin | NoCors | Cors

  datatype Request = Request(verb: string, url: Url, mode: RequestMode)

  /**
   What the fetch handler does with an event: leave it to the browser's
   default handling (no `respondWith`), or respond with a response, or with
   nothing when `caches.match` finds no entry. `usedNetwork` records whether
   the handler itself called `fetch`.
   */
  datatype Reply = PassThrough | Respond(response: Option<Response>, usedNetwork: bool)

  datatype FetchStep = FetchStep(reply: Reply, registry: Registry)

  /** The synthetic response for a failed non-navigation request. */
  const OFFLINE_RESPONSE: Response := Response(503, "Service Unavailable", Default, "Offline")

  /** The handler intercepts GET requests whose URL begins with the origin string. */
  predicate Eligible(origin: string, req: Request) {
    req.verb == "GET" && origin <= req.url
  }

  /** A network response worth caching: status 200 and not an error response. */
  predicate Cacheable(resp: Response) {
    resp.status == 200 && resp.kind != Error
  }

  /** A request the handler sends to the network and whose answer it stores. */
  predicate CacheableMiss(reg: Registry, origin: string, req: Request, net: NetOutcome) {
    Eligible(origin, req) && MatchAll(reg, req.url).None? && net.Ok? && Cacheable(net.response)
  }

  /** The fetch handler: cache first, then network, then an offline fallback. */
  function HandleFetch(reg: Registry, origin: string, base: Url, req: Request, net: NetOutcome): (r: FetchStep)
    ensures !Eligible(origin, req) ==> r.reply.PassThrough? && r.registry == reg
    ensures Eligible(origin, req) && MatchAll(reg, req.url).Some? ==>
              r.reply == Respond(MatchAll(reg, req.url), false) && r.registry == reg
    ensures r.registry != reg ==> CacheableMiss(reg, origin, req, net)
    ensures CacheableMiss(reg, origin, req, net) ==>
              && r.reply == Respond(Some(net.response), true)
              && Lookup(r.registry, CACHE_NAME) == Some(StoreOf(reg, CACHE_NAME)[req.url := net.response])
              && (forall n :: n != CACHE_NAME ==> Lookup(r.registry, n) == Lookup(reg, n))
              && (CACHE_NAME in Names(reg) ==> Names(r.registry) == Names(reg))
              && (CACHE_NAME !in Names(reg) ==> Names(r.registry) == Names(reg) + [CACHE_NAME])
              && (forall u :: u != req.url ==> MatchAll(r.registry, u) == MatchAll(reg, u))
    ensures Eligible(origin, req) && MatchAll(reg, req.url).None? && net.Ok? && !Cacheable(net.response) ==>
              r.reply == Respond(Some(net.response), true)
    ensures Eligible(origin, req) && MatchAll(reg, req.url).None? && net.Fail? && req.mode == Navigate ==>
              r.reply == Respond(MatchAll(reg, Resolve(base, INDEX_PATH)), true)
    ensures Eligible(origin, req) && MatchAll(reg, req.url).None? && net.Fail? && req.mode != Navigate ==>
              r.reply == Respond(Some(OFFLINE_RESPONSE), true) && r.registry == reg
    ensures Valid(reg) ==> Valid(r.registry)
  {
    if req.verb != "GET" then FetchStep(PassThrough, reg)
    else if !(origin <= req.url) then FetchStep(PassThrough, reg)
    else match MatchAll(reg, req.url)
      case Some(cached) => FetchStep(Respond(Some(cached), false), reg)
      case None =>
        match net
        case Ok(resp) =>
          if resp.status != 200 || resp.kind == Error then FetchStep(Respond(Some(resp), true), reg)
          else
            assert forall u :: u != req.url ==> MatchAll(Put(reg, CACHE_NAME, req.url, resp), u) == MatchAll(reg, u) by {
              forall u | u != req.url {
                MatchAfterPutOther(reg, CACHE_NAME, req.url, resp, u);
              }
            }
            FetchStep(Respond(Some(resp), true), Put(reg, CACHE_NAME, req.url, resp))
        case Fail =>
          if req.mode == Navigate then FetchStep(Respond(MatchAll(reg, Resolve(base, INDEX_PATH)), true), reg)
          else FetchStep(Respond(Some(OFFLINE_RESPONSE), true), reg)
  }

  /** A request the handler does not intercept, or a cache hit, does not depend on the network. */
  lemma HitIgnoresNetwork(reg: Registry, origin: string, base: Url, req: Request, net1: NetOutcome, net2: NetOutcome)
    requires !Eligible(origin, req) || MatchAll(reg, req.url).Some?
    ensures HandleFetch(reg, origin, base, req, net1) == HandleFetch(reg, origin, base, req, net2)
    ensures HandleFetch(reg, origin, base, req, net1).reply.PassThrough? ||
            !HandleFetch(reg, origin, base, req, net1).reply.usedNetwork
  {
  }

  /**
   After a cacheable miss, the same request is a cache hit: it is answered
   with the stored response, without the network and without a write.
   */
  lemma RepeatIsHit(reg: Registry, origin: string, base: Url, req: Request, net: NetOutcome, net2: NetOutcome)
    requires CacheableMiss(reg, origin, req, net)
    ensures var after := HandleFetch(reg, origin, base, req, net).registry;
            HandleFetch(after, origin, base, req, net2) == FetchStep(Respond(Some(net.response), false), after)
  {
    MatchAfterPut(reg, CACHE_NAME, req.url, net.response);
  }

  /** In a registry holding only current-generation stores, matching a URL reads the current store. */
  lemma {:induction false} MatchCurrentOnly(reg: Registry, url: Url)
    requires Valid(reg) && |reg| <= 1
    requires forall i :: 0 <= i < |reg| ==> reg[i].name == CACHE_NAME
    requires url in StoreOf(reg, CACHE_NAME)
    ensures MatchAll(reg, url) == Some(StoreOf(reg, CACHE_NAME)[url])
  {
    assert |reg| == 1;
    assert MatchAll(reg[1..], url) == None;
  }

  /** A successful install leaves the index document in the current store. */
  lemma InstallCachesIndex(reg: Registry, base: Url, net: Url -> NetOutcome)
    requires AllStorable(AssetUrls(base), net)
    ensures var store := StoreOf(Install(reg, base, net).registry, CACHE_NAME);
            var index := Resolve(base, INDEX_PATH);
            index in store && store[index] == net(index).response
  {
    assert Resolve(base, INDEX_PATH) in AssetUrls(base);
  }

  /**
   Once install has cached the shell and activate has retired the old
   generations, a navigation that misses the cache while the network is down
   is answered with the installed index document.
   */
  lemma InstalledShellServesOfflineNavigation(
    reg: Registry, origin: string, base: Url, netAtInstall: Url -> NetOutcome, req: Request)
    requires Valid(reg)
    requires AllStorable(AssetUrls(base), netAtInstall)
    requires Eligible(origin, req) && req.mode == Navigate
    ensures var ready := Activate(Install(reg, base, netAtInstall).registry);
            var index := Resolve(base, INDEX_PATH);
            MatchAll(ready, req.url).None? ==>
              HandleFetch(ready, origin, base, req, Fail).reply == Respond(Some(netAtInstall(index).response), true)
  {
    var installed := Install(reg, base, netAtInstall).registry;
    var ready := Activate(installed);
    var index := Resolve(base, INDEX_PATH);
    InstallCachesIndex(reg, base, netAtInstall);
    assert StoreOf(ready, CACHE_NAME) == StoreOf(installed, CACHE_NAME);
    MatchCurrentOnly(ready, index);
  }

  /** The scenario of a registry holding the current store and two old ones. */
  lemma ActivateKeepsOnlyCurrent(current: Store, old1: Store, old2: Store)
    ensures Names(Activate([NamedStore("app-v0", old1), NamedStore(CACHE_NAME, current), NamedStore("app-v0.5", old2)]))
            == [CACHE_NAME]
  {
    var reg := [NamedStore("app-v0", old1), NamedStore(CACHE_NAME, current), NamedStore("app-v0.5", old2)];
    assert reg[1..] == [NamedStore(CACHE_NAME, current), NamedStore("app-v0.5", old2)];
    assert reg[2..] == [NamedStore("app-v0.5", old2)];
    assert reg[3..] == [];
    assert Names(reg[2..]) == ["app-v0.5"];
    assert Names(reg[1..]) == [CACHE_NAME, "app-v0.5"];
    assert Names(reg) == ["app-v0", CACHE_NAME, "app-v0.5"];
    assert Valid(reg[3..]);
    assert Valid(reg[2..]);
    assert Valid(reg[1..]);
    assert Valid(reg);
    var r := Activate(reg);
    assert CACHE_NAME in Names(reg);
    assert Lookup(r, CACHE_NAME).Some?;
  }
}
