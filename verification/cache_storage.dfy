/**
 The origin's Cache Storage as the worker sees it: named stores, each mapping a
 request URL to a stored response. Stores are kept in creation order, the order
 in which `caches.keys()` lists them and `caches.match` searches them.
 */
module CacheStorage {
  import opened Wrappers

  type Url = string

  /** The `type` attribute of a fetched response. */
  datatype ResponseType = Basic | Cors | Default | Error | Opaque | OpaqueRedirect

  datatype Response = Response(status: int, statusText: string, kind: ResponseType, body: string)

  type Store = map<Url, Response>

  datatype NamedStore = NamedStore(name: string, entries: Store)

  type Registry = seq<NamedStore>

  /** Store names, in creation order. */
  function Names(reg: Registry): (ns: seq<string>)
    ensures |ns| == |reg|
    ensures forall i :: 0 <= i < |reg| ==> ns[i] == reg[i].name
  {
    if |reg| == 0 then [] else [reg[0].name] + Names(reg[1..])
  }

  /** No two stores share a name. */
  predicate Valid(reg: Registry) {
    |reg| == 0 || (reg[0].name !in Names(reg[1..]) && Valid(reg[1..]))
  }

  /** `caches.open(name)` without creating: the contents of the store called `name`, if any. */
  function Lookup(reg: Registry, name: string): (r: Option<Store>)
    ensures r.Some? <==> name in Names(reg)
  {
    if |reg| == 0 then None
    else if reg[0].name == name then Some(reg[0].entries)
    else Lookup(reg[1..], name)
  }

  /** How names, lookup and validity read a registry with one store in front. */
  lemma Cons(x: NamedStore, rest: Registry)
    ensures Names([x] + rest) == [x.name] + Names(rest)
    ensures forall n :: Lookup([x] + rest, n) == if x.name == n then Some(x.entries) else Lookup(rest, n)
    ensures Valid([x] + rest) <==> x.name !in Names(rest) && Valid(rest)
  {
    assert ([x] + rest)[0] == x && ([x] + rest)[1..] == rest;
  }

  /** The contents of the store called `name`; an absent store reads as empty. */
  function StoreOf(reg: Registry, name: string): Store {
    Lookup(reg, name).GetOr(map[])
  }

  /**
   Opens the store called `name` (creating it, empty, after all existing
   stores when absent) and replaces its contents by `s`; the recursion
   behind `WithStore`.
   */
  function WriteStore(reg: Registry, name: string, s: Store): (r: Registry)
    ensures name in Names(reg) ==> Names(r) == Names(reg)
    ensures name !in Names(reg) ==> Names(r) == Names(reg) + [name]
    ensures Valid(reg) ==> Valid(r)
  {
    if |reg| == 0 then [NamedStore(name, s)]
    else if reg[0].name == name then
      Cons(NamedStore(name, s), reg[1..]);
      Cons(reg[0], reg[1..]);
      assert [reg[0]] + reg[1..] == reg;
      [NamedStore(name, s)] + reg[1..]
    else
      var rest := WriteStore(reg[1..], name, s);
      Cons(reg[0], rest);
      Cons(reg[0], reg[1..]);
      assert [reg[0]] + reg[1..] == reg;
      [reg[0]] + rest
  }

  /** After writing the store called `name`, it reads as written and every other store as before. */
  lemma {:induction false} LookupWriteStore(reg: Registry, name: string, s: Store, n: string)
    ensures Lookup(WriteStore(reg, name, s), n) == if n == name then Some(s) else Lookup(reg, n)
  {
    if |reg| > 0 && reg[0].name != name {
      LookupWriteStore(reg[1..], name, s, n);
      Cons(reg[0], WriteStore(reg[1..], name, s));
    }
  }

  /** Opens (creating if absent) the store called `name` and sets its contents to `s`. */
  function WithStore(reg: Registry, name: string, s: Store): (r: Registry)
    ensures Lookup(r, name) == Some(s)
    ensures forall n :: n != name ==> Lookup(r, n) == Lookup(reg, n)
    ensures name in Names(reg) ==> Names(r) == Names(reg)
    ensures name !in Names(reg) ==> Names(r) == Names(reg) + [name]
    ensures Valid(reg) ==> Valid(r)
  {
    var r := WriteStore(reg, name, s);
    assert forall n :: Lookup(r, n) == if n == name then Some(s) else Lookup(reg, n) by {
      forall n {
        LookupWriteStore(reg, name, s, n);
      }
    }
    r
  }

  /** `caches.open(name)`: the store exists afterwards; nothing's contents change. */
  function Open(reg: Registry, name: string): (r: Registry)
    ensures Lookup(r, name) == Some(StoreOf(reg, name))
    ensures forall n :: n != name ==> Lookup(r, n) == Lookup(reg, n)
    ensures name in Names(reg) ==> Names(r) == Names(reg)
    ensures name !in Names(reg) ==> Names(r) == Names(reg) + [name]
    ensures Valid(reg) ==> Valid(r)
  {
    WithStore(reg, name, StoreOf(reg, name))
  }

  /** Opens the store called `name` and puts `resp` under `url` in it, as the fetch handler's cache write does. */
  function Put(reg: Registry, name: string, url: Url, resp: Response): (r: Registry)
    ensures Lookup(r, name) == Some(StoreOf(reg, name)[url := resp])
    ensures forall n :: n != name ==> Lookup(r, n) == Lookup(reg, n)
    ensures name in Names(reg) ==> Names(r) == Names(reg)
    ensures name !in Names(reg) ==> Names(r) == Names(reg) + [name]
    ensures Valid(reg) ==> Valid(r)
  {
    WithStore(reg, name, StoreOf(reg, name)[url := resp])
  }

  /** The names of `ns` that are not in `gone`, in their order. */
  function Remaining(ns: seq<string>, gone: set<string>): (r: seq<string>)
    ensures forall n :: n in r <==> n in ns && n !in gone
  {
    if |ns| == 0 then []
    else if ns[0] in gone then Remaining(ns[1..], gone)
    else [ns[0]] + Remaining(ns[1..], gone)
  }

  /** The registry without the stores whose names are in `names`, order kept. */
  function Without(reg: Registry, names: set<string>): (r: Registry)
    ensures forall n :: Lookup(r, n) == if n in names then None else Lookup(reg, n)
    ensures Names(r) == Remaining(Names(reg), names)
    ensures Valid(reg) ==> Valid(r)
  {
    if |reg| == 0 then []
    else
      var rest := Without(reg[1..], names);
      Cons(reg[0], reg[1..]);
      assert [reg[0]] + reg[1..] == reg;
      if reg[0].name in names then rest
      else
        Cons(reg[0], rest);
        [reg[0]] + rest
  }

  /** `caches.delete(name)`. */
  function Delete(reg: Registry, name: string): (r: Registry)
    ensures Lookup(r, name) == None
    ensures forall n :: n != name ==> Lookup(r, n) == Lookup(reg, n)
    ensures Names(r) == Remaining(Names(reg), {name})
    ensures Valid(reg) ==> Valid(r)
  {
    Without(reg, {name})
  }

  /** Removing two sets of stores one after the other removes their union. */
  lemma {:induction false} WithoutWithout(reg: Registry, a: set<string>, b: set<string>)
    ensures Without(Without(reg, a), b) == Without(reg, a + b)
  {
    if |reg| > 0 {
      WithoutWithout(reg[1..], a, b);
    }
  }

  /**
   `caches.match(url)`: the response stored under `url` in the first store,
   in creation order, that holds it.
   */
  function MatchAll(reg: Registry, url: Url): (r: Option<Response>)
    ensures r.None? <==> forall i :: 0 <= i < |reg| ==> url !in reg[i].entries
    ensures r.Some? ==> exists i :: 0 <= i < |reg| && url in reg[i].entries && reg[i].entries[url] == r.value
                                    && forall j :: 0 <= j < i ==> url !in reg[j].entries
  {
    if |reg| == 0 then None
    else if url in reg[0].entries then Some(reg[0].entries[url])
    else
      var r := MatchAll(reg[1..], url);
      assert r.None? ==> forall i :: 1 <= i < |reg| ==> url !in reg[i].entries by {
        if r.None? {
          forall i | 1 <= i < |reg| ensures url !in reg[i].entries {
            assert reg[i] == reg[1..][i - 1];
          }
        }
      }
      assert r.Some? ==> exists i :: 0 <= i < |reg| && url in reg[i].entries && reg[i].entries[url] == r.value
                                    && forall j :: 0 <= j < i ==> url !in reg[j].entries by {
        if r.Some? {
          var k :| 0 <= k < |reg[1..]| && url in reg[1..][k].entries && reg[1..][k].entries[url] == r.value
                   && forall j :: 0 <= j < k ==> url !in reg[1..][j].entries;
          assert forall j :: 1 <= j < k + 1 ==> reg[j] == reg[1..][j - 1];
        }
      }
      r
  }

  /** A URL held by no store, once a store holding it is written, is matched to what that store holds. */
  lemma {:induction false} MatchAfterWriteStore(reg: Registry, name: string, s: Store, url: Url)
    requires MatchAll(reg, url).None?
    requires url in s
    ensures MatchAll(WriteStore(reg, name, s), url) == Some(s[url])
  {
    if |reg| > 0 && reg[0].name != name {
      MatchAfterWriteStore(reg[1..], name, s, url);
    }
  }

  /** A URL held by no store, once put into any store, is matched to what was put. */
  lemma MatchAfterPut(reg: Registry, name: string, url: Url, resp: Response)
    requires MatchAll(reg, url).None?
    ensures MatchAll(Put(reg, name, url, resp), url) == Some(resp)
  {
    MatchAfterWriteStore(reg, name, StoreOf(reg, name)[url := resp], url);
  }

  /**
   Writing a store leaves the match of a URL unchanged as long as that
   store holds the URL, with the same response, exactly when it held it before.
   */
  lemma {:induction false} MatchWriteStoreOther(reg: Registry, name: string, s: Store, u: Url)
    requires u in s <==> u in StoreOf(reg, name)
    requires u in s ==> s[u] == StoreOf(reg, name)[u]
    ensures MatchAll(WriteStore(reg, name, s), u) == MatchAll(reg, u)
  {
    if |reg| > 0 && reg[0].name != name {
      assert StoreOf(reg[1..], name) == StoreOf(reg, name);
      MatchWriteStoreOther(reg[1..], name, s, u);
    }
  }

  /** Putting a response under one URL changes the match of no other URL. */
  lemma MatchAfterPutOther(reg: Registry, name: string, url: Url, resp: Response, u: Url)
    requires u != url
    ensures MatchAll(Put(reg, name, url, resp), u) == MatchAll(reg, u)
  {
    MatchWriteStoreOther(reg, name, StoreOf(reg, name)[url := resp], u);
  }
}
