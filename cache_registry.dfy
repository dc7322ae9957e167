/**
  The browser's cache registry as the worker uses it: named stores, each a
  table from request key to response, kept in the order they were created.
  `Caches` is the mutable registry; `Registry` is its value, on which the
  operations are specified.
 */
module CacheRegistry {
  import opened Wrappers
  import opened Http

  /** One named cache: request key (the request URL) to stored response. */
  type Store = map<string, Response>

  /** Value of the registry: the cache names in creation order and the store under each name. */
  datatype Registry = Registry(names: seq<string>, stores: map<string, Store>)

  predicate Distinct(s: seq<string>) {
    forall i, j :: 0 <= i < j < |s| ==> s[i] != s[j]
  }

  /** Every name is listed once, and the listed names are exactly the stores present. */
  ghost predicate WellFormed(reg: Registry) {
    && Distinct(reg.names)
    && forall n :: n in reg.stores <==> n in reg.names
  }

  /** The store called `name` exists and holds an entry for `key`. */
  predicate Holds(stores: map<string, Store>, name: string, key: string) {
    name in stores && key in stores[name]
  }

  /**
    Lookup across every cache (caches.match): the stores are searched in
    creation order and the first one holding `key` answers.
   */
  function MatchIn(names: seq<string>, stores: map<string, Store>, key: string): Option<Response> {
    if names == [] then None
    else if Holds(stores, names[0], key) then Some(stores[names[0]][key])
    else MatchIn(names[1..], stores, key)
  }

  /** A lookup finds nothing exactly when no store holds the key; otherwise it
      answers with the entry of the first store, in creation order, that does. */
  lemma {:induction false} MatchInFirstHolder(names: seq<string>, stores: map<string, Store>, key: string)
    ensures MatchIn(names, stores, key).None? <==> forall i :: 0 <= i < |names| ==> !Holds(stores, names[i], key)
    ensures MatchIn(names, stores, key).Some? ==>
      exists i ::
        && 0 <= i < |names| && Holds(stores, names[i], key)
        && MatchIn(names, stores, key).value == stores[names[i]][key]
        && forall j :: 0 <= j < i ==> !Holds(stores, names[j], key)
  {
    if names != [] && !Holds(stores, names[0], key) {
      MatchInFirstHolder(names[1..], stores, key);
      assert forall i :: 0 < i < |names| ==> names[i] == names[1..][i - 1];
      if MatchIn(names, stores, key).Some? {
        var i :| 0 <= i < |names[1..]| && Holds(stores, names[1..][i], key)
          && MatchIn(names, stores, key).value == stores[names[1..][i]][key]
          && forall j :: 0 <= j < i ==> !Holds(stores, names[1..][j], key);
        assert Holds(stores, names[i + 1], key);
      }
    }
  }

  /** When exactly one listed store holds the key, a lookup answers with its entry. */
  lemma {:induction false} MatchInSoleHolder(names: seq<string>, stores: map<string, Store>, key: string, name: string)
    requires name in names && Holds(stores, name, key)
    requires forall n :: n in stores && n != name ==> !Holds(stores, n, key)
    ensures MatchIn(names, stores, key) == Some(stores[name][key])
  {
    if names[0] != name {
      MatchInSoleHolder(names[1..], stores, key, name);
    }
  }

  function Lookup(reg: Registry, key: string): Option<Response> {
    MatchIn(reg.names, reg.stores, key)
  }

  /** In a well-formed registry, a lookup that misses means no store holds the key. */
  lemma MissHoldsNowhere(reg: Registry, key: string)
    requires WellFormed(reg) && Lookup(reg, key).None?
    ensures forall n :: n in reg.stores ==> !Holds(reg.stores, n, key)
  {
    MatchInFirstHolder(reg.names, reg.stores, key);
    forall n | n in reg.stores
      ensures !Holds(reg.stores, n, key)
    {
      var i :| 0 <= i < |reg.names| && reg.names[i] == n;
    }
  }

  /** The names of `names` that are not in `gone`, in their original order. */
  function Without(names: seq<string>, gone: set<string>): (r: seq<string>)
    ensures forall n :: n in r <==> n in names && n !in gone
    ensures Distinct(names) ==> Distinct(r)
    ensures (forall n :: n in names ==> n !in gone) ==> r == names
  {
    if names == [] then []
    else
      var rest := Without(names[1..], gone);
      assert Distinct(names) ==> Distinct(names[1..]) && names[0] !in names[1..];
      if names[0] in gone then rest else [names[0]] + rest
  }

  /** caches.open(name): an existing store is reused; a new name gets an empty
      store placed last in creation order. */
  function Opened(reg: Registry, name: string): (r: Registry)
    ensures WellFormed(reg) ==> WellFormed(r)
    ensures name in r.stores
    ensures name in reg.stores ==> r == reg
    ensures name !in reg.stores ==> r.names == reg.names + [name] && r.stores[name] == map[]
    ensures forall n :: n in reg.stores ==> n in r.stores && r.stores[n] == reg.stores[n]
  {
    if name in reg.stores then reg
    else Registry(reg.names + [name], reg.stores[name := map[]])
  }

  /** cache.put(key, resp) on the open store `name`: the entry is replaced whole. */
  function PutIn(reg: Registry, name: string, key: string, resp: Response): (r: Registry)
    requires name in reg.stores
    ensures WellFormed(reg) ==> WellFormed(r)
    ensures r.names == reg.names && r.stores.Keys == reg.stores.Keys
    ensures r.stores[name] == reg.stores[name][key := resp]
    ensures forall n :: n in reg.stores && n != name ==> r.stores[n] == reg.stores[n]
  {
    reg.(stores := reg.stores[name := reg.stores[name][key := resp]])
  }

  /** caches.delete(name): the store and its name are gone, everything else stays. */
  function Deleted(reg: Registry, name: string): (r: Registry)
    ensures WellFormed(reg) ==> WellFormed(r)
    ensures name !in r.stores && name !in r.names
    ensures r.stores.Keys == reg.stores.Keys - {name}
    ensures forall n :: n in reg.stores && n != name ==> n in r.stores && r.stores[n] == reg.stores[n]
    ensures WellFormed(reg) && name !in reg.stores ==> r == reg
  {
    Registry(Without(reg.names, {name}), reg.stores - {name})
  }

  /** Dropping the names of `gone` from the search order changes no lookup
      once their stores are gone: the remaining caches are searched in the
      order they had. */
  lemma {:induction false} MatchInWithout(names: seq<string>, stores: map<string, Store>, gone: set<string>, key: string)
    ensures MatchIn(Without(names, gone), stores - gone, key) == MatchIn(names, stores - gone, key)
  {
    if names != [] {
      MatchInWithout(names[1..], stores, gone, key);
      if names[0] !in gone {
        assert Without(names, gone)[1..] == Without(names[1..], gone);
      }
    }
  }

  /** After a delete, a lookup answers as a lookup over the old creation order
      with the deleted cache removed: the first remaining holder answers. */
  lemma LookupAfterDelete(reg: Registry, name: string, key: string)
    ensures Lookup(Deleted(reg, name), key) == MatchIn(reg.names, reg.stores - {name}, key)
  {
    MatchInWithout(reg.names, reg.stores, {name}, key);
  }

  /** Removing two sets of names one after the other removes their union. */
  lemma {:induction false} WithoutTwice(names: seq<string>, a: set<string>, b: set<string>)
    ensures Without(Without(names, a), b) == Without(names, a + b)
  {
    if names != [] {
      WithoutTwice(names[1..], a, b);
      if names[0] !in a {
        assert Without(names, a)[1..] == Without(names[1..], a);
      }
    }
  }

  /** Deleting the names of `gone` and then `name` is deleting `gone + {name}`. */
  lemma DeletedOneMore(reg: Registry, gone: set<string>, name: string)
    ensures Deleted(Registry(Without(reg.names, gone), reg.stores - gone), name)
      == Registry(Without(reg.names, gone + {name}), reg.stores - (gone + {name}))
  {
    WithoutTwice(reg.names, gone, {name});
    assert reg.stores - gone - {name} == reg.stores - (gone + {name});
  }

  /** When every listed name but `keep` is removed, at most `keep` is left. */
  lemma {:induction false} WithoutAllBut(names: seq<string>, gone: set<string>, keep: string)
    requires Distinct(names)
    requires keep !in gone
    requires forall n :: n in names ==> n == keep || n in gone
    ensures Without(names, gone) == if keep in names then [keep] else []
  {
    if names != [] {
      assert Distinct(names[1..]);
      assert forall n :: n in names[1..] ==> n in names;
      WithoutAllBut(names[1..], gone, keep);
      if names[0] == keep {
        assert keep !in names[1..];
      }
    }
  }

  /** The registry the browser keeps for the worker's origin. */
  class Caches {
    var names: seq<string>
    var stores: map<string, Store>

    ghost predicate Valid()
      reads this
    {
      WellFormed(State())
    }

    function State(): Registry
      reads this
    {
      Registry(names, stores)
    }

    constructor ()
      ensures Valid() && State() == Registry([], map[])
    {
      names := [];
      stores := map[];
    }

    /** caches.open(name) */
    method Open(name: string)
      requires Valid()
      modifies this
      ensures Valid() && State() == Opened(old(State()), name)
    {
      if name !in stores {
        names := names + [name];
        stores := stores[name := map[]];
      }
    }

    /** cache.put(key, resp) on an open store */
    method Put(name: string, key: string, resp: Response)
      requires Valid() && name in stores
      modifies this
      ensures Valid() && State() == PutIn(old(State()), name, key, resp)
    {
      stores := stores[name := stores[name][key := resp]];
    }

    /** caches.delete(name): resolves to whether there was such a cache. */
    method Delete(name: string) returns (deleted: bool)
      requires Valid()
      modifies this
      ensures deleted == (name in old(stores))
      ensures Valid() && State() == Deleted(old(State()), name)
    {
      deleted := name in stores;
      names := Without(names, {name});
      stores := stores - {name};
    }

    /** caches.match(key): walks the caches in creation order. */
    method Match(key: string) returns (r: Option<Response>)
      ensures r == MatchIn(names, stores, key)
    {
      var i := 0;
      while i < |names|
        invariant 0 <= i <= |names|
        invariant MatchIn(names[i..], stores, key) == MatchIn(names, stores, key)
      {
        var name := names[i];
        if name in stores && key in stores[name] {
          return Some(stores[name][key]);
        }
        assert names[i..][1..] == names[i + 1..];
        i := i + 1;
      }
      return None;
    }
  }
}
