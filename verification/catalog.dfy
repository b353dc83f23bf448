/** The product store behind the API: a map from id to product, and the
    query behind `GET /api/products`, which lists every product newest
    first. */
module Catalog {

  /** A 128-bit GUID. */
  newtype Guid = x: int | 0 <= x < 0x1_0000_0000_0000_0000_0000_0000_0000_0000

  /** A C# `int`. */
  newtype Int32 = x: int | -0x8000_0000 <= x < 0x8000_0000

  /** Whole seconds since the Unix epoch, UTC. */
  type Instant = int

  /** A stored product; `price` is a C# `decimal`, held exactly. */
  datatype Product = Product(name: string, price: real, stock: Int32, createdAt: Instant)

  type Store = map<Guid, Product>

  /** `store` with `p` added under the new id `id`; nothing else changes. */
  function Insert(store: Store, id: Guid, p: Product): (s: Store)
    requires id !in store
    ensures s.Keys == store.Keys + {id} && s[id] == p
    ensures forall k :: k in store ==> s[k] == store[k]
    ensures |s| == |store| + 1
  {
    store[id := p]
  }

  /** `store` without the product stored under `id`; nothing else changes. */
  function Remove(store: Store, id: Guid): (s: Store)
    requires id in store
    ensures s.Keys == store.Keys - {id}
    ensures forall k :: k in s ==> s[k] == store[k]
    ensures |s| == |store| - 1
  {
    store - {id}
  }

  /** A product as it is listed: its id together with its fields. */
  datatype Entry = Entry(id: Guid, product: Product)

  predicate DistinctIds(items: seq<Entry>) {
    forall i, j :: 0 <= i < j < |items| ==> items[i].id != items[j].id
  }

  /** `items` lists the store: each entry once, as stored, and nothing
      else. */
  predicate Enumerates(items: seq<Entry>, store: Store) {
    && DistinctIds(items)
    && (forall i :: 0 <= i < |items| ==> items[i].id in store && store[items[i].id] == items[i].product)
    && (forall k :: k in store ==> exists i :: 0 <= i < |items| && items[i].id == k)
  }

  /** Ordered by `createdAt`, descending. */
  predicate NewestFirst(items: seq<Entry>) {
    forall i, j :: 0 <= i < j < |items| ==> items[j].product.createdAt <= items[i].product.createdAt
  }

  /** Some key among `keys` has the latest creation time. */
  lemma {:induction false} LatestExists(store: Store, keys: set<Guid>)
    requires keys != {} && keys <= store.Keys
    ensures exists k :: IsLatest(store, keys, k)
    decreases keys
  {
    var x :| x in keys;
    var rest := keys - {x};
    if rest != {} {
      LatestExists(store, rest);
      var m :| IsLatest(store, rest, m);
      if store[x].createdAt <= store[m].createdAt {
        assert IsLatest(store, keys, m);
      } else {
        assert IsLatest(store, keys, x);
      }
    } else {
      assert keys == {x};
      assert IsLatest(store, keys, x);
    }
  }

  /** `key` has the latest creation time among `keys`. */
  predicate IsLatest(store: Store, keys: set<Guid>, key: Guid)
    requires keys <= store.Keys
  {
    key in keys && forall k :: k in keys ==> store[k].createdAt <= store[key].createdAt
  }

  /** Midway through listing: `items` lists, newest first, exactly the
      products whose ids are not in `remaining`, and none of those still
      to come is newer than any already listed. */
  predicate ListedSoFar(store: Store, items: seq<Entry>, remaining: set<Guid>) {
    && remaining <= store.Keys
    && DistinctIds(items)
    && (forall i :: 0 <= i < |items| ==>
          items[i].id in store && items[i].id !in remaining && store[items[i].id] == items[i].product)
    && (forall k :: k in store && k !in remaining ==> exists i :: 0 <= i < |items| && items[i].id == k)
    && NewestFirst(items)
    && (forall i, k :: 0 <= i < |items| && k in remaining ==> store[k].createdAt <= items[i].product.createdAt)
  }

  /** Listing the latest remaining product next keeps `ListedSoFar`. */
  lemma ListLatestNext(store: Store, items: seq<Entry>, remaining: set<Guid>, key: Guid)
    requires ListedSoFar(store, items, remaining)
    requires IsLatest(store, remaining, key)
    ensures ListedSoFar(store, items + [Entry(key, store[key])], remaining - {key})
  {
    var next := items + [Entry(key, store[key])];
    assert next[|items|].id == key;
    assert forall i :: 0 <= i < |items| ==> next[i] == items[i];
    forall k | k in store && k !in remaining - {key}
      ensures exists i :: 0 <= i < |next| && next[i].id == k
    {
      if k != key {
        var i :| 0 <= i < |items| && items[i].id == k;
        assert next[i].id == k;
      }
    }
  }

  /** `OrderByDescending(x => x.CreatedAt).ToListAsync()`: every product,
      newest first. Products created at the same instant come in no
      particular order, as in the database. */
  method ListProducts(store: Store) returns (items: seq<Entry>)
    ensures Enumerates(items, store)
    ensures NewestFirst(items)
  {
    items := [];
    var remaining := store.Keys;
    while remaining != {}
      invariant ListedSoFar(store, items, remaining)
      decreases remaining
    {
      LatestExists(store, remaining);
      var key :| IsLatest(store, remaining, key);
      ListLatestNext(store, items, remaining, key);
      items := items + [Entry(key, store[key])];
      remaining := remaining - {key};
    }
  }

  /** The set of ids listed. */
  function Ids(items: seq<Entry>): (ids: set<Guid>)
    ensures forall i :: 0 <= i < |items| ==> items[i].id in ids
    ensures forall k :: k in ids ==> exists i :: 0 <= i < |items| && items[i].id == k
  {
    if items == [] then {} else
      var rest := Ids(items[1..]);
      assert forall i :: 1 <= i < |items| ==> items[i] == items[1..][i - 1];
      {items[0].id} + rest
  }

  /** Listing ids without repetition lists as many ids as entries. */
  lemma {:induction false} DistinctIdsCount(items: seq<Entry>)
    requires DistinctIds(items)
    ensures |Ids(items)| == |items|
  {
    if items != [] {
      var rest := items[1..];
      assert DistinctIds(rest) by {
        forall i, j | 0 <= i < j < |rest| ensures rest[i].id != rest[j].id {
          assert rest[i] == items[i + 1] && rest[j] == items[j + 1];
        }
      }
      DistinctIdsCount(rest);
      assert forall i :: 0 <= i < |rest| ==> rest[i].id != items[0].id by {
        forall i | 0 <= i < |rest| ensures rest[i].id != items[0].id {
          assert rest[i] == items[i + 1];
        }
      }
      assert Ids(items) == {items[0].id} + Ids(rest);
    }
  }

  /** A listing has exactly one entry per stored product. */
  lemma EnumerationSize(items: seq<Entry>, store: Store)
    requires Enumerates(items, store)
    ensures |items| == |store|
  {
    DistinctIdsCount(items);
    assert Ids(items) == store.Keys;
  }

  /** A product created strictly after every other one is listed first. */
  lemma NewestListedFirst(items: seq<Entry>, store: Store, id: Guid)
    requires Enumerates(items, store) && NewestFirst(items)
    requires id in store
    requires forall k :: k in store && k != id ==> store[k].createdAt < store[id].createdAt
    ensures |items| > 0 && items[0] == Entry(id, store[id])
  {
    var i :| 0 <= i < |items| && items[i].id == id;
    // The first entry is at least as new as this one, and only this one
    // is that new.
    assert items[i].product == store[id];
    assert store[id].createdAt <= items[0].product.createdAt;
    assert items[0].id in store && store[items[0].id] == items[0].product;
  }
}
