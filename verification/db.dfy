/**
 * The directory (DB), its collections and the collection iterator of
 * pypeline/DB.py, as classes over the shared store namespaces.
 */
module Pypeline {
  import opened Wrappers
  import opened KeyOrder
  import opened Keys
  import opened Records
  import opened Store

  /** The `**kwargs` a transformation passes on when it resolves its destination. */
  datatype Options = Options(createIfMissing: bool, errorIfExists: bool)

  /** `[cache[n] for n in ns]`: the values of `m`, in the order `ns` lists their keys. */
  function ValuesInOrder<K, V>(m: map<K, V>, ns: seq<K>): (r: seq<V>)
    requires forall n :: n in ns ==> n in m
    ensures |r| == |ns| && forall i :: 0 <= i < |ns| ==> r[i] == m[ns[i]]
  {
    if ns == [] then [] else ValuesInOrder(m, ns[..|ns| - 1]) + [m[ns[|ns| - 1]]]
  }

  /** Adding an entry and then removing its key leaves the map without that key. */
  lemma RemoveAfterUpdate<K, V>(m: map<K, V>, k: K, v: V)
    ensures m[k := v] - {k} == m - {k}
  {
  }

  /** The directory: the name markers, the item namespace and the name -> Collection cache. */
  class DB {
    const names: NameStore
    const items: ItemStore
    var cache: map<string, Collection>
    /** Insertion order of `cache` (a Python dict iterates in that order). */
    var order: seq<string>

    ghost predicate Valid()
      reads this, names
    {
      && (forall n :: n in cache ==> cache[n].name == n && cache[n].parent == this && !HasSeparator(n))
      && Distinct(order) && Elems(order) == cache.Keys
      && cache.Keys <= names.names
    }

    /** The cached collection of `name`, as a frame. */
    function CachedAt(name: string): set<object>
      reads this
    {
      if name in cache then {cache[name]} else {}
    }

    constructor (names: NameStore, items: ItemStore)
      ensures this.names == names && this.items == items
      ensures cache == map[] && order == [] && Valid()
    {
      this.names := names;
      this.items := items;
      cache := map[];
      order := [];
    }

    /** The uncached branch of `collection`: look the marker up (or write it), then load and cache. */
    method Open(name: string, createIfMissing: bool) returns (r: Result<Collection, Error>)
      requires Valid() && name !in cache
      modifies this, if createIfMissing then {names} else {}
      ensures Valid()
      ensures name !in old(names.names) && !createIfMissing ==> r == Err(NotFound)
      ensures name in old(names.names) || createIfMissing ==>
                if LoadError(name).Some? then r == Err(LoadError(name).value) else r.Ok? && fresh(r.value)
      // the marker is written before the name is checked
      ensures names.names == if createIfMissing then old(names.names) + {name} else old(names.names)
      ensures r.Ok? ==>
                && cache == old(cache)[name := r.value] && order == old(order) + [name]
                && r.value.name == name && r.value.parent == this && r.value.Loaded()
      ensures r.Err? ==> cache == old(cache) && order == old(order)
    {
      if name !in names.names {
        if !createIfMissing {
          return Err(NotFound);
        }
        names.names := names.names + {name};
      }
      r := Cache(name);
    }

    /** `collections_cache[name] = Collection(...)`: load the collection of a known name and cache it. */
    method Cache(name: string) returns (r: Result<Collection, Error>)
      requires Valid() && name !in cache && name in names.names
      modifies this
      ensures Valid()
      ensures LoadError(name).Some? ==> r == Err(LoadError(name).value) && cache == old(cache) && order == old(order)
      ensures LoadError(name).None? ==>
                && r.Ok? && fresh(r.value) && r.value.name == name && r.value.parent == this && r.value.Loaded()
                && cache == old(cache)[name := r.value] && order == old(order) + [name]
      ensures forall n :: n in old(cache) && old(cache[n].Loaded()) ==> cache[n].Loaded()
    {
      r := Collection.Load(this, name);
      assert forall n :: n in cache && old(cache[n].Loaded()) ==> cache[n].Loaded();
      if r.Ok? {
        ElemsSnoc(order, name);
        DistinctSnoc(order, name);
        cache := cache[name := r.value];
        order := order + [name];
        assert forall n :: n in cache ==> cache[n].name == n && cache[n].parent == this && !HasSeparator(n);
      }
    }

    /**
     * The error `collection(name, ...)` raises in this state, if any: an
     * uncached name resolves through its marker and then a load.
     */
    ghost function Resolves(name: string, createIfMissing: bool, errorIfExists: bool): (r: Option<Error>)
      reads this, names, items
      ensures r.Some? ==> r.value in {AlreadyExists, NotFound, InvalidName, BadKey}
      ensures r == Some(NotFound) ==> !createIfMissing && name !in names.names
      ensures r == Some(AlreadyExists) ==> errorIfExists
    {
      if name in cache then (if errorIfExists then Some(AlreadyExists) else None)
      else if name !in names.names && !createIfMissing then Some(NotFound)
      else LoadError(name)
    }

    /** The error loading the collection `name` from the store raises, if any. */
    ghost function LoadError(name: string): (r: Option<Error>)
      reads items
      ensures r == Some(InvalidName) <==> HasSeparator(name)
      ensures r == Some(BadKey) ==> exists k :: k in Scan(items.items, ItemPrefix(name)) && ParseDecimal(k).None?
      ensures r.Some? ==> r.value == InvalidName || r.value == BadKey
    {
      if HasSeparator(name) then Some(InvalidName)
      else if ScannedLastIndex(Scan(items.items, ItemPrefix(name))).None? then Some(BadKey)
      else None
    }

    /** `error_if_exists` raises for exactly the cached names, never for a name only recorded in the store. */
    lemma ErrorIfExistsOnlyCached(name: string, createIfMissing: bool)
      ensures Resolves(name, createIfMissing, true) == Some(AlreadyExists) <==> name in cache
    {
    }

    /** With `create_if_missing` (as `delete` resolves), a missing name is never reported: only a load can fail. */
    lemma CreateNeverNotFound(name: string, errorIfExists: bool)
      ensures Resolves(name, true, errorIfExists) != Some(NotFound)
      ensures name !in cache ==> Resolves(name, true, errorIfExists) == LoadError(name)
    {
    }

    /** A name without a marker (as `delete` leaves it) is not found unless it may be created. */
    lemma UnrecordedNotFound(name: string, errorIfExists: bool)
      requires Valid() && name !in names.names
      ensures Resolves(name, false, errorIfExists) == Some(NotFound)
    {
    }

    /** `collection(name, reset_collection, create_if_missing, error_if_exists)`. */
    method GetCollection(name: string, reset: bool, createIfMissing: bool, errorIfExists: bool)
      returns (r: Result<Collection, Error>)
      requires Valid()
      modifies this, if createIfMissing then {names} else {}, if reset then {items} + CachedAt(name) else {}
      ensures Valid()
      // how the name resolves
      ensures old(Resolves(name, createIfMissing, errorIfExists)).Some? ==> r == Err(old(Resolves(name, createIfMissing, errorIfExists)).value)
      ensures old(Resolves(name, createIfMissing, errorIfExists)).None? ==> r.Ok?
      ensures r.Ok? && name in old(cache) ==> r.value == old(cache[name])
      ensures r.Ok? && name !in old(cache) ==> fresh(r.value)
      // the marker is written before the name is checked
      ensures names.names == if name !in old(cache) && createIfMissing then old(names.names) + {name} else old(names.names)
      ensures r.Ok? ==> name in cache && cache[name] == r.value && r.value.name == name && r.value.parent == this
      ensures r.Ok? && name !in old(cache) ==> cache == old(cache)[name := r.value] && order == old(order) + [name]
      ensures !(r.Ok? && name !in old(cache)) ==> cache == old(cache) && order == old(order)
      // the state of the result
      ensures r.Ok? && reset ==> r.value.keys == [] && r.value.lastIndex == 0 && r.value.Valid() && r.value.KeysAllocated()
      ensures r.Ok? && !reset && name !in old(cache) ==> r.value.Loaded()
      ensures name in old(cache) && !reset ==> unchanged(old(cache[name]))
      // the store: only a reset deletes, and only in this collection's namespace
      ensures !(r.Ok? && reset) ==> items.items == old(items.items)
      ensures r.Ok? && reset ==> items.items == old(items.items) - FullKeys(ItemPrefix(name), old(if name in cache then cache[name].keys else Scan(items.items, ItemPrefix(name))))
      ensures SameOutside(old(items.items), items.items, ItemPrefix(name))
    {
      if name !in cache {
        r := Open(name, createIfMissing);
        if r.Err? {
          return;
        }
      } else if errorIfExists {
        return Err(AlreadyExists);
      }
      var c := cache[name];
      if reset {
        ghost var listed := c.keys;
        c.DeleteAll();
        RemovedUnderPrefix(old(items.items), ItemPrefix(name), listed);
      }
      return Ok(c);
    }

    /**
     * `collections()`: load every collection named in the marker namespace
     * (scanned in byte order) that is not cached yet, and list the cache in
     * insertion order. A name that does not load stops the scan with its
     * error; the names loaded before it stay cached.
     */
    method Collections() returns (r: Result<seq<Collection>, Error>)
      requires Valid()
      modifies this
      ensures Valid()
      ensures forall n :: n in old(cache) ==> n in cache && cache[n] == old(cache[n])
      ensures forall n :: n in cache && n !in old(cache) ==>
                fresh(cache[n]) && cache[n].Loaded()
      ensures r.Ok? <==> forall n :: n in names.names && n !in old(cache) ==> LoadError(n).None?
      ensures r.Err? ==> exists n :: n in names.names && n !in old(cache) && LoadError(n) == Some(r.error)
      ensures r.Ok? ==>
                && cache.Keys == names.names
                && order == old(order) + Without(SortedOf(names.names), old(cache).Keys)
                && (forall n :: n in order ==> n in cache)
                && r.value == ValuesInOrder(cache, order)
    {
      var ns := names.ScanNames();
      SortedIsDistinct(ns);
      var loaded := CacheAll(ns);
      if loaded.Fail? {
        return Err(loaded.error);
      }
      assert forall n :: n in order ==> n in cache by {
        assert Elems(order) == cache.Keys;
      }
      return Ok(ValuesInOrder(cache, order));
    }

    /**
     * `copy_collection(old, new, start, end, **kwargs)`: resolve `old`
     * (which must exist), reset `new`, then append the records of the slice
     * `[start:end]` of `old`'s keys as listed after that reset.
     */
    method CopyCollection(oldName: string, newName: string, start: Option<int>, end: Option<int>, opts: Options)
      returns (r: Result<Collection, Error>)
      requires Valid()
      modifies this, names, items, CachedAt(oldName), CachedAt(newName)
      ensures Valid()
      ensures old(Resolves(oldName, false, false)).Some? ==> r == Err(old(Resolves(oldName, false, false)).value)
      ensures r.Ok? ==> newName in cache && cache[newName] == r.value && r.value.name == newName && r.value.KeysAllocated()
      // copying a collection onto itself resets it first, so nothing is left to copy
      ensures oldName == newName && old(Resolves(oldName, false, false)).None? ==>
                if opts.errorIfExists then r == Err(AlreadyExists)
                else r.Ok? && r.value.keys == [] && r.value.lastIndex == 0
      ensures oldName != newName && old(Resolves(oldName, false, false)).None? ==>
                && oldName in cache && (oldName in old(cache) ==> cache[oldName] == old(cache[oldName]))
                && (old(Resolves(newName, opts.createIfMissing, opts.errorIfExists)).Some? ==>
                      r == Err(old(Resolves(newName, opts.createIfMissing, opts.errorIfExists)).value))
      // between distinct, isolated collections: the new one holds the slice of the old one's records
      ensures oldName != newName && old(Resolves(oldName, false, false)).None?
              && old(Resolves(newName, opts.createIfMissing, opts.errorIfExists)).None?
              && Isolated(ItemPrefix(oldName), ItemPrefix(newName))
              && (oldName in old(cache) ==> old(cache[oldName].Valid())) ==>
                var source := cache[oldName];
                var (lo, hi) := SliceBounds(|source.keys|, start, end);
                && r.Ok? && r.value.Valid() && source.Valid()
                && r.value.Contents() == source.Contents()[lo..hi]
                && (oldName in old(cache) ==> source.Contents() == old(cache[oldName].Contents()))
                // an uncached source is loaded from the store as it was before the call
                && (oldName !in old(cache) ==>
                      && source.keys == old(Scan(items.items, ItemPrefix(oldName)))
                      && source.Contents() == old(Values(items.items, ItemPrefix(oldName), Scan(items.items, ItemPrefix(oldName)))))
      // the store changes only in the new collection's namespace
      ensures SameOutside(old(items.items), items.items, ItemPrefix(newName))
    {
      var found := GetCollection(oldName, false, false, false);
      if found.Err? {
        return Err(found.error);
      }
      assert newName != oldName ==>
               Resolves(newName, opts.createIfMissing, opts.errorIfExists) == old(Resolves(newName, opts.createIfMissing, opts.errorIfExists));
      r := CopyResolved(found.value, newName, start, end, opts);
    }

    /** `copy_collection` once `source`, a cached collection, has been resolved. */
    method CopyResolved(source: Collection, newName: string, start: Option<int>, end: Option<int>, opts: Options)
      returns (r: Result<Collection, Error>)
      requires Valid() && source.name in cache && cache[source.name] == source
      modifies this, names, items, source, CachedAt(newName)
      ensures Valid()
      ensures forall n :: n in old(cache) ==> n in cache && cache[n] == old(cache[n])
      ensures r.Ok? ==> newName in cache && cache[newName] == r.value && r.value.name == newName && r.value.KeysAllocated()
      ensures source.name == newName ==>
                if opts.errorIfExists then r == Err(AlreadyExists)
                else r.Ok? && r.value.keys == [] && r.value.lastIndex == 0
      ensures source.name != newName ==> source.keys == old(source.keys)
      ensures source.name != newName && old(Resolves(newName, opts.createIfMissing, opts.errorIfExists)).Some? ==>
                r == Err(old(Resolves(newName, opts.createIfMissing, opts.errorIfExists)).value)
      ensures source.name != newName && old(Resolves(newName, opts.createIfMissing, opts.errorIfExists)).None?
              && old(source.Valid()) && Isolated(source.prefix, ItemPrefix(newName)) ==>
                var (lo, hi) := SliceBounds(|old(source.keys)|, start, end);
                && r.Ok? && r.value.Valid() && r.value.Contents() == old(source.Contents())[lo..hi]
                && source.Valid() && source.Contents() == old(source.Contents())
      ensures SameOutside(old(items.items), items.items, ItemPrefix(newName))
    {
      if newName == source.name {
        // the reset empties the source before its iterator is taken
        r := GetCollection(newName, true, opts.createIfMissing, opts.errorIfExists);
        return;
      }
      r := source.CopyInto(newName, start, end, opts);
    }

    /**
     * `delete(name)`: resolve the collection (creating its marker if it is
     * missing), delete its records, then drop its marker and its cache entry.
     */
    method Delete(name: string) returns (r: Outcome<Error>)
      requires Valid()
      modifies this, names, items, CachedAt(name)
      ensures Valid()
      ensures old(Resolves(name, true, false)).Some? ==>
                && r == Fail(old(Resolves(name, true, false)).value)
                && names.names == old(names.names) + {name}
                && cache == old(cache) && order == old(order) && items.items == old(items.items)
      ensures old(Resolves(name, true, false)).None? ==>
                && r == Pass
                && names.names == old(names.names) - {name}
                && cache == old(cache) - {name} && order == Without(old(order), {name})
                && items.items == old(items.items) - FullKeys(ItemPrefix(name), old(if name in cache then cache[name].keys else Scan(items.items, ItemPrefix(name))))
    {
      var found := GetCollection(name, false, true, false);
      if found.Err? {
        return Fail(found.error);
      }
      if name !in old(cache) {
        RemoveAfterUpdate(old(cache), name, found.value);
      }
      Drop(found.value);
      return Pass;
    }

    /** The rest of `delete(name)` once the cached collection `c` is resolved: delete its records, its marker and its cache entry. */
    method Drop(c: Collection)
      requires Valid() && c.name in cache && cache[c.name] == c
      modifies this, names, items, c
      ensures Valid()
      ensures names.names == old(names.names) - {c.name}
      ensures cache == old(cache) - {c.name} && order == Without(old(order), {c.name})
      ensures items.items == old(items.items) - FullKeys(ItemPrefix(c.name), old(c.keys))
    {
      c.DeleteAll();
      names.names := names.names - {c.name};
      cache := cache - {c.name};
      order := Without(order, {c.name});
    }

    /** The loop of `collections()`: load and cache each uncached name of `ns`, in order. */
    method CacheAll(ns: seq<string>) returns (r: Outcome<Error>)
      requires Valid() && Distinct(ns) && Elems(ns) == names.names
      modifies this
      ensures Valid()
      ensures forall n :: n in old(cache) ==> n in cache && cache[n] == old(cache[n])
      ensures forall n :: n in cache && n !in old(cache) ==>
                fresh(cache[n]) && cache[n].Loaded()
      ensures r.Pass? <==> forall n :: n in names.names && n !in old(cache) ==> LoadError(n).None?
      ensures r.Fail? ==> exists n :: n in names.names && n !in old(cache) && LoadError(n) == Some(r.error)
      ensures r.Pass? ==> cache.Keys == names.names && order == old(order) + Without(ns, old(cache).Keys)
    {
      ghost var cache0 := cache;
      ghost var order0 := order;
      var i := 0;
      assert ns[..0] == [];
      while i < |ns|
        invariant 0 <= i <= |ns|
        invariant Valid()
        invariant forall n :: n in cache0 ==> n in cache && cache[n] == cache0[n]
        invariant forall n :: n in cache && n !in cache0 ==> fresh(cache[n])
        invariant forall n :: n in cache && n !in cache0 ==> cache[n].Loaded()
        invariant Scanned(ns, i, cache0, order0)
      {
        r := CacheNext(ns, i, cache0, order0);
        if r.Fail? {
          assert ns[i] in Elems(ns);
          return;
        }
        i := i + 1;
      }
      assert ns[..i] == ns;
      ScannedElems(order0, ns, i, cache0.Keys);
      UnionAbsorbed(cache0.Keys, Elems(ns));
      forall n | n in names.names && n !in cache0
        ensures LoadError(n).None?
      {
        assert n in Elems(ns);
      }
      return Pass;
    }

    /**
     * After the first `i` names of `ns`: exactly those and the names cached
     * before are cached, the uncached ones were appended to `order` in scan
     * order, and each of them loaded.
     */
    ghost predicate Scanned(ns: seq<string>, i: nat, cache0: map<string, Collection>, order0: seq<string>)
      reads this, items
    {
      && i <= |ns| && Elems(order0) == cache0.Keys
      && order == order0 + Without(ns[..i], cache0.Keys)
      && (forall n :: n in ns[..i] && n !in cache0 ==> LoadError(n).None?)
    }

    /** One step of `collections()`: cache `ns[i]` unless it is cached already. */
    method CacheNext(ns: seq<string>, i: nat, ghost cache0: map<string, Collection>, ghost order0: seq<string>)
      returns (r: Outcome<Error>)
      requires Valid() && Distinct(ns) && Elems(ns) <= names.names && i < |ns|
      requires forall n :: n in cache0 ==> n in cache && cache[n] == cache0[n]
      requires Scanned(ns, i, cache0, order0)
      requires forall n :: n in cache && n !in cache0 ==> cache[n].Loaded()
      modifies this
      ensures Valid()
      ensures forall n :: n in old(cache) ==> n in cache && cache[n] == old(cache[n])
      ensures forall n :: n in cache && n !in old(cache) ==> fresh(cache[n])
      ensures forall n :: n in cache && n !in cache0 ==> cache[n].Loaded()
      ensures r.Fail? ==> ns[i] !in cache0 && LoadError(ns[i]) == Some(r.error)
      ensures r.Pass? ==> Scanned(ns, i + 1, cache0, order0)
    {
      var n := ns[i];
      DistinctNotBefore(ns, i);
      ScannedElems(order0, ns, i, cache0.Keys);
      assert n in cache <==> n in cache0;
      if n !in cache {
        var c := Cache(n);
        if c.Err? {
          return Fail(c.error);
        }
      }
      ScannedNext(ns, i, cache0, order0, old(order));
      return Pass;
    }

    /** The bookkeeping of one step of `collections()`, in a single state. */
    lemma ScannedNext(ns: seq<string>, i: nat, cache0: map<string, Collection>, order0: seq<string>, prev: seq<string>)
      requires i < |ns| && Elems(order0) == cache0.Keys
      requires prev == order0 + Without(ns[..i], cache0.Keys)
      requires forall n :: n in ns[..i] && n !in cache0 ==> LoadError(n).None?
      requires ns[i] in cache0 ==> order == prev
      requires ns[i] !in cache0 ==> order == prev + [ns[i]] && LoadError(ns[i]).None?
      ensures Scanned(ns, i + 1, cache0, order0)
    {
      WithoutStep(ns, i, cache0.Keys);
      if ns[i] !in cache0 {
        ConcatAssociative(order0, Without(ns[..i], cache0.Keys), [ns[i]]);
      }
      forall m | m in ns[..i + 1] && m !in cache0
        ensures LoadError(m).None?
      {
        assert m in Elems(ns[..i + 1]);
      }
    }
  }

  /** A named, ordered collection of records: `keys` lists its store keys, `lastIndex` is the append counter. */
  class Collection {
    const name: string
    const parent: DB
    /** The item namespace, seen through the prefix `name + "!!"`. */
    const items: ItemStore := parent.items
    const prefix: string := ItemPrefix(name)
    var keys: seq<string>
    var lastIndex: nat

    /** Every listed key is distinct and has a record in the store. */
    ghost predicate Valid()
      reads this, items
    {
      Distinct(keys) && AllLive(items.items, prefix, keys)
    }

    /** The state a load leaves: the scanned key list, and the counter parsed from its last key. */
    ghost predicate Loaded()
      reads this, items
    {
      Valid() && keys == Scan(items.items, prefix) && Some(lastIndex) == ScannedLastIndex(keys)
    }

    /** Every listed key was allocated by an append with a counter value up to `lastIndex`. */
    ghost predicate KeysAllocated()
      reads this
    {
      AllAllocated(keys, lastIndex)
    }

    /** The records of the collection, in order. */
    ghost function Contents(): seq<Record>
      reads this, items
      requires Valid()
    {
      Values(items.items, prefix, keys)
    }

    /** A transformation target meaning "this collection" (`None` or its own name). */
    predicate InPlace(target: Option<string>) {
      target == None || target == Some(name)
    }

    constructor (parent: DB, name: string)
      ensures this.parent == parent && this.name == name
      ensures keys == [] && lastIndex == 0
    {
      this.parent := parent;
      this.name := name;
      keys := [];
      lastIndex := 0;
    }

    /** `Collection(database, items_set, name)`: the name check, then a refresh. */
    static method Load(parent: DB, name: string) returns (r: Result<Collection, Error>)
      ensures parent.LoadError(name).Some? ==> r == Err(parent.LoadError(name).value)
      ensures parent.LoadError(name).None? ==> r.Ok? && fresh(r.value)
      ensures r.Ok? ==> r.value.name == name && r.value.parent == parent && r.value.Loaded()
    {
      if HasSeparator(name) {
        return Err(InvalidName);
      }
      var c := new Collection(parent, name);
      var outcome := c.Refresh();
      if outcome.Fail? {
        return Err(outcome.error);
      }
      return Ok(c);
    }

    /** Allocates the next key, `str(lastIndex + 1)`, and stores the record under it. */
    method Append(record: Record)
      modifies this, items
      ensures lastIndex == old(lastIndex) + 1
      ensures keys == old(keys) + [DecimalKey(lastIndex)]
      ensures items.items == old(items.items)[prefix + DecimalKey(lastIndex) := record]
      ensures old(KeysAllocated()) ==> KeysAllocated() && DecimalKey(lastIndex) !in old(keys)
      ensures old(Valid() && KeysAllocated()) ==> Valid() && Contents() == old(Contents()) + [record]
    {
      ghost var before := keys;
      ghost var stored := items.items;
      if KeysAllocated() {
        NextKeyIsNew(keys, lastIndex);
      }
      lastIndex := lastIndex + 1;
      var key := DecimalKey(lastIndex);
      items.items := items.items[prefix + key := record];
      keys := keys + [key];
      if old(Valid() && KeysAllocated()) {
        ValuesAppend(stored, prefix, before, key, record);
        DistinctSnoc(before, key);
      }
    }

    /** Rebuilds `keys` from the store's ascending scan and `lastIndex` from the last key. */
    method Refresh() returns (r: Outcome<Error>)
      modifies this
      ensures keys == Scan(items.items, prefix)
      ensures ScannedLastIndex(keys).Some? ==> r == Pass && lastIndex == ScannedLastIndex(keys).value
      ensures ScannedLastIndex(keys).None? ==> r == Fail(BadKey) && lastIndex == old(lastIndex)
      ensures Valid()
    {
      keys := items.ScanKeys(prefix);
      SortedIsDistinct(keys);
      forall k | k in keys ensures prefix + k in items.items {
        assert k in Elems(keys);
        InNamespace(items.items, prefix, k);
      }
      if |keys| > 0 {
        var last := ParseDecimal(keys[|keys| - 1]);
        if last.None? {
          return Fail(BadKey);
        }
        lastIndex := last.value;
      } else {
        lastIndex := 0;
      }
      return Pass;
    }

    /** `delete(index)`: removes the record at a position; `lastIndex` is kept. */
    method Delete(index: int) returns (r: Outcome<Error>)
      modifies this, items
      ensures IndexOf(|old(keys)|, index).None? ==>
                r == Fail(IndexOutOfRange) && keys == old(keys) && items.items == old(items.items)
      ensures IndexOf(|old(keys)|, index).Some? ==>
                var i := IndexOf(|old(keys)|, index).value;
                && r == Pass
                && keys == old(keys)[..i] + old(keys)[i + 1..]
                && items.items == old(items.items) - {prefix + old(keys)[i]}
                && (old(Valid()) ==> Valid() && Contents() == old(Contents())[..i] + old(Contents())[i + 1..])
      ensures lastIndex == old(lastIndex)
      ensures old(KeysAllocated()) ==> KeysAllocated()
      ensures old(Valid()) ==> Valid()
    {
      var position := IndexOf(|keys|, index);
      if position.None? {
        return Fail(IndexOutOfRange);
      }
      var i := position.value;
      if Valid() {
        ValuesRemove(items.items, prefix, keys, i);
      }
      items.items := items.items - {prefix + keys[i]};
      keys := keys[..i] + keys[i + 1..];
      return Pass;
    }

    /** `delete_all()`: deletes every listed key and resets the counter. */
    method DeleteAll()
      modifies this, items
      ensures keys == [] && lastIndex == 0
      ensures items.items == old(items.items) - FullKeys(prefix, old(keys))
      ensures Valid() && KeysAllocated()
    {
      var i := 0;
      while i < |keys|
        invariant 0 <= i <= |keys| && keys == old(keys)
        invariant items.items == old(items.items) - FullKeys(prefix, keys[..i])
      {
        assert keys[..i + 1] == keys[..i] + [keys[i]];
        items.items := items.items - {prefix + keys[i]};
        i := i + 1;
      }
      assert keys[..i] == keys;
      keys := [];
      lastIndex := 0;
    }

    /** `append_all(iterable)`: one append per record, in order. */
    method AppendAll(records: seq<Record>)
      modifies this, items
      ensures lastIndex == old(lastIndex) + |records|
      ensures keys == old(keys) + KeyRun(old(lastIndex), |records|)
      ensures items.items == Appended(old(items.items), prefix, old(lastIndex), records)
      ensures old(KeysAllocated()) ==> KeysAllocated()
      ensures old(Valid() && KeysAllocated()) ==> Valid() && Contents() == old(Contents()) + records
    {
      ghost var allocated0 := KeysAllocated();
      ghost var valid0 := Valid() && allocated0;
      ghost var contents0 := if valid0 then Contents() else [];
      ConcatEmpty(contents0);
      for j := 0 to |records|
        invariant RanAppends(records, j, old(keys), old(lastIndex), old(items.items), allocated0, valid0, contents0)
      {
        AppendNext(records, j, old(keys), old(lastIndex), old(items.items), allocated0, valid0, contents0);
      }
      assert records[..|records|] == records;
    }

    /**
     * The state after the first `j` appends of `AppendAll`, started from the
     * key list `keys0`, counter `last0` and store `items0`.
     */
    ghost predicate RanAppends(records: seq<Record>, j: nat, keys0: seq<string>, last0: nat, items0: map<string, Record>,
                               allocated0: bool, valid0: bool, contents0: seq<Record>)
      reads this, items
    {
      && j <= |records| && (valid0 ==> allocated0)
      && lastIndex == last0 + j
      && keys == keys0 + KeyRun(last0, j)
      && items.items == Appended(items0, prefix, last0, records[..j])
      && (allocated0 ==> KeysAllocated())
      && (valid0 ==> Valid() && Contents() == contents0 + records[..j])
    }

    /** One iteration of `AppendAll`: append `records[j]`. */
    method AppendNext(records: seq<Record>, j: nat, ghost keys0: seq<string>, ghost last0: nat, ghost items0: map<string, Record>,
                      ghost allocated0: bool, ghost valid0: bool, ghost contents0: seq<Record>)
      requires j < |records| && RanAppends(records, j, keys0, last0, items0, allocated0, valid0, contents0)
      modifies this, items
      ensures RanAppends(records, j + 1, keys0, last0, items0, allocated0, valid0, contents0)
    {
      AppendedStep(items0, prefix, last0, records, j);
      Append(records[j]);
      assert records[..j + 1] == records[..j] + [records[j]];
      ConcatAssociative(keys0, KeyRun(last0, j), [DecimalKey(lastIndex)]);
      if valid0 {
        ConcatAssociative(contents0, records[..j], [records[j]]);
      }
    }

    /** Reads the records of `ks` in order, as iterating over them does; a key without a record is an error. */
    method Read(ks: seq<string>) returns (r: Result<seq<Record>, Error>)
      ensures AllLive(items.items, prefix, ks) ==> r == Ok(Values(items.items, prefix, ks))
      ensures !AllLive(items.items, prefix, ks) ==> r == Err(MissingRecord)
    {
      var rs := [];
      for j := 0 to |ks|
        invariant AllLive(items.items, prefix, ks[..j]) && rs == Values(items.items, prefix, ks[..j])
      {
        var key := prefix + ks[j];
        if key !in items.items {
          return Err(MissingRecord);
        }
        assert ks[..j + 1] == ks[..j] + [ks[j]];
        rs := rs + [items.items[key]];
      }
      assert ks[..|ks|] == ks;
      return Ok(rs);
    }

    /** `self[index]`. */
    method Get(index: int) returns (r: Result<Record, Error>)
      ensures IndexOf(|keys|, index).None? ==> r == Err(IndexOutOfRange)
      ensures IndexOf(|keys|, index).Some? && Valid() ==> r == Ok(Contents()[IndexOf(|keys|, index).value])
      ensures IndexOf(|keys|, index).Some? && prefix + keys[IndexOf(|keys|, index).value] in items.items ==>
                r == Ok(items.items[prefix + keys[IndexOf(|keys|, index).value]])
      ensures IndexOf(|keys|, index).Some? && prefix + keys[IndexOf(|keys|, index).value] !in items.items ==> r == Err(MissingRecord)
    {
      var position := IndexOf(|keys|, index);
      if position.None? {
        return Err(IndexOutOfRange);
      }
      var key := prefix + keys[position.value];
      if key !in items.items {
        return Err(MissingRecord);
      }
      return Ok(items.items[key]);
    }

    /** `self[index] = value`: overwrites the record of a listed key. */
    method Set(index: int, value: Record) returns (r: Outcome<Error>)
      modifies items
      ensures IndexOf(|keys|, index).None? ==> r == Fail(IndexOutOfRange) && items.items == old(items.items)
      ensures IndexOf(|keys|, index).Some? ==>
                var i := IndexOf(|keys|, index).value;
                && r == Pass
                && items.items == old(items.items)[prefix + keys[i] := value]
                && (old(Valid()) ==> Valid() && Contents() == old(Contents())[i := value])
      ensures old(Valid()) ==> Valid()
    {
      var position := IndexOf(|keys|, index);
      if position.None? {
        return Fail(IndexOutOfRange);
      }
      if Valid() {
        ValuesUpdate(items.items, prefix, keys, position.value, value);
      }
      items.items := items.items[prefix + keys[position.value] := value];
      return Pass;
    }

    /** `self[start:end]`: the records of a slice of the key list. */
    method GetSlice(start: Option<int>, end: Option<int>) returns (r: Result<seq<Record>, Error>)
      ensures var (lo, hi) := SliceBounds(|keys|, start, end);
              && (AllLive(items.items, prefix, keys[lo..hi]) ==> r == Ok(Values(items.items, prefix, keys[lo..hi])))
              && (!AllLive(items.items, prefix, keys[lo..hi]) ==> r == Err(MissingRecord))
      ensures Valid() ==> r == Ok(Contents()[SliceBounds(|keys|, start, end).0..SliceBounds(|keys|, start, end).1])
    {
      var (lo, hi) := SliceBounds(|keys|, start, end);
      r := Read(keys[lo..hi]);
      if Valid() {
        assert Values(items.items, prefix, keys[lo..hi]) == Contents()[lo..hi];
      }
    }

    /** `len(self)`. */
    method Length() returns (n: nat)
      ensures n == |keys|
      ensures Valid() ==> n == |Contents()|
    {
      n := |keys|;
    }

    /**
     * The append loop of the copying transformations: reads the record of
     * each key of `ks` under the prefix `from` when it gets to it and, when
     * `keep` holds of it, appends `f` of it.
     */
    method AppendFrom(from: string, ks: seq<string>, f: Record -> Record, keep: Record -> bool) returns (r: Outcome<Error>)
      modifies this, items
      ensures r == Pass || r == Fail(MissingRecord)
      ensures |keys| >= |old(keys)| && keys[..|old(keys)|] == old(keys)
      ensures lastIndex == old(lastIndex) + (|keys| - |old(keys)|)
      ensures old(KeysAllocated()) ==> KeysAllocated()
      ensures SameOutside(old(items.items), items.items, prefix)
      ensures old(AllLive(items.items, from, ks)) && Isolated(from, prefix) ==>
                && r == Pass
                && (old(Valid() && KeysAllocated()) ==>
                      Valid() && Contents() == old(Contents()) + MapRecords(f, FilterRecords(keep, old(Values(items.items, from, ks)))))
    {
      ghost var start := items.items;
      ghost var valid0 := Valid() && KeysAllocated();
      ghost var contents0 := if valid0 then Contents() else [];
      ghost var acc: seq<Record> := [];
      ConcatEmpty(contents0);
      if AllLive(start, from, ks) {
        assert Values(start, from, ks)[..0] == [];
      }
      for i := 0 to |ks|
        invariant AppendedUpTo(from, ks, f, keep, i, start, old(keys), old(lastIndex), old(KeysAllocated()), valid0, contents0, acc)
      {
        r, acc := AppendAt(from, ks, f, keep, i, start, old(keys), old(lastIndex), old(KeysAllocated()), valid0, contents0, acc);
        if r.Fail? {
          return;
        }
      }
      AppendedAll(from, ks, f, keep, start, old(keys), old(lastIndex), old(KeysAllocated()), valid0, contents0, acc);
      return Pass;
    }

    /** Once every key is copied, `AppendedUpTo` says what `AppendFrom` promises. */
    lemma AppendedAll(from: string, ks: seq<string>, f: Record -> Record, keep: Record -> bool,
                      start: map<string, Record>, listed0: seq<string>, last0: nat, fresh0: bool,
                      valid0: bool, contents0: seq<Record>, acc: seq<Record>)
      requires AppendedUpTo(from, ks, f, keep, |ks|, start, listed0, last0, fresh0, valid0, contents0, acc)
      ensures AllLive(start, from, ks) && Isolated(from, prefix) && valid0 ==>
                Valid() && Contents() == contents0 + MapRecords(f, FilterRecords(keep, Values(start, from, ks)))
    {
      if AllLive(start, from, ks) && Isolated(from, prefix) {
        assert Values(start, from, ks)[..|ks|] == Values(start, from, ks);
      }
    }

    /**
     * The state after the first `i` keys of `ks` have been copied by
     * `AppendFrom`, from the store `start` onto the key list `listed0` with
     * counter `last0`; `acc` is what was appended.
     */
    ghost predicate AppendedUpTo(from: string, ks: seq<string>, f: Record -> Record, keep: Record -> bool, i: nat,
                                 start: map<string, Record>, listed0: seq<string>, last0: nat, fresh0: bool,
                                 valid0: bool, contents0: seq<Record>, acc: seq<Record>)
      reads this, items
    {
      && i <= |ks| && |keys| >= |listed0| && keys[..|listed0|] == listed0
      && lastIndex == last0 + (|keys| - |listed0|)
      && (fresh0 ==> KeysAllocated())
      && SameOutside(start, items.items, prefix)
      && (AllLive(start, from, ks) && Isolated(from, prefix) ==>
            && acc == MapRecords(f, FilterRecords(keep, Values(start, from, ks)[..i]))
            && (valid0 ==> Valid() && KeysAllocated() && Contents() == contents0 + acc))
    }

    /** One step of `AppendFrom`: copy the record of `ks[i]`, if it is there and `keep` accepts it. */
    method AppendAt(from: string, ks: seq<string>, f: Record -> Record, keep: Record -> bool, i: nat,
                    ghost start: map<string, Record>, ghost listed0: seq<string>, ghost last0: nat, ghost fresh0: bool,
                    ghost valid0: bool, ghost contents0: seq<Record>, ghost acc: seq<Record>)
      returns (r: Outcome<Error>, ghost acc': seq<Record>)
      requires i < |ks| && AppendedUpTo(from, ks, f, keep, i, start, listed0, last0, fresh0, valid0, contents0, acc)
      modifies this, items
      ensures r.Fail? ==>
                && r == Fail(MissingRecord) && !(AllLive(start, from, ks) && Isolated(from, prefix))
                && AppendedUpTo(from, ks, f, keep, i, start, listed0, last0, fresh0, valid0, contents0, acc)
      ensures r.Pass? ==> AppendedUpTo(from, ks, f, keep, i + 1, start, listed0, last0, fresh0, valid0, contents0, acc')
    {
      acc' := acc;
      ghost var hyp := AllLive(start, from, ks) && Isolated(from, prefix);
      ghost var rs := if hyp then Values(start, from, ks) else [];
      var key := from + ks[i];
      assert hyp ==> key in start && key in items.items && items.items[key] == rs[i] by {
        if hyp {
          assert ks[i] in ks;
          IsolatedKeyOutside(from, prefix, ks[i]);
        }
      }
      if key !in items.items {
        return Fail(MissingRecord), acc';
      }
      var record := items.items[key];
      if hyp {
        MapFilterPrefix(f, keep, rs, i);
      }
      if keep(record) {
        ghost var before := items.items;
        ghost var listed := keys;
        Append(f(record));
        SnocKeepsPrefix(listed, DecimalKey(lastIndex), listed0);
        WrittenUnderPrefix(before, prefix, DecimalKey(lastIndex), f(record));
        SameOutsideTransitive(start, before, items.items, prefix);
        if hyp && valid0 {
          ConcatAssociative(contents0, acc, [f(record)]);
        }
        acc' := acc + [f(record)];
      }
      return Pass, acc';
    }

    /** `map(function)` on the collection itself: rewrites each listed record with `f` of it. */
    method MapInPlace(f: Record -> Record) returns (r: Outcome<Error>)
      modifies items
      ensures r == if old(AllLive(items.items, prefix, keys)) then Pass else Fail(MissingRecord)
      ensures items.items.Keys == old(items.items.Keys)
      ensures SameOutside(old(items.items), items.items, prefix)
      ensures old(Valid()) ==> Valid() && Contents() == MapRecords(f, old(Contents()))
    {
      ghost var start := items.items;
      ghost var valid0 := Valid();
      ghost var contents0 := if valid0 then Contents() else [];
      for i := 0 to |keys|
        invariant MappedUpTo(f, i, start, valid0, contents0)
      {
        r := MapAt(f, i, start, valid0, contents0);
        if r.Fail? {
          assert keys[i] in keys;
          return;
        }
      }
      if valid0 {
        assert contents0[..|keys|] == contents0 && contents0[|keys|..] == [];
        assert MapRecords(f, contents0) + [] == MapRecords(f, contents0);
      }
      return Pass;
    }

    /** The store after an in-place map has rewritten the first `i` listed records. */
    ghost predicate MappedUpTo(f: Record -> Record, i: nat, start: map<string, Record>, valid0: bool, contents0: seq<Record>)
      reads this, items
    {
      && i <= |keys|
      && items.items.Keys == start.Keys
      && (forall j :: 0 <= j < i ==> prefix + keys[j] in start)
      && SameOutside(start, items.items, prefix)
      && (valid0 ==> Distinct(keys) && |contents0| == |keys| && AllLive(items.items, prefix, keys))
      && (valid0 ==> Values(items.items, prefix, keys) == MapRecords(f, contents0[..i]) + contents0[i..])
    }

    /** One step of `map(function)` in place: rewrite the `i`-th listed record, if it is there. */
    method MapAt(f: Record -> Record, i: nat, ghost start: map<string, Record>, ghost valid0: bool, ghost contents0: seq<Record>)
      returns (r: Outcome<Error>)
      requires i < |keys| && MappedUpTo(f, i, start, valid0, contents0)
      modifies items
      ensures r.Fail? ==> r == Fail(MissingRecord) && prefix + keys[i] !in start && items.items == old(items.items)
      ensures r.Pass? ==> MappedUpTo(f, i + 1, start, valid0, contents0)
    {
      var key := prefix + keys[i];
      if key !in items.items {
        return Fail(MissingRecord);
      }
      var record := items.items[key];
      ghost var before := items.items;
      if valid0 {
        MapValuesStep(before, prefix, keys, i, f, contents0);
      }
      items.items := items.items[key := f(record)];
      WrittenUnderPrefix(before, prefix, keys[i], f(record));
      SameOutsideTransitive(start, before, items.items, prefix);
      return Pass;
    }

    /** `filter(function)` on the collection itself: deletes the records that fail `keep` and unlists their keys. */
    method FilterInPlace(keep: Record -> bool) returns (r: Outcome<Error>)
      modifies this, items
      ensures r.Fail? ==> r == Fail(MissingRecord) && keys == old(keys)
      ensures lastIndex == old(lastIndex)
      ensures old(KeysAllocated()) ==> KeysAllocated()
      ensures SameOutside(old(items.items), items.items, prefix)
      ensures old(Valid()) ==>
                && r == Pass
                && keys == KeptKeys(old(items.items), prefix, old(keys), keep)
                && items.items == old(items.items) - Dropped(old(items.items), prefix, old(keys), keep)
                && Valid() && Contents() == FilterRecords(keep, old(Contents()))
    {
      ghost var start := items.items;
      ghost var valid0 := Valid();
      var kept := [];
      for i := 0 to |keys|
        invariant keys == old(keys) && lastIndex == old(lastIndex)
        invariant forall k :: k in kept ==> k in keys
        invariant SameOutside(start, items.items, prefix)
        invariant valid0 ==> AllLive(start, prefix, keys[..i])
        invariant valid0 ==>
                    && kept == KeptKeys(start, prefix, keys[..i], keep)
                    && items.items == start - Dropped(start, prefix, keys[..i], keep)
      {
        if valid0 {
          FilterStep(start, prefix, keys, i, keep);
        }
        var key := prefix + keys[i];
        if key !in items.items {
          return Fail(MissingRecord);
        }
        var record := items.items[key];
        if keep(record) {
          kept := kept + [keys[i]];
        } else {
          ghost var before := items.items;
          items.items := items.items - {key};
          assert SameOutside(start, items.items, prefix) by {
            RemovedUnderPrefix(before, prefix, [keys[i]]);
            assert FullKeys(prefix, [keys[i]]) == {key};
            SameOutsideTransitive(start, before, items.items, prefix);
          }
        }
      }
      if valid0 {
        assert keys[..|keys|] == keys;
        KeptKeysDistinct(start, prefix, keys, keep);
        KeptKeysValues(start, prefix, keys, keep);
        KeptKeysSurvive(start, prefix, keys, keep);
      }
      keys := kept;
      return Pass;
    }

    /** The cached collection a transformation may write into. */
    function Destination(target: Option<string>): set<object>
      reads parent
    {
      if target.Some? then parent.CachedAt(target.value) else {}
    }

    /**
     * The other-destination branch shared by `map`, `filter` and
     * `random_subset`: reset `target` (creating it as `opts` allow), then
     * append `f` of every record of `ks` that `keep` accepts.
     */
    method Into(target: string, opts: Options, ks: seq<string>, f: Record -> Record, keep: Record -> bool)
      returns (r: Result<Collection, Error>)
      requires parent.Valid() && target != name
      modifies items, parent, parent.names, parent.CachedAt(target)
      ensures parent.Valid() && keys == old(keys) && lastIndex == old(lastIndex)
      ensures forall n :: n in old(parent.cache) ==> n in parent.cache && parent.cache[n] == old(parent.cache[n])
      ensures r.Ok? ==> target in parent.cache && parent.cache[target] == r.value
      ensures old(parent.Resolves(target, opts.createIfMissing, opts.errorIfExists)).Some? ==>
                r == Err(old(parent.Resolves(target, opts.createIfMissing, opts.errorIfExists)).value)
      ensures r.Err? ==> old(parent.Resolves(target, opts.createIfMissing, opts.errorIfExists)).Some? || r == Err(MissingRecord)
      ensures r.Ok? ==> r.value.name == target && r.value.parent == parent && r.value.KeysAllocated()
      ensures old(parent.Resolves(target, opts.createIfMissing, opts.errorIfExists)).None?
              && old(AllLive(items.items, prefix, ks)) && Isolated(prefix, ItemPrefix(target)) ==>
                && r.Ok? && r.value.Valid()
                && r.value.Contents() == MapRecords(f, FilterRecords(keep, old(Values(items.items, prefix, ks))))
                && (old(Valid()) ==> Valid() && Contents() == old(Contents()))
      // the store changes only in the target's namespace
      ensures SameOutside(old(items.items), items.items, ItemPrefix(target))
    {
      ghost var keys0, last0 := keys, lastIndex;
      assert this !in parent.CachedAt(target);
      r := parent.GetCollection(target, true, opts.createIfMissing, opts.errorIfExists);
      assert keys == keys0 && lastIndex == last0;
      if r.Err? {
        return;
      }
      var copied := Feed(r.value, ks, f, keep, old(items.items));
      if copied.Fail? {
        return Err(copied.error);
      }
    }

    /**
     * Append to `dest`, freshly reset, `f` of every record of `ks` that
     * `keep` accepts, reading them from this collection's namespace.
     * `start` is the store before the reset.
     */
    method Feed(dest: Collection, ks: seq<string>, f: Record -> Record, keep: Record -> bool, ghost start: map<string, Record>)
      returns (r: Outcome<Error>)
      requires dest != this && dest.items == items && dest.keys == [] && dest.lastIndex == 0
      requires SameOutside(start, items.items, dest.prefix)
      modifies dest, items
      ensures r == Pass || r == Fail(MissingRecord)
      ensures dest.KeysAllocated()
      ensures AllLive(start, prefix, ks) && Isolated(prefix, dest.prefix) ==>
                && r == Pass && dest.Valid()
                && dest.Contents() == MapRecords(f, FilterRecords(keep, Values(start, prefix, ks)))
      ensures Isolated(prefix, dest.prefix) && Distinct(keys) && AllLive(start, prefix, keys) ==>
                Valid() && Contents() == Values(start, prefix, keys)
      ensures SameOutside(start, items.items, dest.prefix)
    {
      ghost var middle := items.items;
      ghost var hyp := AllLive(start, prefix, ks) && Isolated(prefix, dest.prefix);
      ghost var rs := if hyp then Values(start, prefix, ks) else [];
      if hyp {
        IsolatedValuesUnchanged(start, middle, prefix, dest.prefix, ks);
      }
      assert dest.Valid() && dest.KeysAllocated() && dest.Contents() == [];
      r := dest.AppendFrom(prefix, ks, f, keep);
      if hyp {
        ConcatEmpty(MapRecords(f, FilterRecords(keep, rs)));
      }
      SameOutsideTransitive(start, middle, items.items, dest.prefix);
      if Isolated(prefix, dest.prefix) && Distinct(keys) && AllLive(start, prefix, keys) {
        IsolatedValuesUnchanged(start, items.items, prefix, dest.prefix, keys);
      }
    }

    /**
     * The rest of `copy_collection` once the source is resolved: reset
     * `target`, then append the records of `self.iterator(start, end)`.
     */
    method CopyInto(target: string, start: Option<int>, end: Option<int>, opts: Options) returns (r: Result<Collection, Error>)
      requires parent.Valid() && target != name
      modifies items, parent, parent.names, parent.CachedAt(target)
      ensures parent.Valid() && keys == old(keys) && lastIndex == old(lastIndex)
      ensures forall n :: n in old(parent.cache) ==> n in parent.cache && parent.cache[n] == old(parent.cache[n])
      ensures r.Ok? ==> target in parent.cache && parent.cache[target] == r.value && r.value.name == target && r.value.KeysAllocated()
      ensures old(parent.Resolves(target, opts.createIfMissing, opts.errorIfExists)).Some? ==>
                r == Err(old(parent.Resolves(target, opts.createIfMissing, opts.errorIfExists)).value)
      ensures old(parent.Resolves(target, opts.createIfMissing, opts.errorIfExists)).None?
              && old(Valid()) && Isolated(prefix, ItemPrefix(target)) ==>
                var (lo, hi) := SliceBounds(|keys|, start, end);
                && r.Ok? && r.value.Valid() && r.value.Contents() == old(Contents())[lo..hi]
                && Valid() && Contents() == old(Contents())
      ensures SameOutside(old(items.items), items.items, ItemPrefix(target))
    {
      var (lo, hi) := SliceBounds(|keys|, start, end);
      ghost var valid := Valid();
      ghost var rs := if valid then Contents() else [];
      if valid {
        ValuesSlice(items.items, prefix, keys, lo, hi);
        FilterRecordsKeepAll(rs[lo..hi]);
        MapRecordsSame(rs[lo..hi]);
      }
      r := Into(target, opts, keys[lo..hi], Same, KeepAll);
    }

    /** `map(function, new_collection, **kwargs)`. */
    method Map(f: Record -> Record, target: Option<string>, opts: Options) returns (r: Result<Collection, Error>)
      requires parent.Valid()
      modifies items, parent, parent.names, Destination(target)
      ensures parent.Valid() && keys == old(keys) && lastIndex == old(lastIndex)
      // on the collection itself
      ensures InPlace(target) ==> r == if old(AllLive(items.items, prefix, keys)) then Ok(this) else Err(MissingRecord)
      ensures InPlace(target) && old(Valid()) ==> Valid() && Contents() == MapRecords(f, old(Contents()))
      // into another collection, which is reset first
      ensures !InPlace(target) && old(parent.Resolves(target.value, opts.createIfMissing, opts.errorIfExists)).Some? ==>
                r == Err(old(parent.Resolves(target.value, opts.createIfMissing, opts.errorIfExists)).value)
      ensures !InPlace(target) && r.Ok? ==> r.value.name == target.value && r.value.parent == parent
      ensures !InPlace(target) && old(parent.Resolves(target.value, opts.createIfMissing, opts.errorIfExists)).None?
              && old(Valid()) && Isolated(prefix, ItemPrefix(target.value)) ==>
                && r.Ok? && r.value.Valid() && r.value.KeysAllocated()
                && r.value.Contents() == MapRecords(f, old(Contents()))
                && Valid() && Contents() == old(Contents())
      // the store changes only in the namespace written
      ensures InPlace(target) ==> SameOutside(old(items.items), items.items, prefix)
      ensures !InPlace(target) ==> SameOutside(old(items.items), items.items, ItemPrefix(target.value))
    {
      if InPlace(target) {
        var mapped := MapInPlace(f);
        return if mapped.Pass? then Ok(this) else Err(mapped.error);
      }
      ghost var contents0 := if Valid() then Contents() else [];
      r := Into(target.value, opts, keys, f, KeepAll);
      FilterRecordsKeepAll(contents0);
    }

    /** `filter(function, new_collection, **kwargs)`. */
    method Filter(keep: Record -> bool, target: Option<string>, opts: Options) returns (r: Result<Collection, Error>)
      requires parent.Valid()
      modifies this, items, parent, parent.names, Destination(target)
      ensures parent.Valid() && lastIndex == old(lastIndex)
      // on the collection itself
      ensures InPlace(target) ==> (r.Ok? ==> r.value == this) && (r.Err? ==> r == Err(MissingRecord) && keys == old(keys))
      ensures InPlace(target) && old(Valid()) ==>
                && r == Ok(this)
                && keys == KeptKeys(old(items.items), prefix, old(keys), keep)
                && Valid() && Contents() == FilterRecords(keep, old(Contents()))
      // into another collection, which is reset first
      ensures !InPlace(target) ==> keys == old(keys)
      ensures !InPlace(target) && old(parent.Resolves(target.value, opts.createIfMissing, opts.errorIfExists)).Some? ==>
                r == Err(old(parent.Resolves(target.value, opts.createIfMissing, opts.errorIfExists)).value)
      ensures !InPlace(target) && r.Ok? ==> r.value.name == target.value && r.value.parent == parent
      ensures !InPlace(target) && old(parent.Resolves(target.value, opts.createIfMissing, opts.errorIfExists)).None?
              && old(Valid()) && Isolated(prefix, ItemPrefix(target.value)) ==>
                && r.Ok? && r.value.Valid() && r.value.KeysAllocated()
                && r.value.Contents() == FilterRecords(keep, old(Contents()))
                && Valid() && Contents() == old(Contents())
      // the store changes only in the namespace written
      ensures InPlace(target) ==> SameOutside(old(items.items), items.items, prefix)
      ensures !InPlace(target) ==> SameOutside(old(items.items), items.items, ItemPrefix(target.value))
    {
      if InPlace(target) {
        var filtered := FilterInPlace(keep);
        return if filtered.Pass? then Ok(this) else Err(filtered.error);
      }
      ghost var contents0 := if Valid() then Contents() else [];
      r := Into(target.value, opts, keys, Same, keep);
      MapRecordsSame(FilterRecords(keep, contents0));
    }

    /**
     * `reduce(function, new_collection, initializer)`: folds the records (read
     * through an iterator over all keys) and appends the result to this
     * collection, or to `target` after resetting it.
     */
    method Reduce(g: (Record, Record) -> Record, target: Option<string>, initializer: Record, opts: Options)
      returns (r: Result<Collection, Error>)
      requires parent.Valid()
      modifies this, items, parent, parent.names, Destination(target)
      ensures parent.Valid()
      // the records are read and folded before the destination is resolved
      ensures !old(AllLive(items.items, prefix, keys)) ==>
                r == Err(MissingRecord) && keys == old(keys) && items.items == old(items.items)
      ensures old(AllLive(items.items, prefix, keys)) && Reduced(g, old(Values(items.items, prefix, keys)), initializer).Err? ==>
                r == Err(EmptyReduction) && keys == old(keys) && items.items == old(items.items)
      // on the collection itself: the result is appended under the next key, whatever the key list holds
      ensures InPlace(target) && old(AllLive(items.items, prefix, keys))
              && Reduced(g, old(Values(items.items, prefix, keys)), initializer).Ok? ==>
                && r == Ok(this) && lastIndex == old(lastIndex) + 1
                && keys == old(keys) + [DecimalKey(lastIndex)]
                && items.items == old(items.items)[prefix + DecimalKey(lastIndex) := Reduced(g, old(Values(items.items, prefix, keys)), initializer).value]
      ensures InPlace(target) && old(Valid() && KeysAllocated()) && Reduced(g, old(Contents()), initializer).Ok? ==>
                && r == Ok(this) && lastIndex == old(lastIndex) + 1
                && Valid() && KeysAllocated() && Contents() == old(Contents()) + [Reduced(g, old(Contents()), initializer).value]
      // into another collection: whatever it held is replaced by the result
      ensures !InPlace(target) ==> keys == old(keys) && lastIndex == old(lastIndex)
      ensures !InPlace(target) && old(AllLive(items.items, prefix, keys))
              && Reduced(g, old(Values(items.items, prefix, keys)), initializer).Ok? ==>
                && (old(parent.Resolves(target.value, opts.createIfMissing, opts.errorIfExists)).Some? ==>
                      r == Err(old(parent.Resolves(target.value, opts.createIfMissing, opts.errorIfExists)).value))
                && (old(parent.Resolves(target.value, opts.createIfMissing, opts.errorIfExists)).None? ==>
                      && r.Ok? && r.value.name == target.value && r.value.parent == parent
                      && r.value.keys == [DecimalKey(1)] && r.value.lastIndex == 1 && r.value.Valid()
                      && r.value.Contents() == [Reduced(g, old(Values(items.items, prefix, keys)), initializer).value])
      ensures !InPlace(target) && old(Valid()) && Isolated(prefix, ItemPrefix(target.value)) ==>
                Valid() && Contents() == old(Contents())
      // the store changes only in the namespace written
      ensures InPlace(target) ==> SameOutside(old(items.items), items.items, prefix)
      ensures !InPlace(target) ==> SameOutside(old(items.items), items.items, ItemPrefix(target.value))
    {
      var records := Read(keys);
      if records.Err? {
        return Err(records.error);
      }
      var reduced := Reduced(g, records.value, initializer);
      if reduced.Err? {
        return Err(reduced.error);
      }
      if InPlace(target) {
        WrittenUnderPrefix(items.items, prefix, DecimalKey(lastIndex + 1), reduced.value);
        Append(reduced.value);
        return Ok(this);
      }
      r := ReduceInto(target.value, opts, reduced.value);
    }

    /** The other-destination branch of `reduce`: reset `target`, then append `result` to it. */
    method ReduceInto(target: string, opts: Options, result: Record) returns (r: Result<Collection, Error>)
      requires parent.Valid() && target != name
      modifies items, parent, parent.names, parent.CachedAt(target)
      ensures parent.Valid() && keys == old(keys) && lastIndex == old(lastIndex)
      ensures old(parent.Resolves(target, opts.createIfMissing, opts.errorIfExists)).Some? ==>
                r == Err(old(parent.Resolves(target, opts.createIfMissing, opts.errorIfExists)).value)
      ensures old(parent.Resolves(target, opts.createIfMissing, opts.errorIfExists)).None? ==>
                && r.Ok? && r.value.name == target && r.value.parent == parent
                && r.value.keys == [DecimalKey(1)] && r.value.lastIndex == 1 && r.value.Valid()
                && r.value.Contents() == [result]
      ensures old(Valid()) && Isolated(prefix, ItemPrefix(target)) ==> Valid() && Contents() == old(Contents())
      ensures SameOutside(old(items.items), items.items, ItemPrefix(target))
    {
      ghost var start, keys0, last0 := items.items, keys, lastIndex;
      assert this !in parent.CachedAt(target);
      r := parent.GetCollection(target, true, opts.createIfMissing, opts.errorIfExists);
      assert keys == keys0 && lastIndex == last0;
      if r.Err? {
        return;
      }
      var dest := r.value;
      assert dest != this && dest.items == items && dest.prefix == ItemPrefix(target);
      SeedWith(dest, result, start);
    }

    /**
     * Appends `result` as the only record of `dest`, freshly reset; the
     * records of this collection are those of `start` when the namespaces
     * are apart.
     */
    method SeedWith(dest: Collection, result: Record, ghost start: map<string, Record>)
      requires dest != this && dest.items == items
      requires dest.keys == [] && dest.lastIndex == 0 && dest.Valid() && dest.KeysAllocated()
      requires SameOutside(start, items.items, dest.prefix)
      modifies dest, items
      ensures dest.keys == [DecimalKey(1)] && dest.lastIndex == 1 && dest.Valid() && dest.Contents() == [result]
      ensures SameOutside(start, items.items, dest.prefix)
      ensures AllLive(start, prefix, keys) && Isolated(prefix, dest.prefix) ==>
                AllLive(items.items, prefix, keys) && Values(items.items, prefix, keys) == Values(start, prefix, keys)
    {
      ghost var middle := items.items;
      dest.Append(result);
      WrittenUnderPrefix(middle, dest.prefix, DecimalKey(1), result);
      SameOutsideTransitive(start, middle, items.items, dest.prefix);
      if AllLive(start, prefix, keys) && Isolated(prefix, dest.prefix) {
        IsolatedValuesUnchanged(start, items.items, prefix, dest.prefix, keys);
      }
    }

    /**
     * `random_subset(number, new_collection)`: keeps the first `number` keys
     * (a Python slice bound) of a shuffle of the key list, sorted back into
     * byte order. `shuffled` is the order `random.shuffle` produced; `chosen`
     * is the sorted selection.
     */
    method RandomSubset(number: int, target: Option<string>, shuffled: seq<string>, opts: Options)
      returns (r: Result<Collection, Error>, ghost chosen: seq<string>)
      requires parent.Valid()
      requires multiset(shuffled) == multiset(keys)
      modifies this, items, parent, parent.names, Destination(target)
      ensures parent.Valid()
      ensures var cut := SliceBound(|shuffled|, Some(number), 0);
              Ordered(chosen) && multiset(chosen) == multiset(shuffled[..cut])
      // on the collection itself: the other keys are deleted
      ensures InPlace(target) ==>
                && r == Ok(this) && keys == chosen && lastIndex == old(lastIndex)
                && items.items == old(items.items) - FullKeys(prefix, shuffled[SliceBound(|shuffled|, Some(number), 0)..])
      ensures InPlace(target) && old(KeysAllocated()) ==> KeysAllocated()
      ensures InPlace(target) && old(Valid()) ==>
                && Valid() && AllLive(old(items.items), prefix, chosen)
                && Contents() == Values(old(items.items), prefix, chosen)
      // into another collection, which is emptied first
      ensures !InPlace(target) ==> keys == old(keys) && lastIndex == old(lastIndex)
      ensures !InPlace(target) && old(parent.Resolves(target.value, opts.createIfMissing, opts.errorIfExists)).Some? ==>
                r == Err(old(parent.Resolves(target.value, opts.createIfMissing, opts.errorIfExists)).value)
      ensures !InPlace(target) && r.Ok? ==> r.value.name == target.value && r.value.parent == parent
      ensures !InPlace(target) && old(parent.Resolves(target.value, opts.createIfMissing, opts.errorIfExists)).None?
              && old(Valid()) && Isolated(prefix, ItemPrefix(target.value)) ==>
                && r.Ok? && r.value.Valid() && r.value.KeysAllocated()
                && AllLive(old(items.items), prefix, chosen)
                && r.value.Contents() == Values(old(items.items), prefix, chosen)
                && Valid() && Contents() == old(Contents())
      // the store changes only in the namespace written
      ensures InPlace(target) ==> SameOutside(old(items.items), items.items, prefix)
      ensures !InPlace(target) ==> SameOutside(old(items.items), items.items, ItemPrefix(target.value))
    {
      var cut := SliceBound(|shuffled|, Some(number), 0);
      if InPlace(target) {
        RemovedUnderPrefix(items.items, prefix, shuffled[cut..]);
        chosen := SampleInPlace(shuffled, cut);
        return Ok(this), chosen;
      }
      r, chosen := SampleInto(target.value, shuffled, cut, opts);
    }

    /**
     * The other-destination branch of `random_subset`: sort the first `cut`
     * keys of the shuffle, empty `target`, then append the records of the
     * sorted keys to it.
     */
    method SampleInto(target: string, shuffled: seq<string>, cut: nat, opts: Options)
      returns (r: Result<Collection, Error>, ghost chosen: seq<string>)
      requires parent.Valid() && target != name
      requires multiset(shuffled) == multiset(keys) && cut <= |shuffled|
      modifies items, parent, parent.names, parent.CachedAt(target)
      ensures parent.Valid() && keys == old(keys) && lastIndex == old(lastIndex)
      ensures Ordered(chosen) && multiset(chosen) == multiset(shuffled[..cut])
      ensures old(parent.Resolves(target, opts.createIfMissing, opts.errorIfExists)).Some? ==>
                r == Err(old(parent.Resolves(target, opts.createIfMissing, opts.errorIfExists)).value)
      ensures r.Ok? ==> r.value.name == target && r.value.parent == parent
      ensures old(parent.Resolves(target, opts.createIfMissing, opts.errorIfExists)).None?
              && old(Valid()) && Isolated(prefix, ItemPrefix(target)) ==>
                && r.Ok? && r.value.Valid() && r.value.KeysAllocated()
                && AllLive(old(items.items), prefix, chosen)
                && r.value.Contents() == Values(old(items.items), prefix, chosen)
                && Valid() && Contents() == old(Contents())
      ensures SameOutside(old(items.items), items.items, ItemPrefix(target))
    {
      var picked := SortList(shuffled[..cut]);
      chosen := picked;
      PermutedPrefixElems(shuffled, cut, picked);
      assert forall k :: k in shuffled ==> k in keys by {
        assert keys[..|keys|] == keys;
        PermutedPrefixElems(keys, |keys|, shuffled);
      }
      r := Into(target, opts, picked, Same, KeepAll);
      if old(Valid()) {
        FilterRecordsKeepAll(Values(old(items.items), prefix, picked));
        MapRecordsSame(Values(old(items.items), prefix, picked));
      }
    }

    /**
     * The in-place branch of `random_subset`: delete the records of the keys
     * past `cut` in the shuffled order, keep the others and sort them.
     */
    method SampleInPlace(shuffled: seq<string>, cut: nat) returns (ghost chosen: seq<string>)
      requires multiset(shuffled) == multiset(keys) && cut <= |shuffled|
      modifies this, items
      ensures Ordered(chosen) && multiset(chosen) == multiset(shuffled[..cut])
      ensures keys == chosen && lastIndex == old(lastIndex)
      ensures items.items == old(items.items) - FullKeys(prefix, shuffled[cut..])
      ensures old(KeysAllocated()) ==> KeysAllocated()
      ensures old(Valid()) ==>
                && Valid() && AllLive(old(items.items), prefix, chosen)
                && Contents() == Values(old(items.items), prefix, chosen)
    {
      ghost var start := items.items;
      ghost var keys0 := keys;
      ghost var valid0 := Valid();
      keys := shuffled;
      for j := cut to |keys|
        modifies items
        invariant items.items == start - FullKeys(prefix, keys[cut..j])
      {
        assert keys[cut..j + 1] == keys[cut..j] + [keys[j]];
        items.items := items.items - {prefix + keys[j]};
      }
      assert keys[cut..|keys|] == keys[cut..];
      keys := keys[..cut];
      keys := SortList(keys);
      chosen := keys;
      PermutedPrefixElems(shuffled, cut, keys);
      assert forall k :: k in shuffled ==> k in keys0 by {
        assert keys0[..|keys0|] == keys0;
        PermutedPrefixElems(keys0, |keys0|, shuffled);
      }
      if valid0 {
        DistinctPermutation(keys0, shuffled);
        DistinctPrefix(shuffled, cut);
        DistinctPermutation(shuffled[..cut], keys);
        KeepsHead(start, prefix, shuffled, cut);
        ValuesAgree(start, items.items, prefix, keys);
      }
    }

    /** `iterator(start, end)`. */
    method Iter(start: Option<int>, end: Option<int>) returns (it: Iterator)
      ensures fresh(it) && it.coll == this && it.pos == 0
      ensures it.snapshot == keys[SliceBounds(|keys|, start, end).0..SliceBounds(|keys|, start, end).1]
    {
      it := new Iterator(this, start, end);
    }
  }

  /** A cursor over a copy of a slice of a collection's keys; reads each record when it gets there. */
  class Iterator {
    const coll: Collection
    const snapshot: seq<string>
    var pos: nat

    constructor (coll: Collection, start: Option<int>, end: Option<int>)
      ensures this.coll == coll && pos == 0
      ensures snapshot == coll.keys[SliceBounds(|coll.keys|, start, end).0..SliceBounds(|coll.keys|, start, end).1]
    {
      var (lo, hi) := SliceBounds(|coll.keys|, start, end);
      this.coll := coll;
      snapshot := coll.keys[lo..hi];
      pos := 0;
    }

    /** `__next__`: Ok(None) is StopIteration; a key without a record is an error. */
    method Next() returns (r: Result<Option<Record>, Error>)
      modifies this
      ensures old(pos) >= |snapshot| ==> r == Ok(None) && pos == old(pos)
      ensures old(pos) < |snapshot| ==>
                var key := coll.prefix + snapshot[old(pos)];
                && pos == old(pos) + 1
                && r == if key in coll.items.items then Ok(Some(coll.items.items[key])) else Err(MissingRecord)
    {
      if pos >= |snapshot| {
        return Ok(None);
      }
      var key := coll.prefix + snapshot[pos];
      pos := pos + 1;
      if key !in coll.items.items {
        return Err(MissingRecord);
      }
      return Ok(Some(coll.items.items[key]));
    }
  }
}
