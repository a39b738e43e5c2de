# pypeline: collections of records over a sorted key-value store

pypeline keeps named, ordered collections of JSON records in one LevelDB
database. The database is split into two namespaces. `collections/` holds one
marker per collection name. `collection-items/` holds the records, each under
the key `name + "!!" + key`.

A `Collection` caches two things: the list of its keys and an append counter,
`last_index`. An append stores the record under `str(last_index + 1)`. A
refresh rebuilds the key list from the store's ascending key scan and parses
the counter from the last key. `map`, `filter`, `reduce` and `random_subset`
work either on the collection itself or into another collection, which is
reset first. The `DB` directory resolves names through the markers and a
name → collection cache (`collection`). It also lists, copies and deletes
collections. An `Iterator` walks a copy of a slice of the key list and reads
each record when it gets to it.

The model is imperative, like the program:

* the store's two namespaces are the objects `Store.NameStore` (a set of names)
  and `Store.ItemStore` (a map from full keys to records);
* `Pypeline.DB`, `Pypeline.Collection` and `Pypeline.Iterator` are classes with
  the program's fields;
* every operation is a method whose `modifies` clause names the state it
  changes.

Each method is proved against specification functions:

* `Collection.Contents()` is the list of records, in order;
* `Store.Scan` is the ascending key scan;
* `Records.MapRecords`, `Records.FilterRecords` and `Records.Reduced` give
  map, filter and reduce their meaning on record lists;
* `DB.Resolves` is the error that `collection(...)` raises, if any.

Python's errors are values of `Records.Error`, returned through `Result` and
`Outcome`:

| Error | Python behaviour it stands for |
|---|---|
| `NotFound`, `AlreadyExists`, `InvalidName` | the three `ValueError`s |
| `BadKey` | `int()` of a key that does not parse |
| `IndexOutOfRange` | `IndexError` |
| `EmptyReduction` | `reduce` of an empty sequence with no initializer |
| `MissingRecord` | decoding the `None` that the store returns for a missing key |

The module `Defects` shows four behaviours of the code as written.

**Unpadded keys.** Append keys are unpadded decimals, but refresh trusts byte
order. After ten appends, a refresh lists `"1","10","2",…,"9"` and sets the
counter to 9. The next append then writes over record `"10"` and lists that
key twice. Up to nine appends, refresh gives back exactly the same state.

**The `!!` check.** The check does not keep item prefixes apart. Two names
that pass it overlap exactly when one is the other followed by `"!"`. When `"a"`
has no records of its own, one record of collection `"a!"` makes `"a"` fail to
load. When `"a"` also holds its own record `"1"`, it loads, but the
neighbour's record is listed first: `a[0]` reads it and `delete_all()` on
`"a"` deletes it.

**random_subset order.** The selected keys are sorted back into byte order.
While the key list is itself in byte order (up to nine appends), the sample
keeps the records' relative order. After ten appends it does not: a sample of
the keys `"2"` and `"10"` comes back as `"10"`, `"2"`.

**collections() order.** `collections()` returns the cache in insertion
order, not in name order.

The cross-collection guarantees are proved when the source and destination
prefixes are `Keys.Isolated`. The `!!` check is meant to ensure that, and the
overlap lemma above says exactly when it does.

## Model

| member | source | states |
|---|---|---|
| Pypeline.DB.constructor | pypeline/DB.py:8-14 | a new directory has an empty cache and no insertion order, over the given marker and item namespaces |
| Pypeline.DB.GetCollection | pypeline/DB.py:16-30 | `collection(...)`: an error exactly when `Resolves` gives one; a cached name returns the same object, an uncached one a fresh object that is cached last in order; the marker is written for any uncached name when create_if_missing holds; a reset leaves the result empty with counter 0 and deletes only the listed keys of that namespace |
| Pypeline.DB.Open | pypeline/DB.py:17-23 | an uncached name without a marker is NotFound unless it may be created; the marker is written before the load can fail; a successful load is cached last |
| Pypeline.DB.Cache | pypeline/DB.py:23 | loading a known name caches a fresh, loaded collection, or returns the load error and leaves the cache as it was |
| Pypeline.DB.ErrorIfExistsOnlyCached | pypeline/DB.py:24-25 | error_if_exists gives AlreadyExists if and only if the name is cached |
| Pypeline.DB.CreateNeverNotFound | pypeline/DB.py:19-22 | with create_if_missing (which delete uses) NotFound never occurs; an uncached name fails only as its load fails |
| Pypeline.DB.UnrecordedNotFound | pypeline/DB.py:19-21 | a name with no marker, resolved without create_if_missing, is NotFound |
| Pypeline.ValuesInOrder | pypeline/DB.py:37 | the list of cache values in insertion order has one entry per name in the order, the collection cached under it |
| Pypeline.DB.Resolves | pypeline/DB.py:16-25 | the error `collection(...)` raises is one of AlreadyExists, NotFound, InvalidName, BadKey; NotFound only without create_if_missing and without a marker; AlreadyExists only with error_if_exists |
| Pypeline.DB.LoadError | pypeline/DB.py:58-66 | loading fails with InvalidName iff the name contains "!!", and with BadKey only when some scanned key does not parse; no other error |
| Pypeline.DB.Collections | pypeline/DB.py:32-37 | every marked name ends up cached, the new ones appended to the order in ascending name order after the cached ones; the list is the cache in insertion order; a load error is the error of some uncached marked name, and succeeds iff every uncached marked name loads |
| Pypeline.DB.CacheAll | pypeline/DB.py:33-35 | the scan loop: cached entries are kept, new ones are fresh and loaded, and on success the order is extended by the uncached scanned names in scan order |
| Pypeline.DB.CacheNext | pypeline/DB.py:34-35 | one scanned name: cached if it was not, or the load error of that name |
| Pypeline.DB.ScannedNext | pypeline/DB.py:33-35 | the loop invariant of collections() advances by one scanned name |
| Pypeline.DB.CopyCollection | pypeline/DB.py:39-44 | a missing or unloadable old name is an error; copying onto itself empties it (or is AlreadyExists); otherwise the new collection, reset first, holds the slice `[start:end]` of the old one's records and the old one is unchanged; an uncached old collection holds exactly the records its namespace held before the call; the store changes only in the new collection's namespace |
| Pypeline.DB.CopyResolved | pypeline/DB.py:41-42 | the reset-then-append half of copy_collection, including the self-copy case that empties the source; the store changes only in the new collection's namespace |
| Pypeline.DB.Delete | pypeline/DB.py:46-49 | the name is resolved with create_if_missing, so it fails only when the load fails; on success the marker, the cache entry, the order entry and exactly the listed records are gone |
| Pypeline.DB.Drop | pypeline/DB.py:47-49 | deleting a cached collection removes its listed records, its marker and its cache entry |
| Pypeline.Collection.Load | pypeline/DB.py:58-66 | `Collection(...)`: InvalidName when the name contains "!!", BadKey when the last scanned key does not parse, else a fresh, loaded collection |
| Pypeline.Collection.constructor | pypeline/DB.py:62-64 | the name and parent are set and the state starts empty |
| Pypeline.Collection.Append | pypeline/DB.py:68-72 | the counter rises by one, the key `str(counter)` is listed last and stored with the record; the key is new when every listed key was allocated up to the counter, and then the contents grow by exactly the record |
| Pypeline.Collection.Refresh | pypeline/DB.py:74-82 | the key list becomes the ascending scan of the namespace; the counter is the parse of its last key or 0, and a key that does not parse is BadKey |
| Pypeline.Collection.Delete | pypeline/DB.py:84-86 | an index outside `-len..len-1` fails with nothing changed; otherwise exactly that key leaves the list and the store, later records shift down, the counter is kept |
| Pypeline.Collection.DeleteAll | pypeline/DB.py:88-92 | the list is emptied, the counter reset and exactly the listed keys deleted |
| Pypeline.Collection.AppendAll | pypeline/DB.py:94-96 | one append per record, in any state: the counter grows by the number of records, the keys `str(last+1)..str(last+n)` are listed last and the store gains exactly those keys with the records; from a valid, allocated state the contents grow by the records, in order |
| Pypeline.Collection.AppendNext | pypeline/DB.py:95-96 | one iteration of append_all keeps its invariant: counter, key run and store after `j + 1` appends |
| Pypeline.Collection.Read | pypeline/DB.py:186-187 | the records of the given keys in order, or MissingRecord if one is absent |
| Pypeline.Collection.Get | pypeline/DB.py:185-189 | `self[i]`: IndexOutOfRange outside the list; else, in any state, the stored record of the key at that Python index, or MissingRecord when that key has none |
| Pypeline.Collection.Set | pypeline/DB.py:191-192 | `self[i] = v`: IndexOutOfRange with the store unchanged, else only that position's record is replaced |
| Pypeline.Collection.GetSlice | pypeline/DB.py:185-187 | `self[start:end]`, in any state: the records of the Python slice of the key list, or MissingRecord when one of those keys has none; in a valid state that is the slice of the contents |
| Pypeline.Collection.Length | pypeline/DB.py:197-198 | `len(self)` is the number of listed keys, which is the number of records |
| Pypeline.Collection.AppendFrom | pypeline/DB.py:105-108 | the append loop of the copying operations: writes only inside the collection's namespace and extends its key list; when the source keys are live and the two prefixes are isolated, it succeeds, and from a valid, allocated state it appends, in order, `f` of every source record that passes `keep` |
| Pypeline.Collection.AppendAt | pypeline/DB.py:107-108 | one iteration of the append loop keeps its invariant |
| Pypeline.Collection.MapInPlace | pypeline/DB.py:100-104 | in-place map: keys and store keys unchanged, each record replaced by `f` of it, nothing outside the namespace touched; MissingRecord when a listed key has no record |
| Pypeline.Collection.MapAt | pypeline/DB.py:102-104 | one iteration of the in-place map keeps its invariant |
| Pypeline.Collection.FilterInPlace | pypeline/DB.py:114-122 | in-place filter: the keys become the stable selection whose records pass, exactly the rejected records are deleted, and the contents are the filtered contents |
| Pypeline.Collection.Into | pypeline/DB.py:124-128 | the other-target branch: a resolution error is returned as is; the source keeps its keys and counter; when the name resolves, the source keys are live and the prefixes are isolated, the target, reset first, receives `f` of the kept records in source order and a valid source keeps its records; the store changes only in the target's namespace |
| Pypeline.Collection.Feed | pypeline/DB.py:126-128 | appending to a just-reset target: when the keys read are live and the prefixes are isolated, it succeeds and the target holds `f` of the kept records in order; with isolated prefixes the source's records stay as they were; the store changes only in the target's namespace |
| Pypeline.Collection.CopyInto | pypeline/DB.py:41-42 | a resolution error is returned as is; for a valid source whose prefix is isolated from the target's, the target, reset first, holds the Python slice `[start:end]` of the source's records; the store changes only in the target's namespace |
| Pypeline.Collection.Map | pypeline/DB.py:98-110 | in place, each record becomes `f` of it; otherwise the target is reset and holds `f` of every record in order, and the source is unchanged; either way the store changes only in the namespace written |
| Pypeline.Collection.Filter | pypeline/DB.py:112-130 | in place, only the passing records stay, in order; otherwise the target is reset and holds exactly the passing records in order, and the source is unchanged; either way the store changes only in the namespace written |
| Pypeline.Collection.Reduce | pypeline/DB.py:132-146 | the records are folded before the destination is resolved; an empty collection without initializer fails with nothing changed; in place the result is appended once under the next key in any state, and the contents grow by it from a valid, allocated state; a named other target is reset and holds only the result; either way the store changes only in the namespace written |
| Pypeline.Collection.ReduceInto | pypeline/DB.py:143-145 | the other target ends with exactly one key, "1", holding the result; a resolution error is returned as is; the store changes only in the target's namespace |
| Pypeline.Collection.RandomSubset | pypeline/DB.py:148-168 | the selection is the first `number` keys of the shuffle, sorted, a permutation of that prefix; in place the others are deleted; otherwise the target holds the selected records and the source is unchanged; either way the store changes only in the namespace written |
| Pypeline.Collection.SampleInto | pypeline/DB.py:158-166 | the other-target branch: the selection is a sorted permutation of the shuffled prefix; for a valid source whose prefix is isolated from the target's, the emptied target receives the selected records; the store changes only in the target's namespace |
| Pypeline.Collection.SampleInPlace | pypeline/DB.py:150-156 | the in-place branch: the keys past the cut are deleted, the rest kept sorted with their records |
| Pypeline.Collection.Iter | pypeline/DB.py:171-172 | the iterator starts at a copy of the Python slice of the key list |
| Pypeline.Iterator.constructor | pypeline/DB.py:201-203 | the snapshot is `keys[start:end]` |
| Pypeline.Iterator.Next | pypeline/DB.py:211-212 | the next record of the snapshot, MissingRecord if its key has none, or the end of iteration |
| Keys.DecimalKey | pypeline/DB.py:70 | `str(n)` is a non-empty string of digits, with a leading zero only for 0 |
| Keys.ParseDecimalKey | pypeline/DB.py:70-80 | `int(str(n)) == n`: the counter a refresh parses from an appended key is its number |
| Keys.ParseDecimal | pypeline/DB.py:80 | `int(...)` of a key: a parsed key is non-empty, and one without a leading zero is `str` of its value |
| Keys.KeyRun | pypeline/DB.py:69-70 | the keys of `n` appends after counter `last` are `str(last+1)..str(last+n)` |
| Keys.ScannedLastIndex | pypeline/DB.py:79-82 | when every scanned key was allocated up to the counter, the recomputed counter exists and is at most the real one |
| Keys.HasSeparator | pypeline/DB.py:59 | `'!!' in name` holds iff two adjacent characters are both '!' |
| Keys.ItemPrefixInjective | pypeline/DB.py:63 | different collection names get different item prefixes `name + "!!"` (which prefixes overlap is `Defects.PrefixNeedsSeparator` and `Defects.OverlapOnlyWithTrailingBang`) |
| Keys.DecimalKeyInjective | pypeline/DB.py:70 | different counters give different keys |
| Keys.NextKeyIsNew | pypeline/DB.py:69-72 | when every listed key was allocated up to the counter, the next key is not listed |
| Keys.IsolatedKeyOutside | pypeline/DB.py:63 | a key under one of two isolated prefixes is never under the other |
| KeyOrder.LessIrreflexive | pypeline/DB.py:76 | no key sorts before itself |
| KeyOrder.LessTransitive | pypeline/DB.py:76 | byte order is transitive |
| KeyOrder.LessTotal | pypeline/DB.py:76 | of two different keys one sorts before the other |
| KeyOrder.LessPrefix | pypeline/DB.py:76 | a proper prefix sorts before its extensions |
| KeyOrder.WithoutSorted | pypeline/DB.py:156 | dropping keys from a strictly ascending list keeps it strictly ascending |
| KeyOrder.SortedOf | pypeline/DB.py:76 | the ascending scan lists each key of the namespace once, strictly ascending |
| KeyOrder.SortedOfUnique | pypeline/DB.py:76 | a strictly ascending list of a set of keys is its scan |
| KeyOrder.SortKeys | pypeline/DB.py:33 | the store's key iterator yields the ascending scan |
| KeyOrder.SortList | pypeline/DB.py:156 | `list.sort` leaves a non-decreasing permutation of its input |
| KeyOrder.InsertOrdered | pypeline/DB.py:162 | inserting into a sorted list keeps it sorted |
| KeyOrder.Without | pypeline/DB.py:34 | the names not already cached, in scan order, each once |
| Records.MapRecords | pypeline/DB.py:107-108 | mapping keeps the length and applies `f` at every position |
| Records.FilterRecords | pypeline/DB.py:126-128 | filtering keeps only records that pass, drawn from the input |
| Records.FilterRecordsKeeps | pypeline/DB.py:127-128 | every record that passes is kept |
| Records.FilterRecordsIsSubsequence | pypeline/DB.py:117-122 | the filtered records are a subsequence of the input |
| Records.FilterRecordsAppend | pypeline/DB.py:126-128 | filtering distributes over concatenation |
| Records.FoldLeft | pypeline/DB.py:135-137 | the fold consumes the records from the front: a non-empty fold is the fold of the rest from `g(acc, first)` |
| Records.Reduced | pypeline/DB.py:132-137 | reduce's only error is EmptyReduction; an empty collection with an initializer gives the initializer; one record without an initializer gives that record |
| Records.FoldLeftAppend | pypeline/DB.py:135 | a fold over a concatenation continues from the fold of the first part |
| Records.ReducedFailsOnlyWhenEmpty | pypeline/DB.py:134-137 | reduce fails if and only if there are no records and no initializer |
| Records.ReducedFirstAsSeed | pypeline/DB.py:137 | without an initializer the first record seeds the fold over the rest |
| Records.IndexOf | pypeline/DB.py:185-189 | a Python index is valid iff it is in `-len..len-1`, and negative ones count from the end |
| Records.SliceBound | pypeline/DB.py:153-155 | a slice bound is clamped to the list, as `keys[number:]` and `keys[:number]` do |
| Records.SliceBounds | pypeline/DB.py:202 | the positions `keys[start:end]` selects lie within the list |
| Store.NameStore.ScanNames | pypeline/DB.py:33 | the marker iterator lists every name once, ascending |
| Store.ItemStore.ScanKeys | pypeline/DB.py:76 | the prefixed key iterator lists the namespace's keys, ascending |
| Store.NamespaceKeys | pypeline/DB.py:63 | every key visible through the view of `p` is stored under `p` |
| Store.Scan | pypeline/DB.py:76 | the view's key iterator lists exactly the visible keys, strictly ascending |
| Store.AppendedHolds | pypeline/DB.py:94-96 | appending `n` records adds exactly the keys `str(last+1)..str(last+n)` under the prefix and changes no other key |
| Store.AppendedAt | pypeline/DB.py:68-72 | the `j`-th appended record is stored under `str(last+j+1)` |
| Store.AppendedStep | pypeline/DB.py:69-71 | one more append stores the `j`-th record under `str(last + j + 1)` on top of the earlier appends |
| Store.InNamespace | pypeline/DB.py:63 | a key is visible through the view of `p` iff `p + key` is stored |
| Store.IsolatedValuesUnchanged | pypeline/DB.py:63 | writes confined to one namespace leave the records of an isolated namespace as they were |
| Store.RemovedUnderPrefix | pypeline/DB.py:89-90 | deleting the listed keys of a namespace changes nothing outside it |
| Store.ValuesAppend | pypeline/DB.py:71-72 | storing a new key listed last appends exactly its record |
| Store.ValuesRemove | pypeline/DB.py:85-86 | deleting the key at position `i` removes exactly that record from the contents |
| Store.ValuesUpdate | pypeline/DB.py:192 | overwriting one key's record replaces only that position |
| Store.ValuesSlice | pypeline/DB.py:202 | the records of a key slice are that slice of the records |
| Store.MapValuesStep | pypeline/DB.py:102-104 | rewriting the `i`-th record extends the mapped prefix by one |
| Store.KeptKeysMembership | pypeline/DB.py:117-119 | a key is kept iff it is listed and its record passes |
| Store.KeptKeysDistinct | pypeline/DB.py:117-122 | the kept keys are pairwise distinct |
| Store.KeptKeysValues | pypeline/DB.py:117-122 | the kept keys hold the filtered records, in order |
| Store.KeptKeysSurvive | pypeline/DB.py:117-122 | deleting the rejected keys leaves the kept records in place |
| Store.FilterStep | pypeline/DB.py:117-121 | one position of the in-place filter: kept or dropped by its record |
| Defects.SingleDigitKeysOrdered | pypeline/DB.py:70 | below ten, byte order and numeric order agree on keys |
| Defects.TenSortsBeforeTwo | pypeline/DB.py:70 | "10" sorts before "2" |
| Defects.AllocatedKeysSortedBelowTen | pypeline/DB.py:69-72 | up to nine appends, the keys are already in scan order |
| Defects.RefreshAgreesIffSorted | pypeline/DB.py:74-77 | refresh reproduces a key list of the namespace iff that list is in byte order |
| Defects.RefreshAgreesBelowTen | pypeline/DB.py:74-82 | after at most nine appends, refresh gives back the same keys and counter |
| Defects.RefreshAfterTenAppends | pypeline/DB.py:74-82 | after ten appends, refresh lists "10" second and sets the counter to 9, so the next key is already listed |
| Defects.AppendAfterRefresh | pypeline/DB.py:68-82 | ten appends, a refresh and one append overwrite record "10" and list it twice |
| Defects.RefreshThenAppend | pypeline/DB.py:68-82 | after a refresh of the ten keys, the append sets the counter to 10 and reuses the listed key "10" |
| Defects.OverlapOnlyWithTrailingBang | pypeline/DB.py:59-63 | two distinct names that pass the `!!` check overlap iff one is the other plus "!" |
| Defects.PrefixNeedsSeparator | pypeline/DB.py:59-63 | a name whose item prefix starts another's is that name, that name plus "!", or contains "!!" |
| Defects.SeparatorCheckDoesNotIsolate | pypeline/DB.py:59-63 | "a" and "a!" pass the check but their item prefixes overlap |
| Defects.NeighbourBreaksLoad | pypeline/DB.py:59-80 | one record of "a!" makes "a" fail to load with BadKey while "a!" loads |
| Defects.NeighbourListedFirst | pypeline/DB.py:59-80 | with records "a!!1" and "a!!!1", "a" loads, lists the neighbour's key "!1" before its own "1", and that key is the record of "a!" |
| Defects.NeighbourReadFirst | pypeline/DB.py:185-189 | in that store, `a[0]` returns the record of "a!" |
| Defects.NeighbourDeletedWithA | pypeline/DB.py:88-92 | in that store, `delete_all()` on "a" leaves the store empty, deleting the record of "a!" |
| Defects.SampleKeepsOrderWhenSorted | pypeline/DB.py:148-166 | while the key list is strictly ascending, the sorted sample is the key list with the unselected keys dropped |
| Defects.SampleAgainstAppendOrder | pypeline/DB.py:148-166 | a sample of the second and tenth appended keys comes back as "10", "2", against append order |
| Defects.CollectionsInInsertionOrder | pypeline/DB.py:32-37 | with "b" cached before "a", collections() lists b before a, not in name order |
| Defects.CollectionsAfterOpening | pypeline/DB.py:16-37 | opening "b" and then calling collections() on the markers "a" and "b" returns b before a |

## Left out

- LevelDB through plyvel, and `open`/`close`, are not modelled. The store is the two namespace objects. The path and `create_if_missing` of `DB.__init__` are not modelled.
- The JSON codec is not modelled. Records are stored and read back as values, so a value that `json.dumps` rejects is not modelled.
- `random.shuffle` is not modelled. Its result is the parameter `shuffled`, which is any permutation of the key list.
- `__repr__`, the Python 2 `next` and `__iter__` carry no logic. `__iter__` is `iterator()`.
- Keyword errors of `**kwargs` are not modelled. `Options` carries only `create_if_missing` and `error_if_exists`.
- Slices with a step are not modelled, only `[start:end]`.
- User callables are total, deterministic functions. Exceptions they raise, and their effects on the store, are not modelled.
- Names and keys are strings. Their order is character order, which is byte order for ASCII. Encoding to bytes is not modelled.
- Two `DB` objects over one store, and concurrent access, are not modelled.
- Keys.ParseDecimal: accepts only non-empty runs of ASCII digits. Python's `int()` also accepts surrounding whitespace, a sign and underscores; stored keys of that form are not modelled.
- Pypeline.Collection.Map: the target's contents and the unchanged source are proved only when the two item prefixes are isolated, which the `!!` check does not guarantee.
- Pypeline.Collection.Filter: the same holds for the other-target branch.
- Pypeline.Collection.RandomSubset: the same holds for the other-target branch.
- Pypeline.Collection.Reduce: that the source is unchanged by the other-target branch is proved only for isolated prefixes.
- Pypeline.DB.CopyCollection: the copied contents are proved only for isolated prefixes and an old collection that is valid when cached.
- Pypeline.Collection.AppendFrom: the success and the appended contents are proved only when every source key is live and the two item prefixes are isolated, and the contents only from a valid, allocated state.
- Pypeline.Collection.Into: the target's contents and the unchanged source are proved only when the name resolves, the source keys are live and the two item prefixes are isolated.
- Pypeline.Collection.Feed: the copy and the unchanged source are stated only for isolated item prefixes, and the copy only for live source keys.
- Pypeline.Collection.CopyInto: the copied slice is proved only for a valid source whose item prefix is isolated from the target's.
- Pypeline.Collection.SampleInto: the copied records are proved only for a valid source whose item prefix is isolated from the target's.
- Pypeline.Collection.Append: the contents are stated only when the listed keys are distinct, live and allocated up to the counter. That fails after a refresh of ten or more keys; see `Defects.AppendAfterRefresh`.
