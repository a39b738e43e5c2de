/**
 * Where pypeline/DB.py departs from what its design relies on, stated as
 * facts about the model as written: unpadded append keys against the
 * byte-ordered scan of refresh, the `!!` name check against overlapping
 * item prefixes, and the insertion order that collections() lists.
 */
module Defects {
  import opened Wrappers
  import opened KeyOrder
  import opened Keys
  import opened Records
  import opened Store
  import opened Pypeline

  // ---------------------------------------------------------------------
  // Unpadded keys against the byte-ordered scan of refresh

  /** Below ten, byte order and numeric order agree on allocated keys. */
  lemma SingleDigitKeysOrdered(a: nat, b: nat)
    requires a < b < 10
    ensures Less(DecimalKey(a), DecimalKey(b))
  {
  }

  /** From ten on they do not: "10" sorts before "2". */
  lemma TenSortsBeforeTwo()
    ensures Less(DecimalKey(10), DecimalKey(2)) && 2 < 10
  {
    assert DecimalKey(10) == "10";
  }

  /** Up to nine appends, the allocated keys are already in byte order. */
  lemma AllocatedKeysSortedBelowTen(n: nat)
    requires n <= 9
    ensures StrictlySorted(KeyRun(0, n))
  {
    var ks := KeyRun(0, n);
    forall i | 0 <= i < |ks| - 1 ensures Less(ks[i], ks[i + 1]) {
      SingleDigitKeysOrdered(i + 1, i + 2);
    }
    ChainSorted(ks);
  }

  /**
   * A refresh reproduces a key list that lists exactly the namespace's keys
   * if and only if that list is in byte order.
   */
  lemma RefreshAgreesIffSorted(items: map<string, Record>, p: string, ks: seq<string>)
    requires Elems(ks) == NamespaceKeys(items, p)
    ensures Scan(items, p) == ks <==> StrictlySorted(ks)
  {
    if StrictlySorted(ks) {
      SortedOfUnique(NamespaceKeys(items, p), ks);
    }
  }

  /** After at most nine appends, a refresh gives back the same keys and counter. */
  lemma RefreshAgreesBelowTen(items: map<string, Record>, p: string, n: nat)
    requires n <= 9 && NamespaceKeys(items, p) == Elems(KeyRun(0, n))
    ensures Scan(items, p) == KeyRun(0, n)
    ensures ScannedLastIndex(Scan(items, p)) == Some(n)
  {
    AllocatedKeysSortedBelowTen(n);
    RefreshAgreesIffSorted(items, p, KeyRun(0, n));
    if n > 0 {
      ParseDecimalKey(n);
    }
  }

  /** The byte-ordered scan of the keys of ten appends. */
  const ScannedTen: seq<string> := ["1", "10", "2", "3", "4", "5", "6", "7", "8", "9"]

  /**
   * After ten appends, a refresh lists "10" second and takes the counter
   * from "9": the next key it allocates is one it already lists.
   */
  lemma RefreshAfterTenAppends(items: map<string, Record>, p: string)
    requires NamespaceKeys(items, p) == Elems(KeyRun(0, 10))
    ensures Scan(items, p) == ScannedTen
    ensures ScannedLastIndex(Scan(items, p)) == Some(9)
    ensures DecimalKey(9 + 1) in Scan(items, p)
    ensures !AllAllocated(Scan(items, p), 9)
  {
    ScannedTenListsAllocated();
    ScannedTenSorted();
    SortedOfUnique(NamespaceKeys(items, p), ScannedTen);
    KeysNineAndTen();
  }

  lemma KeysNineAndTen()
    ensures DecimalKey(9) == "9" && DecimalKey(10) == "10"
    ensures ParseDecimal("9") == Some(9) && !Allocated("10", 9)
  {
    assert DecimalKey(9) == "9";
    assert DecimalKey(10) == "10";
    ParseDecimalKey(9);
    ParseDecimalKey(10);
  }

  lemma AllocatedTen()
    ensures KeyRun(0, 10) == ["1", "2", "3", "4", "5", "6", "7", "8", "9", "10"]
  {
    assert DecimalKey(1) == "1" && DecimalKey(2) == "2" && DecimalKey(3) == "3";
    assert DecimalKey(4) == "4" && DecimalKey(5) == "5" && DecimalKey(6) == "6";
    assert DecimalKey(7) == "7" && DecimalKey(8) == "8" && DecimalKey(9) == "9";
    assert DecimalKey(10) == "10";
  }

  lemma ScannedTenListsAllocated()
    ensures Elems(ScannedTen) == Elems(KeyRun(0, 10))
  {
    AllocatedTen();
    var s := ["1", "2", "3", "4", "5", "6", "7", "8", "9", "10"];
    assert forall k :: k in s <==> k in ScannedTen;
  }

  lemma ScannedTenSorted()
    ensures StrictlySorted(ScannedTen)
  {
    var s := ScannedTen;
    assert Less(s[0], s[1]) && Less(s[1], s[2]) && Less(s[2], s[3]);
    assert Less(s[3], s[4]) && Less(s[4], s[5]) && Less(s[5], s[6]);
    assert Less(s[6], s[7]) && Less(s[7], s[8]) && Less(s[8], s[9]);
    ChainSorted(s);
  }

  /** Writing a key under `p` adds exactly that key to the view of `p`. */
  lemma NamespaceAfterWrite(items: map<string, Record>, p: string, k: string, v: Record)
    ensures NamespaceKeys(items[p + k := v], p) == NamespaceKeys(items, p) + {k}
  {
    forall x ensures x in NamespaceKeys(items[p + k := v], p) <==> x in NamespaceKeys(items, p) + {k} {
      InNamespace(items[p + k := v], p, x);
      InNamespace(items, p, x);
      if p + x == p + k {
        PrefixInjective(p, x, k);
      }
    }
  }

  /**
   * Ten appends to an empty collection, a refresh, then one more append:
   * the last append writes over the tenth record and lists "10" twice.
   */
  method AppendAfterRefresh(c: Collection, records: seq<Record>, extra: Record)
    requires c.keys == [] && c.lastIndex == 0 && NamespaceKeys(c.items.items, c.prefix) == {}
    requires |records| == 10
    modifies c, c.items
    ensures c.keys == ScannedTen + ["10"] && !Distinct(c.keys)
    ensures c.lastIndex == 10
    ensures c.prefix + "10" in c.items.items && c.items.items[c.prefix + "10"] == extra
  {
    AppendTen(c, records);
    ghost var stored := c.items.items;
    RefreshAfterTenAppends(stored, c.prefix);
    KeysNineAndTen();
    RefreshThenAppend(c, extra);
  }

  /**
   * A refresh of the keys of ten appends, then one more append: the counter
   * it parses makes the append reuse a listed key.
   */
  method RefreshThenAppend(c: Collection, extra: Record)
    requires NamespaceKeys(c.items.items, c.prefix) == Elems(KeyRun(0, 10))
    modifies c, c.items
    ensures c.lastIndex == 10
    ensures c.keys == Scan(old(c.items.items), c.prefix) + [DecimalKey(10)] && !Distinct(c.keys)
    ensures c.items.items == old(c.items.items)[c.prefix + DecimalKey(10) := extra]
  {
    ghost var scanned := Scan(c.items.items, c.prefix);
    RefreshAfterTenAppends(c.items.items, c.prefix);
    var refreshed := c.Refresh();
    c.Append(extra);
    ListedTwice(scanned, DecimalKey(10));
  }

  /** Appending a listed element lists it twice. */
  lemma ListedTwice(s: seq<string>, x: string)
    requires x in s
    ensures !Distinct(s + [x])
  {
    var i :| 0 <= i < |s| && s[i] == x;
    assert (s + [x])[i] == (s + [x])[|s|];
  }

  /** Ten appends to an empty collection. */
  method AppendTen(c: Collection, records: seq<Record>)
    requires c.keys == [] && c.lastIndex == 0 && NamespaceKeys(c.items.items, c.prefix) == {}
    requires |records| == 10
    modifies c, c.items
    ensures c.keys == KeyRun(0, 10) && c.lastIndex == 10
    ensures NamespaceKeys(c.items.items, c.prefix) == Elems(KeyRun(0, 10))
  {
    for i := 0 to 10
      invariant c.keys == KeyRun(0, i) && c.lastIndex == i
      invariant NamespaceKeys(c.items.items, c.prefix) == Elems(KeyRun(0, i))
    {
      NamespaceAfterWrite(c.items.items, c.prefix, DecimalKey(i + 1), records[i]);
      c.Append(records[i]);
      assert Elems(KeyRun(0, i + 1)) == Elems(KeyRun(0, i)) + {DecimalKey(i + 1)};
    }
  }

  // ---------------------------------------------------------------------
  // The `!!` check against overlapping item prefixes

  /**
   * Two different names that pass the `!!` check have overlapping item
   * prefixes exactly when one is the other followed by a single "!".
   */
  lemma OverlapOnlyWithTrailingBang(a: string, b: string)
    requires a != b && !HasSeparator(a) && !HasSeparator(b)
    ensures Isolated(ItemPrefix(a), ItemPrefix(b)) <==> (b != a + "!" && a != b + "!")
  {
    if b == a + "!" {
      assert ItemPrefix(b)[..|ItemPrefix(a)|] == ItemPrefix(a);
    } else if a == b + "!" {
      assert ItemPrefix(a)[..|ItemPrefix(b)|] == ItemPrefix(b);
    } else {
      if IsPrefix(ItemPrefix(a), ItemPrefix(b)) {
        PrefixNeedsSeparator(a, b);
      }
      if IsPrefix(ItemPrefix(b), ItemPrefix(a)) {
        PrefixNeedsSeparator(b, a);
      }
    }
  }

  /** If `a + "!!"` starts `b + "!!"` then `b` is `a`, `a + "!"`, or contains "!!". */
  lemma PrefixNeedsSeparator(a: string, b: string)
    requires IsPrefix(ItemPrefix(a), ItemPrefix(b))
    ensures b == a || b == a + "!" || HasSeparator(b)
  {
    var p, q := ItemPrefix(a), ItemPrefix(b);
    assert q[..|p|] == p;
    if |b| == |a| {
      assert b == q[..|b|] == p[..|a|] == a;
    } else if |b| == |a| + 1 {
      assert b[..|a|] == q[..|a|] == p[..|a|] == a;
      assert b[|a|] == q[|a|] == p[|a|] == '!';
      assert b == b[..|a|] + [b[|a|]];
    } else {
      assert b[|a|] == q[|a|] == p[|a|] == '!';
      assert b[|a| + 1] == q[|a| + 1] == p[|a| + 1] == '!';
    }
  }

  /** "a" and "a!" both pass the check, yet "a!!" starts "a!!!". */
  lemma SeparatorCheckDoesNotIsolate()
    ensures !HasSeparator("a") && !HasSeparator("a!")
    ensures !Isolated(ItemPrefix("a"), ItemPrefix("a!"))
  {
    OverlapOnlyWithTrailingBang("a", "a!");
  }

  /**
   * One record appended to collection "a!" shows up in the namespace of "a"
   * under the key "!1", which `int(...)` rejects: "a!" loads, "a" no longer does.
   */
  lemma NeighbourBreaksLoad(db: DB, r: Record)
    requires db.items.items == map["a!!!1" := r]
    ensures db.LoadError("a!") == None
    ensures db.LoadError("a") == Some(BadKey)
  {
    var m := db.items.items;
    assert !HasSeparator("a") && !HasSeparator("a!");
    assert ItemPrefix("a!") == "a!!!" && ItemPrefix("a") == "a!!";
    assert "a!!!" + "1" == "a!!!1" && "a!!" + "!1" == "a!!!1";
    assert m.Keys == {"a!!!1"};
    SingleKeyNamespace(m, "a!!!", "1");
    SingleKeyNamespace(m, "a!!", "!1");
    assert ParseDecimal("1") == Some(1);
    assert ParseDecimal("!1") == None;
  }

  /**
   * When "a" has a record of its own, a record of "a!" does not stop it from
   * loading: "!" sorts before the digits, so the neighbour's record, seen
   * through "a" under the key "!1", is listed first and the counter still
   * parses from "1".
   */
  lemma NeighbourListedFirst(db: DB, mine: Record, theirs: Record)
    requires db.items.items == map["a!!1" := mine, "a!!!1" := theirs]
    ensures db.LoadError("a") == None
    ensures Scan(db.items.items, ItemPrefix("a")) == ["!1", "1"]
    ensures ItemPrefix("a") + "!1" == ItemPrefix("a!") + "1"
    ensures db.items.items[ItemPrefix("a") + "!1"] == theirs
  {
    var m := db.items.items;
    assert !HasSeparator("a");
    assert ItemPrefix("a") == "a!!" && ItemPrefix("a!") == "a!!!";
    assert "a!!" + "1" == "a!!1" && "a!!" + "!1" == "a!!!1" && "a!!!" + "1" == "a!!!1";
    assert m.Keys == {"a!!" + "!1", "a!!" + "1"};
    assert Less("!1", "1");
    TwoKeyNamespace(m, "a!!", "!1", "1");
    assert ParseDecimal("1") == Some(1);
  }

  /** A store holding exactly `p + k1` and `p + k2`, with `k1` below `k2`, shows `k1, k2` through the view of `p`. */
  lemma TwoKeyNamespace(m: map<string, Record>, p: string, k1: string, k2: string)
    requires m.Keys == {p + k1, p + k2} && Less(k1, k2)
    ensures NamespaceKeys(m, p) == {k1, k2} && Scan(m, p) == [k1, k2]
  {
    TwoKeyView(m, p, k1, k2);
    ChainSorted([k1, k2]);
    assert Elems([k1, k2]) == {k1, k2};
    SortedOfUnique({k1, k2}, [k1, k2]);
  }

  lemma TwoKeyView(m: map<string, Record>, p: string, k1: string, k2: string)
    requires m.Keys == {p + k1, p + k2}
    ensures NamespaceKeys(m, p) == {k1, k2}
  {
    forall x ensures x in NamespaceKeys(m, p) <==> x == k1 || x == k2 {
      InNamespace(m, p, x);
      if p + x == p + k1 {
        PrefixInjective(p, x, k1);
      }
      if p + x == p + k2 {
        PrefixInjective(p, x, k2);
      }
    }
  }

  /** Loading "a" beside a record of "a!" and reading `a[0]` gives the neighbour's record. */
  method NeighbourReadFirst(db: DB, mine: Record, theirs: Record) returns (r: Result<Record, Error>)
    requires db.items.items == map["a!!1" := mine, "a!!!1" := theirs]
    ensures r == Ok(theirs)
  {
    NeighbourListedFirst(db, mine, theirs);
    var loaded := Collection.Load(db, "a");
    var a := loaded.value;
    r := a.Get(0);
  }

  /** `delete_all()` on that "a" deletes the record of "a!" too. */
  method NeighbourDeletedWithA(db: DB, mine: Record, theirs: Record)
    requires db.items.items == map["a!!1" := mine, "a!!!1" := theirs]
    modifies db.items
    ensures db.items.items == map[]
  {
    NeighbourListedFirst(db, mine, theirs);
    var loaded := Collection.Load(db, "a");
    var a := loaded.value;
    a.DeleteAll();
    assert FullKeys(a.prefix, ["!1", "1"]) == {"a!!!1", "a!!1"};
    assert old(db.items.items).Keys == {"a!!!1", "a!!1"};
  }

  /** A store holding the single key `p + k` shows only `k` through the view of `p`. */
  lemma SingleKeyNamespace(m: map<string, Record>, p: string, k: string)
    requires m.Keys == {p + k}
    ensures NamespaceKeys(m, p) == {k} && Scan(m, p) == [k]
  {
    SortedOfUnique({k}, [k]);
    forall x ensures x in NamespaceKeys(m, p) <==> x == k {
      InNamespace(m, p, x);
      if p + x == p + k {
        PrefixInjective(p, x, k);
      }
    }
  }

  // ---------------------------------------------------------------------
  // random_subset sorts its selection in byte order

  /**
   * While the key list is in byte order, the sorted selection of
   * random_subset is the key list with the unselected keys dropped: the
   * records keep their relative order.
   */
  lemma SampleKeepsOrderWhenSorted(keys: seq<string>, chosen: seq<string>)
    requires StrictlySorted(keys) && Ordered(chosen) && multiset(chosen) <= multiset(keys)
    ensures chosen == Without(keys, Elems(keys) - Elems(chosen))
  {
    SortedIsDistinct(keys);
    DistinctCounts(keys);
    DistinctCounts(chosen);
    forall i, j | 0 <= i < j < |chosen| ensures Less(chosen[i], chosen[j]) {
      LessTotal(chosen[i], chosen[j]);
    }
    forall x | x in chosen ensures x in keys {
      assert multiset(chosen)[x] > 0;
    }
    var kept := Without(keys, Elems(keys) - Elems(chosen));
    WithoutSorted(keys, Elems(keys) - Elems(chosen));
    SortedUnique(chosen, kept);
  }

  /**
   * From ten appends on it does not: a sample of the keys "2" and "10"
   * (appended second and tenth) comes back as "10", "2".
   */
  lemma SampleAgainstAppendOrder(chosen: seq<string>)
    requires Ordered(chosen) && multiset(chosen) == multiset{DecimalKey(2), DecimalKey(10)}
    ensures chosen == [DecimalKey(10), DecimalKey(2)]
    ensures KeyRun(0, 10)[1] == DecimalKey(2) && KeyRun(0, 10)[9] == DecimalKey(10)
  {
    var two, ten := DecimalKey(2), DecimalKey(10);
    assert two == "2" && ten == "10";
    assert |chosen| == |multiset(chosen)| == 2;
    assert chosen[0] in multiset(chosen) && chosen[1] in multiset(chosen);
    assert multiset(chosen) == multiset{chosen[0], chosen[1]} by {
      assert chosen == [chosen[0], chosen[1]];
    }
    var first, second := chosen[0], chosen[1];
    assert Less(ten, two) && !Less(second, first);
    assert first == two ==> second == ten;
  }

  // ---------------------------------------------------------------------
  // collections() lists the cache in insertion order

  /**
   * With the markers "a" and "b" and only "b" cached, collections() appends
   * "a" after "b": the list it returns is not in name order.
   */
  lemma CollectionsInInsertionOrder()
    ensures ["b"] + Without(SortedOf({"a", "b"}), {"b"}) == ["b", "a"]
    ensures !Ordered(["b", "a"])
  {
    SortedPair();
    WithoutLast();
    var s := ["b", "a"];
    assert Less(s[1], s[0]);
  }

  /**
   * With the markers "a" and "b" and nothing stored, opening "b" and then
   * calling collections() lists "b" before "a".
   */
  method CollectionsAfterOpening(names: NameStore, items: ItemStore) returns (listed: seq<string>)
    requires names.names == {"a", "b"} && items.items == map[]
    ensures listed == ["b", "a"] && !Ordered(listed)
  {
    var db := new DB(names, items);
    EmptyNamespace(items.items);
    assert db.LoadError("a") == None && db.LoadError("b") == None;
    var first := db.GetCollection("b", false, false, false);
    assert db.order == ["b"] && db.cache.Keys == {"b"};
    CollectionsInInsertionOrder();
    var all := db.Collections();
    assert db.order == ["b", "a"];
    var cs := all.value;
    listed := [cs[0].name, cs[1].name];
  }

  /** Nothing is stored under any prefix of an empty store. */
  lemma EmptyNamespace(m: map<string, Record>)
    requires m == map[]
    ensures forall p :: Scan(m, p) == []
  {
    forall p ensures Scan(m, p) == [] {
      assert NamespaceKeys(m, p) == {};
    }
  }

  lemma SortedPair()
    ensures SortedOf({"a", "b"}) == ["a", "b"]
  {
    assert Less("a", "b");
    ChainSorted(["a", "b"]);
    SortedOfUnique({"a", "b"}, ["a", "b"]);
  }

  lemma WithoutLast()
    ensures Without(["a", "b"], {"b"}) == ["a"]
  {
    assert ["a", "b"][..1] == ["a"];
    assert Without(["a"], {"b"}) == ["a"];
  }
}
