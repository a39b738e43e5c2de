/**
 * The sorted key-value store underneath the directory: the "collections/"
 * namespace of existence markers and the "collection-items/" namespace of
 * records. A prefixed view is key concatenation; a scan lists the keys
 * below a prefix in ascending byte order.
 */
module Store {
  import opened KeyOrder
  import opened Keys
  import opened Records

  /** The "collections/" namespace: one marker per recorded collection name. */
  class NameStore {
    var names: set<string>

    constructor (names: set<string>)
      ensures this.names == names
    {
      this.names := names;
    }

    /** The namespace's key iterator: every recorded name, ascending. */
    method ScanNames() returns (ns: seq<string>)
      ensures ns == SortedOf(names)
    {
      ns := SortKeys(names);
    }
  }

  /** The "collection-items/" namespace, keyed by `name + "!!" + key`. */
  class ItemStore {
    var items: map<string, Record>

    constructor (items: map<string, Record>)
      ensures this.items == items
    {
      this.items := items;
    }

    /** The key iterator of the view prefixed by `p`: its keys, ascending. */
    method ScanKeys(p: string) returns (ks: seq<string>)
      ensures ks == Scan(items, p)
    {
      ks := SortKeys(NamespaceKeys(items, p));
    }
  }

  /** The keys visible through the view prefixed by `p`. */
  function NamespaceKeys(items: map<string, Record>, p: string): (ks: set<string>)
    ensures forall k :: k in ks ==> p + k in items
  {
    assert forall full :: full in items && IsPrefix(p, full) ==> p + full[|p|..] == full[..|p|] + full[|p|..] == full;
    set k | k in items && IsPrefix(p, k) :: k[|p|..]
  }

  lemma InNamespace(items: map<string, Record>, p: string, k: string)
    ensures k in NamespaceKeys(items, p) <==> p + k in items
  {
    if p + k in items {
      assert (p + k)[|p|..] == k;
    }
    if k in NamespaceKeys(items, p) {
      var full :| full in items && IsPrefix(p, full) && full[|p|..] == k;
      assert full == p + k;
    }
  }

  /** What the prefixed view's ascending key iterator yields. */
  ghost function Scan(items: map<string, Record>, p: string): (ks: seq<string>)
    ensures StrictlySorted(ks) && Elems(ks) == NamespaceKeys(items, p)
  {
    SortedOf(NamespaceKeys(items, p))
  }

  /** The full store keys of `ks` under prefix `p`. */
  function FullKeys(p: string, ks: seq<string>): set<string> {
    set k | k in ks :: p + k
  }

  predicate AllLive(items: map<string, Record>, p: string, ks: seq<string>) {
    forall k :: k in ks ==> p + k in items
  }

  /** The records stored at `ks` under prefix `p`, in list order. */
  function Values(items: map<string, Record>, p: string, ks: seq<string>): (rs: seq<Record>)
    requires AllLive(items, p, ks)
    ensures |rs| == |ks|
  {
    seq(|ks|, i requires 0 <= i < |ks| => items[p + ks[i]])
  }

  /** Two stores agree on every key outside the namespace of `p`. */
  ghost predicate SameOutside(before: map<string, Record>, after: map<string, Record>, p: string) {
    forall k :: !IsPrefix(p, k) ==> (k in before <==> k in after) && (k in before ==> before[k] == after[k])
  }

  /** A write confined to one namespace leaves every isolated namespace's records as they were. */
  lemma IsolatedValuesUnchanged(before: map<string, Record>, after: map<string, Record>, p: string, q: string, ks: seq<string>)
    requires SameOutside(before, after, q) && Isolated(p, q) && AllLive(before, p, ks)
    ensures AllLive(after, p, ks) && Values(after, p, ks) == Values(before, p, ks)
  {
    forall k | k in ks ensures p + k in after && after[p + k] == before[p + k] {
      IsolatedKeyOutside(p, q, k);
    }
  }

  lemma FullKeysUnderPrefix(p: string, ks: seq<string>, k: string)
    requires k in FullKeys(p, ks)
    ensures IsPrefix(p, k)
  {
    var x :| x in ks && k == p + x;
    assert k[..|p|] == p;
  }

  /** Deleting a set of keys of one namespace leaves the rest of the store as it was. */
  lemma RemovedUnderPrefix(before: map<string, Record>, p: string, ks: seq<string>)
    ensures SameOutside(before, before - FullKeys(p, ks), p)
  {
    forall k | !IsPrefix(p, k) ensures k !in FullKeys(p, ks) {
      if k in FullKeys(p, ks) {
        FullKeysUnderPrefix(p, ks, k);
      }
    }
  }

  /** A write under `p` changes nothing outside `p`. */
  lemma WrittenUnderPrefix(before: map<string, Record>, p: string, k: string, v: Record)
    ensures SameOutside(before, before[p + k := v], p)
  {
    assert (p + k)[..|p|] == p;
  }

  lemma SameOutsideTransitive(a: map<string, Record>, b: map<string, Record>, c: map<string, Record>, p: string)
    requires SameOutside(a, b, p) && SameOutside(b, c, p)
    ensures SameOutside(a, c, p)
  {
  }

  lemma PrefixInjective(p: string, a: string, b: string)
    requires p + a == p + b
    ensures a == b
  {
    assert a == (p + a)[|p|..] && b == (p + b)[|p|..];
  }

  /** The store after appending `rs` under `p` with the counter at `last`: `rs[j]` goes to the key `str(last + j + 1)`. */
  function Appended(m: map<string, Record>, p: string, last: nat, rs: seq<Record>): map<string, Record>
    decreases |rs|
  {
    if rs == [] then m
    else Appended(m, p, last, rs[..|rs| - 1])[p + DecimalKey(last + |rs|) := rs[|rs| - 1]]
  }

  /** One more append: the `j`-th record goes under the key `str(last + j + 1)`. */
  lemma AppendedStep(m: map<string, Record>, p: string, last: nat, rs: seq<Record>, j: nat)
    requires j < |rs|
    ensures Appended(m, p, last, rs[..j + 1]) == Appended(m, p, last, rs[..j])[p + DecimalKey(last + j + 1) := rs[j]]
  {
    assert rs[..j + 1][..j] == rs[..j];
  }

  /**
   * Appending adds exactly the keys of the run and leaves every other key's
   * record as it was.
   */
  lemma {:induction false} AppendedHolds(m: map<string, Record>, p: string, last: nat, rs: seq<Record>)
    ensures Appended(m, p, last, rs).Keys == m.Keys + FullKeys(p, KeyRun(last, |rs|))
    ensures forall k :: k in m && k !in FullKeys(p, KeyRun(last, |rs|)) ==> Appended(m, p, last, rs)[k] == m[k]
    decreases |rs|
  {
    var n := |rs|;
    if n > 0 {
      AppendedHolds(m, p, last, rs[..n - 1]);
      var ks, key := KeyRun(last, n - 1), DecimalKey(last + n);
      assert FullKeys(p, ks + [key]) == FullKeys(p, ks) + {p + key};
    }
  }

  /** The `j`-th appended record sits under its own key: no later append of the run overwrites it. */
  lemma {:induction false} AppendedAt(m: map<string, Record>, p: string, last: nat, rs: seq<Record>, j: nat)
    requires j < |rs|
    ensures p + DecimalKey(last + j + 1) in Appended(m, p, last, rs)
    ensures Appended(m, p, last, rs)[p + DecimalKey(last + j + 1)] == rs[j]
    decreases |rs|
  {
    var n := |rs|;
    if j < n - 1 {
      AppendedAt(m, p, last, rs[..n - 1], j);
      if p + DecimalKey(last + j + 1) == p + DecimalKey(last + n) {
        PrefixInjective(p, DecimalKey(last + j + 1), DecimalKey(last + n));
        DecimalKeyInjective(last + j + 1, last + n);
      }
    }
  }

  /** Storing a new key at the end of the list appends its record. */
  lemma ValuesAppend(items: map<string, Record>, p: string, ks: seq<string>, k: string, v: Record)
    requires AllLive(items, p, ks) && k !in ks
    ensures AllLive(items[p + k := v], p, ks + [k])
    ensures Values(items[p + k := v], p, ks + [k]) == Values(items, p, ks) + [v]
  {
    var after := items[p + k := v];
    forall x | x in ks ensures p + x != p + k && p + x in after {
      if p + x == p + k {
        PrefixInjective(p, x, k);
      }
    }
    var a, b := Values(after, p, ks + [k]), Values(items, p, ks) + [v];
    assert forall i :: 0 <= i < |ks| ==> (ks + [k])[i] == ks[i];
    assert forall i :: 0 <= i < |a| ==> a[i] == b[i];
  }

  /** Deleting the key at position `i` removes exactly that record. */
  lemma ValuesRemove(items: map<string, Record>, p: string, ks: seq<string>, i: nat)
    requires AllLive(items, p, ks) && KeyOrder.Distinct(ks) && i < |ks|
    ensures AllLive(items - {p + ks[i]}, p, ks[..i] + ks[i + 1..])
    ensures KeyOrder.Distinct(ks[..i] + ks[i + 1..])
    ensures Values(items - {p + ks[i]}, p, ks[..i] + ks[i + 1..]) == Values(items, p, ks)[..i] + Values(items, p, ks)[i + 1..]
  {
    var rest := ks[..i] + ks[i + 1..];
    assert forall j :: 0 <= j < |rest| ==> rest[j] == if j < i then ks[j] else ks[j + 1];
    forall j | 0 <= j < |rest| ensures p + rest[j] != p + ks[i] {
      if p + rest[j] == p + ks[i] {
        PrefixInjective(p, rest[j], ks[i]);
      }
    }
    var a, b := Values(items - {p + ks[i]}, p, rest), Values(items, p, ks)[..i] + Values(items, p, ks)[i + 1..];
    assert forall j :: 0 <= j < |a| ==> a[j] == b[j];
  }

  /** Overwriting the record of the key at position `i` replaces that record only. */
  lemma ValuesUpdate(items: map<string, Record>, p: string, ks: seq<string>, i: nat, v: Record)
    requires AllLive(items, p, ks) && KeyOrder.Distinct(ks) && i < |ks|
    ensures AllLive(items[p + ks[i] := v], p, ks)
    ensures Values(items[p + ks[i] := v], p, ks) == Values(items, p, ks)[i := v]
  {
    forall j | 0 <= j < |ks| && j != i ensures p + ks[j] != p + ks[i] {
      if p + ks[j] == p + ks[i] {
        PrefixInjective(p, ks[j], ks[i]);
      }
    }
    var a, b := Values(items[p + ks[i] := v], p, ks), Values(items, p, ks)[i := v];
    assert forall j :: 0 <= j < |a| ==> a[j] == b[j];
  }

  /** The records of a slice of a key list are that slice of its records. */
  lemma ValuesSlice(items: map<string, Record>, p: string, ks: seq<string>, lo: nat, hi: nat)
    requires AllLive(items, p, ks) && lo <= hi <= |ks|
    ensures AllLive(items, p, ks[lo..hi])
    ensures Values(items, p, ks[lo..hi]) == Values(items, p, ks)[lo..hi]
  {
    var a, b := Values(items, p, ks[lo..hi]), Values(items, p, ks)[lo..hi];
    assert forall j :: 0 <= j < |a| ==> a[j] == b[j];
  }

  /** One step of an in-place map: rewriting the `i`-th record extends the mapped prefix by one. */
  lemma MapValuesStep(items: map<string, Record>, p: string, ks: seq<string>, i: nat, f: Record -> Record, rs: seq<Record>)
    requires AllLive(items, p, ks) && KeyOrder.Distinct(ks) && i < |ks| && |rs| == |ks|
    requires Values(items, p, ks) == MapRecords(f, rs[..i]) + rs[i..]
    ensures items[p + ks[i]] == rs[i]
    ensures AllLive(items[p + ks[i] := f(rs[i])], p, ks)
    ensures Values(items[p + ks[i] := f(rs[i])], p, ks) == MapRecords(f, rs[..i + 1]) + rs[i + 1..]
  {
    assert Values(items, p, ks)[i] == items[p + ks[i]];
    assert (MapRecords(f, rs[..i]) + rs[i..])[i] == rs[i];
    ValuesUpdate(items, p, ks, i, f(rs[i]));
    MapStep(f, rs, i);
  }

  /** The keys of `ks` whose records satisfy `pred`, in list order. */
  function KeptKeys(items: map<string, Record>, p: string, ks: seq<string>, pred: Record -> bool): (r: seq<string>)
    requires AllLive(items, p, ks)
    decreases |ks|
  {
    if ks == [] then []
    else
      var last := ks[|ks| - 1];
      KeptKeys(items, p, ks[..|ks| - 1], pred) + (if pred(items[p + last]) then [last] else [])
  }

  /** The full store keys of the keys of `ks` whose records fail `pred`. */
  function Dropped(items: map<string, Record>, p: string, ks: seq<string>, pred: Record -> bool): set<string>
    requires AllLive(items, p, ks)
  {
    set k | k in ks && !pred(items[p + k]) :: p + k
  }

  /** A key is kept exactly when it is listed and its record satisfies `pred`. */
  lemma {:induction false} KeptKeysMembership(items: map<string, Record>, p: string, ks: seq<string>, pred: Record -> bool, k: string)
    requires AllLive(items, p, ks)
    ensures k in KeptKeys(items, p, ks, pred) <==> k in ks && pred(items[p + k])
    decreases |ks|
  {
    if ks != [] {
      var init := ks[..|ks| - 1];
      KeptKeysMembership(items, p, init, pred, k);
      assert ks == init + [ks[|ks| - 1]];
    }
  }

  lemma {:induction false} KeptKeysDistinct(items: map<string, Record>, p: string, ks: seq<string>, pred: Record -> bool)
    requires AllLive(items, p, ks) && KeyOrder.Distinct(ks)
    ensures KeyOrder.Distinct(KeptKeys(items, p, ks, pred))
    decreases |ks|
  {
    if ks != [] {
      var init := ks[..|ks| - 1];
      var last := ks[|ks| - 1];
      KeptKeysDistinct(items, p, init, pred);
      KeptKeysMembership(items, p, init, pred, last);
      assert last !in init;
    }
  }

  /** The kept keys hold, in order, the records of `ks` that satisfy `pred`. */
  lemma {:induction false} KeptKeysValues(items: map<string, Record>, p: string, ks: seq<string>, pred: Record -> bool)
    requires AllLive(items, p, ks)
    ensures AllLive(items, p, KeptKeys(items, p, ks, pred))
    ensures Values(items, p, KeptKeys(items, p, ks, pred)) == FilterRecords(pred, Values(items, p, ks))
    decreases |ks|
  {
    forall k | k in KeptKeys(items, p, ks, pred) ensures p + k in items {
      KeptKeysMembership(items, p, ks, pred, k);
    }
    if ks != [] {
      var init := ks[..|ks| - 1];
      var last := ks[|ks| - 1];
      KeptKeysValues(items, p, init, pred);
      assert ks == init + [last];
      ValuesConcat(items, p, init, [last]);
      assert Values(items, p, [last]) == [items[p + last]];
      FilterRecordsAppend(pred, Values(items, p, init), [items[p + last]]);
      var tail := if pred(items[p + last]) then [last] else [];
      assert KeptKeys(items, p, ks, pred) == KeptKeys(items, p, init, pred) + tail;
      assert Values(items, p, tail) == FilterRecords(pred, [items[p + last]]);
      ValuesConcat(items, p, KeptKeys(items, p, init, pred), tail);
    }
  }

  /** The records of two key lists, concatenated, are the records of their concatenation. */
  lemma ValuesConcat(items: map<string, Record>, p: string, a: seq<string>, b: seq<string>)
    requires AllLive(items, p, a) && AllLive(items, p, b)
    ensures AllLive(items, p, a + b)
    ensures Values(items, p, a + b) == Values(items, p, a) + Values(items, p, b)
  {
    var x, y := Values(items, p, a + b), Values(items, p, a) + Values(items, p, b);
    assert forall j :: 0 <= j < |x| ==> x[j] == y[j];
  }

  /** Deleting the dropped keys leaves the records of the kept keys in place. */
  lemma KeptKeysSurvive(items: map<string, Record>, p: string, ks: seq<string>, pred: Record -> bool)
    requires AllLive(items, p, ks)
    ensures AllLive(items - Dropped(items, p, ks, pred), p, KeptKeys(items, p, ks, pred))
    ensures Values(items - Dropped(items, p, ks, pred), p, KeptKeys(items, p, ks, pred))
         == Values(items, p, KeptKeys(items, p, ks, pred))
  {
    var kept := KeptKeys(items, p, ks, pred);
    var dropped := Dropped(items, p, ks, pred);
    forall k | k in kept ensures p + k !in dropped {
      KeptKeysMembership(items, p, ks, pred, k);
    }
  }

  /** One more position of an in-place filter: the key is still present, and kept or dropped by its record. */
  lemma FilterStep(items: map<string, Record>, p: string, ks: seq<string>, i: nat, pred: Record -> bool)
    requires AllLive(items, p, ks) && KeyOrder.Distinct(ks) && i < |ks|
    ensures AllLive(items, p, ks[..i]) && AllLive(items, p, ks[..i + 1])
    ensures p + ks[i] in items - Dropped(items, p, ks[..i], pred)
    ensures pred(items[p + ks[i]]) ==>
              && KeptKeys(items, p, ks[..i + 1], pred) == KeptKeys(items, p, ks[..i], pred) + [ks[i]]
              && Dropped(items, p, ks[..i + 1], pred) == Dropped(items, p, ks[..i], pred)
    ensures !pred(items[p + ks[i]]) ==>
              && KeptKeys(items, p, ks[..i + 1], pred) == KeptKeys(items, p, ks[..i], pred)
              && Dropped(items, p, ks[..i + 1], pred) == Dropped(items, p, ks[..i], pred) + {p + ks[i]}
  {
    var init, k := ks[..i], ks[i];
    assert ks[..i + 1] == init + [k];
    assert ks[..i + 1][..i] == init;
    if p + k in Dropped(items, p, init, pred) {
      var x :| x in init && !pred(items[p + x]) && p + k == p + x;
      PrefixInjective(p, k, x);
    }
    var kept := KeptKeys(items, p, init, pred);
    assert kept + [] == kept;
  }

  /** Two stores that agree on the records of `ks` give them the same values. */
  lemma ValuesAgree(before: map<string, Record>, after: map<string, Record>, p: string, ks: seq<string>)
    requires AllLive(before, p, ks)
    requires forall k :: k in ks ==> p + k in after && after[p + k] == before[p + k]
    ensures AllLive(after, p, ks) && Values(after, p, ks) == Values(before, p, ks)
  {
  }

  /**
   * Deleting the keys of a duplicate-free list from position `cut` on leaves
   * the records of the keys before `cut` in place.
   */
  lemma KeepsHead(items: map<string, Record>, p: string, s: seq<string>, cut: nat)
    requires KeyOrder.Distinct(s) && cut <= |s|
    ensures forall k :: k in s[..cut] && p + k in items ==>
              p + k in items - FullKeys(p, s[cut..]) && (items - FullKeys(p, s[cut..]))[p + k] == items[p + k]
  {
    forall k | k in s[..cut] ensures p + k !in FullKeys(p, s[cut..]) {
      if p + k in FullKeys(p, s[cut..]) {
        var x :| x in s[cut..] && p + k == p + x;
        PrefixInjective(p, k, x);
      }
    }
  }
}
