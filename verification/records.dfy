/**
 * Records, errors, and the sequence-level meaning of the bulk operators:
 * map, filter and the left fold behind `reduce`, plus Python's rules for
 * list indices and slices that positional access follows.
 */
module Records {
  import opened Wrappers

  /** A JSON value; the codec stores it and gives it back unchanged. */
  datatype Record =
    | Null
    | Bool(b: bool)
    | Number(n: int)
    | Text(s: string)
    | List(elements: seq<Record>)
    | Object(fields: map<string, Record>)

  datatype Error =
    | NotFound         // collection absent and create_if_missing is false
    | AlreadyExists    // collection cached and error_if_exists is true
    | InvalidName      // '!!' in a collection name
    | IndexOutOfRange  // positional get, set or delete outside the list
    | EmptyReduction   // reduce of an empty collection with no initializer
    | BadKey           // `int(...)` of a stored key that is not a number
    | MissingRecord    // a listed key with no value in the store

  function MapRecords(f: Record -> Record, rs: seq<Record>): (r: seq<Record>)
    ensures |r| == |rs|
    ensures forall i :: 0 <= i < |rs| ==> r[i] == f(rs[i])
    decreases |rs|
  {
    if rs == [] then [] else [f(rs[0])] + MapRecords(f, rs[1..])
  }

  lemma MapRecordsSnoc(f: Record -> Record, rs: seq<Record>, x: Record)
    ensures MapRecords(f, rs + [x]) == MapRecords(f, rs) + [f(x)]
  {
    var a, b := MapRecords(f, rs + [x]), MapRecords(f, rs) + [f(x)];
    assert forall i :: 0 <= i < |a| ==> a[i] == b[i];
  }

  /** The records of `rs` that satisfy `p`, in their original order. */
  function FilterRecords(p: Record -> bool, rs: seq<Record>): (r: seq<Record>)
    ensures |r| <= |rs|
    ensures forall x :: x in r ==> x in rs && p(x)
    decreases |rs|
  {
    if rs == [] then []
    else if p(rs[0]) then [rs[0]] + FilterRecords(p, rs[1..])
    else FilterRecords(p, rs[1..])
  }

  /** Filtering distributes over concatenation, so it can be done one record at a time. */
  lemma {:induction false} FilterRecordsAppend(p: Record -> bool, a: seq<Record>, b: seq<Record>)
    ensures FilterRecords(p, a + b) == FilterRecords(p, a) + FilterRecords(p, b)
    decreases |a|
  {
    if a == [] {
      assert a + b == b;
    } else {
      assert (a + b)[1..] == a[1..] + b;
      FilterRecordsAppend(p, a[1..], b);
    }
  }

  /** Every record that satisfies `p` is kept. */
  lemma {:induction false} FilterRecordsKeeps(p: Record -> bool, rs: seq<Record>, x: Record)
    requires x in rs && p(x)
    ensures x in FilterRecords(p, rs)
    decreases |rs|
  {
    if rs[0] != x {
      FilterRecordsKeeps(p, rs[1..], x);
    }
  }

  /** `a` is `b` with some elements left out, the rest in their order. */
  predicate IsSubsequence<T(==)>(a: seq<T>, b: seq<T>)
    decreases |b|
  {
    if a == [] then true
    else if b == [] then false
    else if a[0] == b[0] then IsSubsequence(a[1..], b[1..])
    else IsSubsequence(a, b[1..])
  }

  lemma {:induction false} FilterRecordsIsSubsequence(p: Record -> bool, rs: seq<Record>)
    ensures IsSubsequence(FilterRecords(p, rs), rs)
    decreases |rs|
  {
    if rs != [] {
      FilterRecordsIsSubsequence(p, rs[1..]);
      var r := FilterRecords(p, rs[1..]);
      if !p(rs[0]) && r != [] {
        SubsequenceOfTail(r, rs);
      }
    }
  }

  lemma {:induction false} SubsequenceOfTail<T>(a: seq<T>, b: seq<T>)
    requires b != [] && IsSubsequence(a, b[1..])
    ensures IsSubsequence(a, b)
    decreases |a| + |b|
  {
    if a != [] && a[0] == b[0] {
      SubsequenceDropHead(a, b[1..]);
    }
  }

  lemma {:induction false} SubsequenceDropHead<T>(a: seq<T>, c: seq<T>)
    requires a != [] && IsSubsequence(a, c)
    ensures IsSubsequence(a[1..], c)
    decreases |a| + |c|
  {
    if a[0] == c[0] {
      SubsequenceOfTail(a[1..], c);
    } else {
      SubsequenceDropHead(a, c[1..]);
      SubsequenceOfTail(a[1..], c);
    }
  }

  /** The identity record transformation (a filter appends records as they are). */
  function Same(x: Record): Record { x }

  /** The predicate that keeps every record (a map or a copy appends all of them). */
  predicate KeepAll(x: Record) { true }

  /** Mapping after filtering, one more record at a time: what an append loop produces. */
  lemma MapFilterSnoc(f: Record -> Record, p: Record -> bool, rs: seq<Record>, x: Record)
    ensures MapRecords(f, FilterRecords(p, rs + [x]))
         == MapRecords(f, FilterRecords(p, rs)) + (if p(x) then [f(x)] else [])
  {
    FilterRecordsAppend(p, rs, [x]);
    assert FilterRecords(p, [x]) == if p(x) then [x] else [];
    if p(x) {
      MapRecordsSnoc(f, FilterRecords(p, rs), x);
    } else {
      assert FilterRecords(p, rs) + [] == FilterRecords(p, rs);
    }
  }

  /** `MapFilterSnoc` on the prefixes of one list. */
  lemma MapFilterPrefix(f: Record -> Record, p: Record -> bool, rs: seq<Record>, i: nat)
    requires i < |rs|
    ensures p(rs[i]) ==> MapRecords(f, FilterRecords(p, rs[..i + 1])) == MapRecords(f, FilterRecords(p, rs[..i])) + [f(rs[i])]
    ensures !p(rs[i]) ==> MapRecords(f, FilterRecords(p, rs[..i + 1])) == MapRecords(f, FilterRecords(p, rs[..i]))
  {
    assert rs[..i + 1] == rs[..i] + [rs[i]];
    MapFilterSnoc(f, p, rs[..i], rs[i]);
    var done := MapRecords(f, FilterRecords(p, rs[..i]));
    assert done + [] == done;
  }

  /** One more position of an in-place map: the first `i` records mapped, the rest as they were. */
  lemma MapStep(f: Record -> Record, rs: seq<Record>, i: nat)
    requires i < |rs|
    ensures (MapRecords(f, rs[..i]) + rs[i..])[i := f(rs[i])] == MapRecords(f, rs[..i + 1]) + rs[i + 1..]
  {
    var a, b := (MapRecords(f, rs[..i]) + rs[i..])[i := f(rs[i])], MapRecords(f, rs[..i + 1]) + rs[i + 1..];
    assert |a| == |b|;
    forall j | 0 <= j < |a| ensures a[j] == b[j] {
      if j < i {
        assert a[j] == MapRecords(f, rs[..i])[j] == f(rs[j]);
      } else if j > i {
        assert a[j] == rs[j];
      }
    }
  }

  lemma {:induction false} FilterRecordsKeepAll(rs: seq<Record>)
    ensures FilterRecords(KeepAll, rs) == rs
    decreases |rs|
  {
    if rs != [] {
      FilterRecordsKeepAll(rs[1..]);
      assert rs == [rs[0]] + rs[1..];
    }
  }

  lemma MapRecordsSame(rs: seq<Record>)
    ensures MapRecords(Same, rs) == rs
  {
  }

  /** Left fold: `g(...g(g(acc, rs[0]), rs[1])..., rs[|rs|-1])`. */
  function FoldLeft(g: (Record, Record) -> Record, acc: Record, rs: seq<Record>): (r: Record)
    // `functools.reduce` consumes the records from the front
    ensures rs != [] ==> r == FoldLeft(g, g(acc, rs[0]), rs[1..])
    decreases |rs|
  {
    if rs == [] then acc
    else
      var init, tail := rs[..|rs| - 1], rs[1..];
      assert init != [] ==> init[0] == rs[0] && init[1..] == tail[..|tail| - 1] && tail[|tail| - 1] == rs[|rs| - 1];
      g(FoldLeft(g, acc, init), rs[|rs| - 1])
  }

  /** Folding a concatenation folds the second part from the first part's result. */
  lemma {:induction false} FoldLeftAppend(g: (Record, Record) -> Record, acc: Record, a: seq<Record>, b: seq<Record>)
    ensures FoldLeft(g, acc, a + b) == FoldLeft(g, FoldLeft(g, acc, a), b)
    decreases |b|
  {
    if b == [] {
      assert a + b == a;
    } else {
      assert (a + b)[..|a + b| - 1] == a + b[..|b| - 1];
      FoldLeftAppend(g, acc, a, b[..|b| - 1]);
    }
  }

  /**
   * `functools.reduce` as DB.py calls it: with `initializer` as seed when it
   * is not None (here Null), else seeded with the first record; an empty
   * collection with no initializer is an error.
   */
  function Reduced(g: (Record, Record) -> Record, rs: seq<Record>, initializer: Record): (r: Result<Record, Error>)
    ensures r.Err? ==> r == Err(EmptyReduction)
    ensures rs == [] && initializer != Null ==> r == Ok(initializer)
    ensures |rs| == 1 && initializer == Null ==> r == Ok(rs[0])
  {
    if initializer != Null then Ok(FoldLeft(g, initializer, rs))
    else if rs == [] then Err(EmptyReduction)
    else Ok(FoldLeft(g, rs[0], rs[1..]))
  }

  /** Without an initializer, reduce equals a reduce seeded with the first record over the rest. */
  lemma ReducedFirstAsSeed(g: (Record, Record) -> Record, rs: seq<Record>)
    requires rs != [] && rs[0] != Null
    ensures Reduced(g, rs, Null) == Reduced(g, rs[1..], rs[0])
  {
  }

  /** The error case of reduce is exactly an empty collection with no initializer. */
  lemma ReducedFailsOnlyWhenEmpty(g: (Record, Record) -> Record, rs: seq<Record>, initializer: Record)
    ensures Reduced(g, rs, initializer).Err? <==> rs == [] && initializer == Null
  {
  }

  /** Python list indexing: `i` is valid in `-len <= i < len`, negatives count from the end. */
  function IndexOf(len: nat, i: int): (r: Option<nat>)
    ensures r.Some? <==> -(len as int) <= i < len
    ensures r.Some? ==> r.value < len && r.value as int - i in {0, len as int}
  {
    if 0 <= i < len then Some(i) else if -(len as int) <= i < 0 then Some(len + i) else None
  }

  /** One bound of a Python slice `[start:end]` over a list of length `len`. */
  function SliceBound(len: nat, b: Option<int>, default: nat): (r: nat)
    requires default <= len
    ensures r <= len
    ensures b.Some? && b.value >= 0 ==> r == if b.value < len then b.value else len
  {
    match b
    case None => default
    case Some(x) =>
      if x < 0 then (if len + x < 0 then 0 else len + x)
      else if x < len then x else len
  }

  /** The positions `lo..hi` that `list[start:end]` selects. */
  function SliceBounds(len: nat, start: Option<int>, end: Option<int>): (r: (nat, nat))
    ensures r.0 <= r.1 <= len
  {
    var lo := SliceBound(len, start, 0);
    var hi := SliceBound(len, end, len);
    if hi < lo then (lo, lo) else (lo, hi)
  }
}
