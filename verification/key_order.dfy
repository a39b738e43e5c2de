/**
 * Ascending byte order of store keys, and sorted key lists.
 * The store's forward iterator yields keys in this order; `list.sort` on the
 * key list of a collection uses it too.
 */
module KeyOrder {

  /** Strict lexicographic order, character by character (byte order on ASCII keys). */
  predicate Less(a: string, b: string)
    decreases |a|
  {
    if |b| == 0 then false
    else if |a| == 0 then true
    else if a[0] != b[0] then a[0] < b[0]
    else Less(a[1..], b[1..])
  }

  lemma {:induction false} LessIrreflexive(a: string)
    ensures !Less(a, a)
    decreases |a|
  {
    if |a| > 0 {
      LessIrreflexive(a[1..]);
    }
  }

  lemma {:induction false} LessTransitive(a: string, b: string, c: string)
    requires Less(a, b) && Less(b, c)
    ensures Less(a, c)
    decreases |a|
  {
    if |a| > 0 && a[0] == b[0] && b[0] == c[0] {
      LessTransitive(a[1..], b[1..], c[1..]);
    }
  }

  lemma {:induction false} LessTotal(a: string, b: string)
    requires a != b
    ensures Less(a, b) || Less(b, a)
    decreases |a|
  {
    if |a| > 0 && |b| > 0 && a[0] == b[0] {
      assert a == [a[0]] + a[1..] && b == [b[0]] + b[1..];
      LessTotal(a[1..], b[1..]);
    }
  }

  /** A proper prefix sorts before every extension of it. */
  lemma {:induction false} LessPrefix(a: string, b: string)
    requires |a| < |b| && b[..|a|] == a
    ensures Less(a, b)
    decreases |a|
  {
    if |a| > 0 {
      assert b[1..][..|a| - 1] == a[1..];
      LessPrefix(a[1..], b[1..]);
    }
  }

  lemma LessAsymmetric(a: string, b: string)
    requires Less(a, b)
    ensures !Less(b, a)
  {
    if Less(b, a) {
      LessTransitive(a, b, a);
      LessIrreflexive(a);
    }
  }

  predicate Distinct<T(==)>(s: seq<T>) {
    forall i, j :: 0 <= i < j < |s| ==> s[i] != s[j]
  }

  function Elems<T>(s: seq<T>): set<T> {
    set x | x in s
  }

  ghost predicate StrictlySorted(s: seq<string>) {
    forall i, j :: 0 <= i < j < |s| ==> Less(s[i], s[j])
  }

  /** A list of pairwise distinct elements has as many elements as its set. */
  lemma {:induction false} DistinctCardinality<T>(s: seq<T>)
    requires Distinct(s)
    ensures |Elems(s)| == |s|
  {
    if s != [] {
      DistinctCardinality(s[1..]);
      assert Elems(s) == Elems(s[1..]) + {s[0]};
      assert s[0] !in Elems(s[1..]);
    }
  }

  lemma SortedIsDistinct(s: seq<string>)
    requires StrictlySorted(s)
    ensures Distinct(s)
  {
    forall i, j | 0 <= i < j < |s| ensures s[i] != s[j] {
      if s[i] == s[j] {
        LessIrreflexive(s[i]);
      }
    }
  }

  /** A list whose neighbours are in order is strictly sorted. */
  lemma {:induction false} ChainSorted(s: seq<string>)
    requires forall i :: 0 <= i < |s| - 1 ==> Less(s[i], s[i + 1])
    ensures StrictlySorted(s)
  {
    if |s| > 1 {
      ChainSorted(s[1..]);
      forall j | 1 <= j < |s| ensures Less(s[0], s[j]) {
        if j > 1 {
          assert Less(s[1..][0], s[1..][j - 1]);
          LessTransitive(s[0], s[1], s[j]);
        }
      }
      forall i, j | 0 <= i < j < |s| ensures Less(s[i], s[j]) {
        if i > 0 {
          assert Less(s[1..][i - 1], s[1..][j - 1]);
        }
      }
    }
  }

  predicate IsLeast(m: string, s: set<string>) {
    m in s && forall x :: x in s && x != m ==> Less(m, x)
  }

  lemma {:induction false} LeastExists(s: set<string>)
    requires s != {}
    ensures exists m :: IsLeast(m, s)
    decreases |s|
  {
    var x :| x in s;
    if s == {x} {
      assert IsLeast(x, s);
    } else {
      var rest := s - {x};
      LeastExists(rest);
      var m :| IsLeast(m, rest);
      if Less(m, x) {
        assert IsLeast(m, s);
      } else {
        LessTotal(m, x);
        forall y | y in s && y != x ensures Less(x, y) {
          if y != m {
            LessTransitive(x, m, y);
          }
        }
        assert IsLeast(x, s);
      }
    }
  }

  lemma LeastUnique(m1: string, m2: string, s: set<string>)
    requires IsLeast(m1, s) && IsLeast(m2, s)
    ensures m1 == m2
  {
    if m1 != m2 {
      LessAsymmetric(m1, m2);
    }
  }

  ghost function Least(s: set<string>): (m: string)
    requires s != {}
    ensures IsLeast(m, s)
  {
    LeastExists(s);
    var m :| IsLeast(m, s); m
  }

  /** The elements of `s` listed in ascending byte order. */
  ghost function SortedOf(s: set<string>): (r: seq<string>)
    ensures StrictlySorted(r) && Elems(r) == s && |r| == |s|
    decreases |s|
  {
    if s == {} then []
    else
      var m := Least(s);
      var rest := SortedOf(s - {m});
      assert forall x :: x in rest ==> x in Elems(rest);
      ConsSorted(m, rest);
      assert Elems([m] + rest) == {m} + Elems(rest);
      [m] + rest
  }

  lemma ConsSorted(m: string, rest: seq<string>)
    requires StrictlySorted(rest)
    requires forall x :: x in rest ==> Less(m, x)
    ensures StrictlySorted([m] + rest)
  {
    var r := [m] + rest;
    forall i, j | 0 <= i < j < |r| ensures Less(r[i], r[j]) {
      if i == 0 {
        assert r[j] == rest[j - 1];
      } else {
        assert r[i] == rest[i - 1] && r[j] == rest[j - 1];
      }
    }
  }

  /** SortedOf starts with the least element. */
  lemma SortedOfLeast(s: set<string>, m: string)
    requires IsLeast(m, s)
    ensures SortedOf(s) == [m] + SortedOf(s - {m})
  {
    LeastUnique(m, Least(s), s);
  }

  /** A strictly sorted list is determined by its set of elements. */
  lemma {:induction false} SortedUnique(a: seq<string>, b: seq<string>)
    requires StrictlySorted(a) && StrictlySorted(b) && Elems(a) == Elems(b)
    ensures a == b
    decreases |a|
  {
    SortedIsDistinct(a);
    SortedIsDistinct(b);
    DistinctCardinality(a);
    DistinctCardinality(b);
    if a != [] {
      assert IsLeast(a[0], Elems(a));
      assert IsLeast(b[0], Elems(b));
      LeastUnique(a[0], b[0], Elems(a));
      assert Elems(a[1..]) == Elems(a) - {a[0]};
      assert Elems(b[1..]) == Elems(b) - {b[0]};
      SortedUnique(a[1..], b[1..]);
      assert a == [a[0]] + a[1..] && b == [b[0]] + b[1..];
    }
  }

  /** Any strictly sorted list of the elements of `s` is SortedOf(s). */
  lemma SortedOfUnique(s: set<string>, r: seq<string>)
    requires StrictlySorted(r) && Elems(r) == s
    ensures SortedOf(s) == r
  {
    SortedUnique(SortedOf(s), r);
  }

  /**
   * Sorts a set of keys by repeatedly taking the least remaining one, as the
   * store's ascending iterator and `list.sort` on a duplicate-free list do.
   */
  method SortKeys(s: set<string>) returns (r: seq<string>)
    ensures r == SortedOf(s)
  {
    r := [];
    var rest := s;
    while rest != {}
      invariant rest <= s
      invariant r + SortedOf(rest) == SortedOf(s)
      decreases |rest|
    {
      LeastExists(rest);
      var m :| IsLeast(m, rest);
      SortedOfLeast(rest, m);
      ConcatAssociative(r, [m], SortedOf(rest - {m}));
      r := r + [m];
      rest := rest - {m};
    }
  }

  lemma DistinctSnoc<T>(s: seq<T>, x: T)
    requires Distinct(s) && x !in s
    ensures Distinct(s + [x])
  {
  }

  /** `ns` without the elements of `s`, in the same order. */
  function Without(ns: seq<string>, s: set<string>): (r: seq<string>)
    ensures Elems(r) == Elems(ns) - s
    ensures Distinct(ns) ==> Distinct(r)
    decreases |ns|
  {
    if ns == [] then []
    else
      var init, last := ns[..|ns| - 1], ns[|ns| - 1];
      assert Elems(ns) == Elems(init) + {last};
      assert Distinct(ns) ==> Distinct(init) && last !in init;
      var rest, tail := Without(init, s), if last in s then [] else [last];
      assert Elems(rest + tail) == Elems(rest) + Elems(tail);
      assert last in rest ==> last in Elems(rest) && last in Elems(init);
      if Distinct(ns) && tail != [] then DistinctSnoc(rest, last); rest + tail else rest + tail
  }

  /** Dropping elements from a strictly sorted list keeps it strictly sorted. */
  lemma {:induction false} WithoutSorted(ns: seq<string>, s: set<string>)
    requires StrictlySorted(ns)
    ensures StrictlySorted(Without(ns, s))
    decreases |ns|
  {
    if ns != [] {
      var init, last := ns[..|ns| - 1], ns[|ns| - 1];
      var rest := Without(init, s);
      WithoutSorted(init, s);
      if last !in s {
        var r := rest + [last];
        forall i, j | 0 <= i < j < |r| ensures Less(r[i], r[j]) {
          if j == |rest| {
            assert r[i] in Elems(rest) && r[i] in Elems(init);
            var k :| 0 <= k < |init| && init[k] == r[i];
            assert ns[k] == r[i];
          } else {
            assert r[i] == rest[i] && r[j] == rest[j];
          }
        }
      }
    }
  }

  /** Non-decreasing order, duplicates allowed: what `list.sort` leaves behind. */
  predicate Ordered(s: seq<string>) {
    forall i, j :: 0 <= i < j < |s| ==> !Less(s[j], s[i])
  }

  /** Inserts `x` before the first element not below it. */
  function Insert(s: seq<string>, x: string): (r: seq<string>)
    ensures multiset(r) == multiset(s) + multiset{x}
  {
    if s == [] || !Less(s[0], x) then [x] + s
    else
      assert s == [s[0]] + s[1..];
      [s[0]] + Insert(s[1..], x)
  }

  lemma {:induction false} InsertOrdered(s: seq<string>, x: string)
    requires Ordered(s)
    ensures Ordered(Insert(s, x))
  {
    if s == [] {
    } else if !Less(s[0], x) {
      forall j | 0 <= j < |s| ensures !Less(s[j], x) {
        if j > 0 && Less(s[j], x) && s[0] != s[j] {
          LessTotal(s[0], s[j]);
          LessTransitive(s[0], s[j], x);
        }
      }
      var r := [x] + s;
      forall i, j | 0 <= i < j < |r| ensures !Less(r[j], r[i]) {
        if i > 0 {
          assert r[i] == s[i - 1] && r[j] == s[j - 1];
        }
      }
    } else {
      var t := Insert(s[1..], x);
      InsertOrdered(s[1..], x);
      forall k | 0 <= k < |t| ensures !Less(t[k], s[0]) {
        assert t[k] in multiset(t);
        if t[k] == x {
          LessAsymmetric(s[0], x);
        } else {
          assert t[k] in multiset(s[1..]);
          var m :| 0 <= m < |s[1..]| && s[1..][m] == t[k];
          assert s[m + 1] == t[k];
        }
      }
      var r := [s[0]] + t;
      forall i, j | 0 <= i < j < |r| ensures !Less(r[j], r[i]) {
        if i > 0 {
          assert r[i] == t[i - 1] && r[j] == t[j - 1];
        } else {
          assert r[j] == t[j - 1];
        }
      }
    }
  }

  /** `list.sort` on a key list: ordered, and a permutation of its input. */
  method SortList(s: seq<string>) returns (r: seq<string>)
    ensures Ordered(r) && multiset(r) == multiset(s)
  {
    r := [];
    for i := 0 to |s|
      invariant Ordered(r) && multiset(r) == multiset(s[..i])
    {
      InsertOrdered(r, s[i]);
      r := Insert(r, s[i]);
      assert s[..i + 1] == s[..i] + [s[i]];
    }
    assert s[..|s|] == s;
  }

  /** A list is duplicate-free exactly when no element occurs twice in its multiset. */
  lemma {:induction false} DistinctCounts<T>(s: seq<T>)
    ensures Distinct(s) <==> forall x :: multiset(s)[x] <= 1
    decreases |s|
  {
    if s != [] {
      var h, t := s[0], s[1..];
      assert s == [h] + t;
      DistinctCounts(t);
      assert Distinct(s) <==> Distinct(t) && h !in t by {
        if Distinct(s) {
          forall i, j | 0 <= i < j < |t| ensures t[i] != t[j] {
            assert t[i] == s[i + 1] && t[j] == s[j + 1];
          }
        }
        if Distinct(t) && h !in t {
          forall i, j | 0 <= i < j < |s| ensures s[i] != s[j] {
            assert s[j] == t[j - 1];
            if i > 0 {
              assert s[i] == t[i - 1];
            }
          }
        }
      }
      var ms, mt := multiset(s), multiset(t);
      assert forall x :: ms[x] == mt[x] + (if x == h then 1 else 0);
      assert h in t <==> mt[h] > 0;
      if forall x :: ms[x] <= 1 {
        assert forall x :: mt[x] <= 1 by {
          forall x ensures mt[x] <= 1 {
            assert ms[x] <= 1;
          }
        }
        assert ms[h] <= 1;
      }
    }
  }

  lemma DistinctPrefix<T>(s: seq<T>, n: nat)
    requires Distinct(s) && n <= |s|
    ensures Distinct(s[..n])
  {
    forall i, j | 0 <= i < j < n ensures s[..n][i] != s[..n][j] {
      assert s[..n][i] == s[i] && s[..n][j] == s[j];
    }
  }

  /** Every element of a permutation of a prefix of `s` is an element of `s`. */
  lemma PermutedPrefixElems<T>(s: seq<T>, n: nat, b: seq<T>)
    requires n <= |s| && multiset(b) == multiset(s[..n])
    ensures forall x :: x in b ==> x in s[..n] && x in s
  {
    forall x | x in b ensures x in s[..n] && x in s {
      assert multiset(b)[x] > 0;
      assert x in multiset(s[..n]);
    }
  }

  lemma ElemsSnoc<T>(s: seq<T>, x: T)
    ensures Elems(s + [x]) == Elems(s) + {x}
  {
  }

  /** One more element of `ns` scanned: how the scanned prefix and what survives of it grow. */
  lemma WithoutStep(ns: seq<string>, i: nat, s: set<string>)
    requires i < |ns|
    ensures Elems(ns[..i + 1]) == Elems(ns[..i]) + {ns[i]}
    ensures ns[i] in s ==> Without(ns[..i + 1], s) == Without(ns[..i], s)
    ensures ns[i] !in s ==> Without(ns[..i + 1], s) == Without(ns[..i], s) + [ns[i]]
  {
    assert ns[..i + 1] == ns[..i] + [ns[i]];
    assert ns[..i + 1][..i] == ns[..i];
    ConcatEmpty(Without(ns[..i], s));
  }

  /** The elements of a list extended by the unseen elements of a scanned prefix. */
  lemma ScannedElems(order0: seq<string>, ns: seq<string>, i: nat, seen: set<string>)
    requires i <= |ns| && Elems(order0) == seen
    ensures Elems(order0 + Without(ns[..i], seen)) == seen + Elems(ns[..i])
  {
    var w := Without(ns[..i], seen);
    assert Elems(order0 + w) == Elems(order0) + Elems(w);
  }

  lemma UnionAbsorbed<T>(a: set<T>, b: set<T>)
    requires a <= b
    ensures a + b == b
  {
  }

  lemma DistinctNotBefore<T>(s: seq<T>, i: nat)
    requires Distinct(s) && i < |s|
    ensures s[i] !in s[..i]
  {
  }

  /** A permutation of a duplicate-free list is duplicate-free. */
  lemma DistinctPermutation<T>(a: seq<T>, b: seq<T>)
    requires Distinct(a) && multiset(a) == multiset(b)
    ensures Distinct(b)
  {
    DistinctCounts(a);
    DistinctCounts(b);
  }

  /** Appending to a list keeps any prefix of it. */
  lemma SnocKeepsPrefix<T>(a: seq<T>, x: T, c: seq<T>)
    requires |c| <= |a| && a[..|c|] == c
    ensures |c| <= |a + [x]| && (a + [x])[..|c|] == c
  {
    assert (a + [x])[..|c|] == a[..|c|];
  }

  lemma ConcatEmpty<T>(a: seq<T>)
    ensures [] + a == a && a + [] == a
  {
  }

  lemma ConcatAssociative<T>(a: seq<T>, b: seq<T>, c: seq<T>)
    ensures a + b + c == a + (b + c)
  {
  }
}
