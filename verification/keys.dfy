/**
 * Store keys of a collection: the unpadded decimal key an append allocates,
 * the `int(...)` parse that refresh applies to the last key, and the item
 * prefix `name + "!!"` under which a collection's records live.
 */
module Keys {
  import opened Wrappers

  predicate IsDigit(c: char) {
    '0' <= c <= '9'
  }

  function DigitChar(d: nat): (c: char)
    requires d < 10
    ensures IsDigit(c)
  {
    ('0' as int + d) as char
  }

  /** `str(n)`: the decimal rendering of `n`, without padding. */
  function DecimalKey(n: nat): (s: string)
    ensures |s| >= 1 && forall i :: 0 <= i < |s| ==> IsDigit(s[i])
    ensures s[0] == '0' ==> n == 0
    decreases n
  {
    if n < 10 then [DigitChar(n)] else DecimalKey(n / 10) + [DigitChar(n % 10)]
  }

  function DigitValue(c: char): nat
    requires IsDigit(c)
  {
    c as int - '0' as int
  }

  function DigitsValue(s: string): nat
    requires forall i :: 0 <= i < |s| ==> IsDigit(s[i])
  {
    if |s| == 0 then 0
    else DigitsValue(s[..|s| - 1]) * 10 + DigitValue(s[|s| - 1])
  }

  /**
   * `int(key)` on a stored key: a non-empty string of decimal digits parses
   * (leading zeros allowed); anything else is a ValueError, here None.
   */
  function ParseDecimal(s: string): (r: Option<nat>)
    // a key without a leading zero is the rendering of the number it parses to
    ensures r.Some? ==> |s| > 0
    ensures r.Some? && s[0] != '0' ==> DecimalKey(r.value) == s
  {
    if |s| > 0 && forall i :: 0 <= i < |s| ==> IsDigit(s[i]) then
      DigitsCanonical(s);
      Some(DigitsValue(s))
    else None
  }

  lemma {:induction false} DigitsLeading(s: string)
    requires |s| > 0 && forall i :: 0 <= i < |s| ==> IsDigit(s[i])
    ensures DigitsValue(s) >= DigitValue(s[0])
    decreases |s|
  {
    if |s| > 1 {
      DigitsLeading(s[..|s| - 1]);
    }
  }

  /** The digits of `s`, without a leading zero, are what `str` renders their value as. */
  lemma {:induction false} DigitsCanonical(s: string)
    requires |s| > 0 && forall i :: 0 <= i < |s| ==> IsDigit(s[i])
    ensures s[0] != '0' ==> DecimalKey(DigitsValue(s)) == s
    decreases |s|
  {
    var init, c := s[..|s| - 1], s[|s| - 1];
    assert DigitChar(DigitValue(c)) == c;
    if |s| > 1 && s[0] != '0' {
      DigitsCanonical(init);
      DigitsLeading(init);
      var v := DigitsValue(s);
      assert v / 10 == DigitsValue(init) && v % 10 == DigitValue(c);
      assert s == init + [c];
    }
  }

  /** Parsing a key that an append allocated gives back its number. */
  lemma {:induction false} ParseDecimalKey(n: nat)
    ensures ParseDecimal(DecimalKey(n)) == Some(n)
    decreases n
  {
    var s := DecimalKey(n);
    if n >= 10 {
      ParseDecimalKey(n / 10);
      assert s[..|s| - 1] == DecimalKey(n / 10);
      assert DigitValue(s[|s| - 1]) == n % 10;
      assert DigitsValue(s) == (n / 10) * 10 + n % 10;
    }
  }

  lemma DecimalKeyInjective(a: nat, b: nat)
    requires DecimalKey(a) == DecimalKey(b)
    ensures a == b
  {
    ParseDecimalKey(a);
    ParseDecimalKey(b);
  }

  /** `k` is the key some append with a counter value in 1..bound allocated. */
  predicate Allocated(k: string, bound: nat) {
    var v := ParseDecimal(k);
    v.Some? && 1 <= v.value <= bound && DecimalKey(v.value) == k
  }

  predicate AllAllocated(ks: seq<string>, bound: nat) {
    forall k :: k in ks ==> Allocated(k, bound)
  }

  /** The keys `n` appends allocate when the counter stands at `last`: str(last + 1), ..., str(last + n). */
  function KeyRun(last: nat, n: nat): (ks: seq<string>)
    ensures |ks| == n && forall i :: 0 <= i < n ==> ks[i] == DecimalKey(last + i + 1)
  {
    if n == 0 then [] else KeyRun(last, n - 1) + [DecimalKey(last + n)]
  }

  /** The key the next append allocates is not among the keys allocated so far. */
  lemma NextKeyIsNew(ks: seq<string>, bound: nat)
    requires AllAllocated(ks, bound)
    ensures DecimalKey(bound + 1) !in ks
    ensures AllAllocated(ks + [DecimalKey(bound + 1)], bound + 1)
  {
    ParseDecimalKey(bound + 1);
  }

  /**
   * `last_index` as refresh recomputes it from the scanned key list:
   * `int(keys[-1])`, or 0 for an empty list; None when the last key does not parse.
   */
  function ScannedLastIndex(ks: seq<string>): (r: Option<nat>)
    // when every key came from an append, the recomputed counter exists and is at most the real one
    ensures forall bound :: AllAllocated(ks, bound) ==> r.Some? && r.value <= bound
  {
    if ks == [] then Some(0)
    else
      assert ks[|ks| - 1] in ks;
      ParseDecimal(ks[|ks| - 1])
  }

  const Separator: string := "!!"

  /** `'!!' in name`. */
  predicate HasSeparator(name: string)
    ensures HasSeparator(name) <==> exists i :: 0 <= i < |name| - 1 && name[i] == '!' && name[i + 1] == '!'
    decreases |name|
  {
    |name| >= 2 && ((name[0] == '!' && name[1] == '!') || HasSeparator(name[1..]))
  }

  /** The prefix of a collection's records in the item namespace. */
  function ItemPrefix(name: string): string
  {
    name + Separator
  }

  /**
   * Different names have different item prefixes; when one prefix merely
   * starts the other, `Defects.PrefixNeedsSeparator` says which names overlap.
   */
  lemma ItemPrefixInjective(a: string, b: string)
    requires ItemPrefix(a) == ItemPrefix(b)
    ensures a == b
  {
    assert |a| == |b|;
    assert a == ItemPrefix(a)[..|a|] == ItemPrefix(b)[..|b|] == b;
  }

  predicate IsPrefix(p: string, s: string) {
    |p| <= |s| && s[..|p|] == p
  }

  /** Neither namespace contains the other. */
  predicate Isolated(p: string, q: string) {
    !IsPrefix(p, q) && !IsPrefix(q, p)
  }

  /** A key under one of two isolated prefixes is never under the other. */
  lemma IsolatedKeyOutside(p: string, q: string, k: string)
    requires Isolated(p, q)
    ensures !IsPrefix(q, p + k)
  {
  }
}
