/**
 * The straight-line members of the string view: prefix and suffix tests,
 * `exceptPrefix`/`exceptSuffix`, `partition`/`partitionLast` and the
 * comparison operators.
 *
 * A sub-view of a view `s` is a `Slice` of offsets into `s`, so that a
 * returned view keeps the pointer it has in the source (an empty view "at
 * the end" is `Slice(|s|, |s|)`, not `Slice(0, 0)`).
 */
module StringView {
  import opened Optional
  import opened StringSearch

  /** The sub-view `[begin, end)` of a view. */
  datatype Slice = Slice(begin: nat, end: nat)

  predicate SliceOf(s: seq<Byte>, v: Slice) {
    v.begin <= v.end <= |s|
  }

  /** The bytes a slice of `s` views. */
  function Text(s: seq<Byte>, v: Slice): seq<Byte>
    requires SliceOf(s, v)
  {
    s[v.begin..v.end]
  }

  /** `hasPrefix(StringView)`: compares the first `|prefix|` bytes with `memcmp`. */
  function HasPrefix(s: seq<Byte>, prefix: seq<Byte>): (r: bool)
    ensures r <==> |prefix| <= |s| && s[..|prefix|] == prefix
  {
    if |s| < |prefix| then false else MemCmp(s, prefix, |prefix|) == 0
  }

  /** `hasPrefix(char)`. */
  function HasPrefixChar(s: seq<Byte>, prefix: Byte): (r: bool)
    ensures r == HasPrefix(s, [prefix])
  {
    |s| > 0 && s[0] == prefix
  }

  /** `hasSuffix(StringView)`: compares the last `|suffix|` bytes with `memcmp`. */
  function HasSuffix(s: seq<Byte>, suffix: seq<Byte>): (r: bool)
    ensures r <==> |suffix| <= |s| && s[|s| - |suffix|..] == suffix
  {
    if |s| < |suffix| then false
    else
      assert s[|s| - |suffix|..][..|suffix|] == s[|s| - |suffix|..];
      MemCmp(s[|s| - |suffix|..], suffix, |suffix|) == 0
  }

  /** `hasSuffix(char)`. */
  function HasSuffixChar(s: seq<Byte>, suffix: Byte): (r: bool)
    ensures r == HasSuffix(s, [suffix])
  {
    |s| > 0 && s[|s| - 1] == suffix
  }

  /**
   * `exceptPrefix(StringView)`: the view without the given prefix, which the
   * source asserts to be present.
   */
  function ExceptPrefix(s: seq<Byte>, prefix: seq<Byte>): (r: Slice)
    requires HasPrefix(s, prefix)
    ensures SliceOf(s, r) && r.end == |s|
    ensures prefix + Text(s, r) == s
  {
    assert s == s[..|prefix|] + s[|prefix|..];
    Slice(|prefix|, |s|)
  }

  /**
   * `exceptSuffix(StringView)`: the view without the given suffix, which the
   * source asserts to be present.
   */
  function ExceptSuffix(s: seq<Byte>, suffix: seq<Byte>): (r: Slice)
    requires HasSuffix(s, suffix)
    ensures SliceOf(s, r) && r.begin == 0
    ensures Text(s, r) + suffix == s
  {
    assert s == s[..|s| - |suffix|] + s[|s| - |suffix|..];
    Slice(0, |s| - |suffix|)
  }

  /** The three views `partition` and `partitionLast` return. */
  datatype Partitioned = Partitioned(before: Slice, separator: Slice, after: Slice)

  /** The three views are views of `s` and concatenate back to it. */
  predicate Reassembles(s: seq<Byte>, p: Partitioned) {
    && SliceOf(s, p.before) && SliceOf(s, p.separator) && SliceOf(s, p.after)
    && Text(s, p.before) + Text(s, p.separator) + Text(s, p.after) == s
  }

  /** The three views lie end to end from the start of `s` to its end. */
  predicate Adjacent(s: seq<Byte>, p: Partitioned) {
    && p.before.begin == 0 && p.before.end == p.separator.begin
    && p.separator.end == p.after.begin && p.after.end == |s|
  }

  /** The three views split `s` at `pos`, around `width` separator bytes. */
  lemma SplitAround(s: seq<Byte>, pos: nat, width: nat)
    requires pos + width <= |s|
    ensures Reassembles(s, Partitioned(Slice(0, pos), Slice(pos, pos + width), Slice(pos + width, |s|)))
  {
    assert s == s[..pos] + s[pos..pos + width] + s[pos + width..];
  }

  /**
   * `partition(StringView)`: splits at the first occurrence of `separator`
   * into the views before it, of it and after it, or gives
   * `(whole, end, end)` when there is none.
   */
  function Partition(s: seq<Byte>, separator: seq<Byte>): (r: Partitioned)
    ensures Reassembles(s, r)
    ensures FirstMatch(s, separator).Some? ==>
      && Adjacent(s, r)
      && Text(s, r.separator) == separator
      && r.before == Slice(0, FirstMatch(s, separator).value)
      && forall j :: 0 <= j < r.before.end ==> !MatchesAt(s, separator, j)
    ensures FirstMatch(s, separator).None? ==>
      r == Partitioned(Slice(0, |s|), Slice(|s|, |s|), Slice(|s|, |s|))
  {
    var n := |s|;
    FirstMatchIsFirst(s, separator);
    match FirstMatch(s, separator)
    case Some(pos) =>
      SplitAround(s, pos, |separator|);
      Partitioned(Slice(0, pos), Slice(pos, pos + |separator|), Slice(pos + |separator|, n))
    case None =>
      Partitioned(Slice(0, n), Slice(n, n), Slice(n, n))
  }

  /**
   * `partitionLast(StringView)`: splits at the last occurrence of
   * `separator` into the views before it, of it and after it, or gives
   * `(end, end, whole)` when there is none.
   */
  function PartitionLast(s: seq<Byte>, separator: seq<Byte>): (r: Partitioned)
    ensures Reassembles(s, r)
    ensures LastMatch(s, separator).Some? ==>
      && Adjacent(s, r)
      && Text(s, r.separator) == separator
      && r.separator.begin == LastMatch(s, separator).value
      && forall j :: r.separator.begin < j ==> !MatchesAt(s, separator, j)
    ensures LastMatch(s, separator).None? ==>
      r == Partitioned(Slice(|s|, |s|), Slice(|s|, |s|), Slice(0, |s|))
  {
    var n := |s|;
    match LastMatch(s, separator)
    case Some(pos) =>
      SplitAround(s, pos, |separator|);
      Partitioned(Slice(0, pos), Slice(pos, pos + |separator|), Slice(pos + |separator|, n))
    case None =>
      Partitioned(Slice(n, n), Slice(n, n), Slice(0, n))
  }

  /** `partition(char)`: splits at the first `separator` byte, found with `memchr`. */
  function PartitionChar(s: seq<Byte>, separator: Byte): (r: Partitioned)
    ensures Reassembles(s, r)
    ensures separator in s ==>
      && Adjacent(s, r)
      && Text(s, r.separator) == [separator]
      && separator !in Text(s, r.before)
    ensures separator !in s ==>
      r == Partitioned(Slice(0, |s|), Slice(|s|, |s|), Slice(|s|, |s|))
  {
    var n := |s|;
    match FindCharacter(s, separator)
    case Some(pos) =>
      assert s[pos..pos + 1] == [separator];
      SplitAround(s, pos, 1);
      Partitioned(Slice(0, pos), Slice(pos, pos + 1), Slice(pos + 1, n))
    case None =>
      Partitioned(Slice(0, n), Slice(n, n), Slice(n, n))
  }

  /** `partitionLast(char)`: splits at the last `separator` byte. */
  function PartitionLastChar(s: seq<Byte>, separator: Byte): (r: Partitioned)
    ensures Reassembles(s, r)
    ensures separator in s ==>
      && Adjacent(s, r)
      && Text(s, r.separator) == [separator]
      && separator !in Text(s, r.after)
    ensures separator !in s ==>
      r == Partitioned(Slice(|s|, |s|), Slice(|s|, |s|), Slice(0, |s|))
  {
    var n := |s|;
    match LastCharacter(s, separator)
    case Some(pos) =>
      assert s[pos..pos + 1] == [separator];
      SplitAround(s, pos, 1);
      Partitioned(Slice(0, pos), Slice(pos, pos + 1), Slice(pos + 1, n))
    case None =>
      Partitioned(Slice(n, n), Slice(n, n), Slice(0, n))
  }

  /** A one-byte string occurs exactly where its byte does. */
  lemma MatchesAtSingle(s: seq<Byte>, c: Byte, j: nat)
    ensures MatchesAt(s, [c], j) <==> j < |s| && s[j] == c
  {
    if j < |s| { assert s[j..j + 1] == [s[j]]; }
  }

  lemma {:induction false} FirstOfIsFirstMatch(s: seq<Byte>, c: Byte, i: nat)
    requires i <= |s|
    ensures FirstOfFrom(s, [c], true, i) == FirstMatchFrom(s, [c], i)
    decreases |s| - i
  {
    MatchesAtSingle(s, c, i);
    if i < |s| {
      FirstOfIsFirstMatch(s, c, i + 1);
    }
  }

  lemma {:induction false} LastOfIsLastMatch(s: seq<Byte>, c: Byte, i: nat)
    requires i <= |s|
    ensures LastOfBefore(s, [c], true, i) == LastMatchUpTo(s, [c], i - 1)
  {
    if i > 0 {
      MatchesAtSingle(s, c, i - 1);
      LastOfIsLastMatch(s, c, i - 1);
    }
  }

  /** A single-byte separator partitions like the one-byte string. */
  lemma PartitionCharIsPartition(s: seq<Byte>, separator: Byte)
    ensures PartitionChar(s, separator) == Partition(s, [separator])
  {
    FirstOfIsFirstMatch(s, separator, 0);
    assert FindCharacter(s, separator) == FirstMatch(s, [separator]);
  }

  /** A single-byte separator partitions from the end like the one-byte string. */
  lemma PartitionLastCharIsPartitionLast(s: seq<Byte>, separator: Byte)
    ensures PartitionLastChar(s, separator) == PartitionLast(s, [separator])
  {
    LastOfIsLastMatch(s, separator, |s|);
    assert LastCharacter(s, separator) == LastMatch(s, [separator]);
  }

  /** `operator==`: equal sizes and a zero `memcmp` over them. */
  function Equal(a: seq<Byte>, b: seq<Byte>): (r: bool)
    ensures r <==> a == b
  {
    |a| == |b| && MemCmp(a, b, |a|) == 0
  }

  /** `operator!=`. */
  function NotEqual(a: seq<Byte>, b: seq<Byte>): (r: bool)
    ensures r <==> a != b
  {
    |a| != |b| || MemCmp(a, b, |a|) != 0
  }

  function Min(x: nat, y: nat): nat {
    if x < y then x else y
  }

  /**
   * The lexicographic order on byte strings, as unsigned bytes: the first
   * differing byte decides, and a proper prefix is less.
   */
  ghost predicate LexLess(a: seq<Byte>, b: seq<Byte>)
    decreases |a|
  {
    if |a| == 0 then |b| > 0
    else if |b| == 0 then false
    else if a[0] != b[0] then a[0] < b[0]
    else LexLess(a[1..], b[1..])
  }

  /** `operator<`: `memcmp` over the shorter size decides, else the shorter view is less. */
  function Less(a: seq<Byte>, b: seq<Byte>): (r: bool)
    ensures r == LexLess(a, b)
  {
    MemCmpIsLexicographic(a, b);
    var result := MemCmp(a, b, Min(|a|, |b|));
    if result != 0 then result < 0 else |a| < |b|
  }

  /** `operator<=`: less or equal. */
  function LessEqual(a: seq<Byte>, b: seq<Byte>): (r: bool)
    ensures r == (LexLess(a, b) || a == b)
  {
    MemCmpIsLexicographic(a, b);
    MemCmpDecidesEquality(a, b);
    var result := MemCmp(a, b, Min(|a|, |b|));
    if result != 0 then result < 0 else |a| <= |b|
  }

  /** `operator>=`: not less. */
  function GreaterEqual(a: seq<Byte>, b: seq<Byte>): (r: bool)
    ensures r == !LexLess(a, b)
  {
    MemCmpIsLexicographic(a, b);
    var result := MemCmp(a, b, Min(|a|, |b|));
    if result != 0 then result > 0 else |a| >= |b|
  }

  /** `operator>`: the order with the arguments swapped. */
  function Greater(a: seq<Byte>, b: seq<Byte>): (r: bool)
    ensures r == LexLess(b, a)
  {
    MemCmpSwap(a, b, Min(|a|, |b|));
    assert Min(|a|, |b|) == Min(|b|, |a|);
    MemCmpIsLexicographic(b, a);
    var result := MemCmp(a, b, Min(|a|, |b|));
    if result != 0 then result > 0 else |a| > |b|
  }

  /** `memcmp` is antisymmetric in its arguments. */
  lemma {:induction false} MemCmpSwap(a: seq<Byte>, b: seq<Byte>, n: nat)
    requires n <= |a| && n <= |b|
    ensures MemCmp(b, a, n) == -MemCmp(a, b, n)
    decreases n
  {
    if n > 0 && a[0] == b[0] {
      MemCmpSwap(a[1..], b[1..], n - 1);
    }
  }

  /** `memcmp` over the shorter size, then the sizes, decide the lexicographic order. */
  lemma {:induction false} MemCmpIsLexicographic(a: seq<Byte>, b: seq<Byte>)
    ensures var result := MemCmp(a, b, Min(|a|, |b|));
      (result < 0 || (result == 0 && |a| < |b|)) == LexLess(a, b)
    decreases |a|
  {
    if |a| > 0 && |b| > 0 && a[0] == b[0] {
      MemCmpIsLexicographic(a[1..], b[1..]);
      assert Min(|a|, |b|) - 1 == Min(|a[1..]|, |b[1..]|);
    }
  }

  /** `memcmp` over the shorter size finds no difference and the sizes agree exactly for equal views. */
  lemma MemCmpDecidesEquality(a: seq<Byte>, b: seq<Byte>)
    ensures (MemCmp(a, b, Min(|a|, |b|)) == 0 && |a| == |b|) == (a == b)
  {
    var m := Min(|a|, |b|);
    if MemCmp(a, b, m) == 0 && |a| == |b| {
      assert a == a[..m] && b == b[..m];
    }
  }

  /** The lexicographic order is irreflexive and trichotomous... */
  lemma {:induction false} LexTrichotomy(a: seq<Byte>, b: seq<Byte>)
    ensures !LexLess(a, a)
    ensures a == b || LexLess(a, b) || LexLess(b, a)
    ensures !(LexLess(a, b) && LexLess(b, a))
    decreases |a|
  {
    if |a| > 0 {
      LexTrichotomy(a[1..], a[1..]);
      if |b| > 0 && a[0] == b[0] {
        LexTrichotomy(a[1..], b[1..]);
        if a[1..] == b[1..] {
          assert a == [a[0]] + a[1..] && b == [b[0]] + b[1..];
        }
      }
    }
  }

  /** ... and transitive, so `operator<` is a strict total order. */
  lemma {:induction false} LexTransitive(a: seq<Byte>, b: seq<Byte>, c: seq<Byte>)
    requires LexLess(a, b) && LexLess(b, c)
    ensures LexLess(a, c)
    decreases |a|
  {
    if |a| > 0 && a[0] == b[0] && b[0] == c[0] {
      LexTransitive(a[1..], b[1..], c[1..]);
    }
  }
}
