/**
 * The scalar search and counting routines of the string view implementation
 * (the `Implementation::stringFind*` family and the scalar character counter).
 *
 * A view is its byte sequence `s`; a returned pointer is an offset into `s`,
 * and the null pointer is `None`.
 */
module StringSearch {
  import opened Optional

  /** A byte; `memcmp` and `memchr` compare bytes as `unsigned char`. */
  type Byte = b: int | 0 <= b < 0x100

  /** `memcmp(a, b, n)`: the sign of the first differing byte among the first `n`. */
  function MemCmp(a: seq<Byte>, b: seq<Byte>, n: nat): (r: int)
    requires n <= |a| && n <= |b|
    ensures -1 <= r <= 1
    ensures r == 0 <==> a[..n] == b[..n]
    decreases n
  {
    if n == 0 then 0
    else if a[0] < b[0] then -1
    else if a[0] > b[0] then 1
    else
      var r := MemCmp(a[1..], b[1..], n - 1);
      assert a[..n] == [a[0]] + a[1..][..n - 1];
      assert b[..n] == [b[0]] + b[1..][..n - 1];
      r
  }

  /** Whether `sub` occurs in `s` starting at offset `i`. */
  predicate MatchesAt(s: seq<Byte>, sub: seq<Byte>, i: nat) {
    i + |sub| <= |s| && s[i..i + |sub|] == sub
  }

  /** The lowest offset at or after `i` where `sub` occurs in `s`. */
  function FirstMatchFrom(s: seq<Byte>, sub: seq<Byte>, i: nat): (r: Option<nat>)
    ensures r.Some? ==> i <= r.value && r.value + |sub| <= |s|
    decreases |s| - i
  {
    if i + |sub| > |s| then None
    else if s[i..i + |sub|] == sub then Some(i)
    else FirstMatchFrom(s, sub, i + 1)
  }

  /** The search from `i` finds an occurrence, and none before it. */
  lemma {:induction false} FirstMatchFromIsFirst(s: seq<Byte>, sub: seq<Byte>, i: nat)
    ensures var r := FirstMatchFrom(s, sub, i);
      r.Some? ==> MatchesAt(s, sub, r.value) && forall j :: i <= j < r.value ==> !MatchesAt(s, sub, j)
    ensures FirstMatchFrom(s, sub, i).None? ==> forall j :: i <= j ==> !MatchesAt(s, sub, j)
    decreases |s| - i
  {
    if i + |sub| <= |s| && s[i..i + |sub|] != sub {
      FirstMatchFromIsFirst(s, sub, i + 1);
    }
  }

  /** The specification of `stringFindString`: the lowest offset where `sub` occurs. */
  function FirstMatch(s: seq<Byte>, sub: seq<Byte>): (r: Option<nat>)
    ensures r.Some? ==> r.value + |sub| <= |s|
  {
    FirstMatchFrom(s, sub, 0)
  }

  /** `stringFindString` finds the first occurrence, and nothing exactly when there is none. */
  lemma FirstMatchIsFirst(s: seq<Byte>, sub: seq<Byte>)
    ensures var r := FirstMatch(s, sub);
      r.Some? ==> MatchesAt(s, sub, r.value) && forall j :: 0 <= j < r.value ==> !MatchesAt(s, sub, j)
    ensures FirstMatch(s, sub).None? <==> forall j :: 0 <= j ==> !MatchesAt(s, sub, j)
  {
    FirstMatchFromIsFirst(s, sub, 0);
  }
  /** Searching a suffix `s[from..]` finds what searching `s` from `from` on finds, shifted by `from`. */
  lemma {:induction false} FirstMatchFromSuffix(s: seq<Byte>, sub: seq<Byte>, from: nat, j: nat)
    requires from <= |s|
    ensures FirstMatchFrom(s[from..], sub, j).Some? <==> FirstMatchFrom(s, sub, from + j).Some?
    ensures FirstMatchFrom(s[from..], sub, j).Some? ==>
      FirstMatchFrom(s, sub, from + j).value == from + FirstMatchFrom(s[from..], sub, j).value
    decreases |s| - from - j
  {
    if from + j + |sub| <= |s| {
      assert s[from..][j..j + |sub|] == s[from + j..from + j + |sub|];
      if s[from + j..from + j + |sub|] != sub {
        FirstMatchFromSuffix(s, sub, from, j + 1);
      }
    }
  }


  /** The highest offset at or below `i` where `sub` occurs in `s`. */
  function LastMatchUpTo(s: seq<Byte>, sub: seq<Byte>, i: int): (r: Option<nat>)
    ensures r.Some? ==> r.value <= i && MatchesAt(s, sub, r.value)
    ensures r.Some? ==> forall j :: r.value < j <= i ==> !MatchesAt(s, sub, j)
    ensures r.None? ==> forall j :: 0 <= j <= i ==> !MatchesAt(s, sub, j)
    decreases i + 1
  {
    if i < 0 then None
    else if MatchesAt(s, sub, i) then Some(i)
    else LastMatchUpTo(s, sub, i - 1)
  }

  /** The specification of `stringFindLastString`: the highest offset where `sub` occurs. */
  function LastMatch(s: seq<Byte>, sub: seq<Byte>): (r: Option<nat>)
    ensures r.Some? ==> MatchesAt(s, sub, r.value)
    ensures r.Some? ==> forall j :: r.value < j ==> !MatchesAt(s, sub, j)
    ensures r.None? <==> forall j :: 0 <= j ==> !MatchesAt(s, sub, j)
  {
    if |sub| > |s| then None else LastMatchUpTo(s, sub, |s| - |sub|)
  }

  /** `memchr(characters, c, characterCount) != nullptr`, read as "`c` is of the set" when `inSet`. */
  predicate Selected(chars: seq<Byte>, inSet: bool, c: Byte) {
    (c in chars) == inSet
  }

  /** The lowest offset at or after `i` whose byte is (`inSet`) or is not (`!inSet`) in `chars`. */
  function FirstOfFrom(s: seq<Byte>, chars: seq<Byte>, inSet: bool, i: nat): (r: Option<nat>)
    requires i <= |s|
    ensures r.Some? ==> i <= r.value < |s| && Selected(chars, inSet, s[r.value])
    decreases |s| - i
  {
    if i == |s| then None
    else if Selected(chars, inSet, s[i]) then Some(i)
    else FirstOfFrom(s, chars, inSet, i + 1)
  }

  /** No byte between `i` and the offset `FirstOfFrom` finds (or the end, when it finds none) is selected. */
  lemma {:induction false} FirstOfFromIsFirst(s: seq<Byte>, chars: seq<Byte>, inSet: bool, i: nat)
    requires i <= |s|
    ensures FirstOfFrom(s, chars, inSet, i).Some? ==>
      forall j :: i <= j < FirstOfFrom(s, chars, inSet, i).value ==> !Selected(chars, inSet, s[j])
    ensures FirstOfFrom(s, chars, inSet, i).None? ==> forall j :: i <= j < |s| ==> !Selected(chars, inSet, s[j])
    decreases |s| - i
  {
    if i < |s| && !Selected(chars, inSet, s[i]) {
      FirstOfFromIsFirst(s, chars, inSet, i + 1);
    }
  }

  /** The specification of `stringFindAny` (`inSet`) and `stringFindNotAny` (`!inSet`). */
  function FirstOf(s: seq<Byte>, chars: seq<Byte>, inSet: bool): (r: Option<nat>)
    ensures r.Some? ==> r.value < |s| && Selected(chars, inSet, s[r.value])
    ensures r.Some? ==> forall j :: 0 <= j < r.value ==> !Selected(chars, inSet, s[j])
    ensures r.None? <==> forall j :: 0 <= j < |s| ==> !Selected(chars, inSet, s[j])
  {
    FirstOfFromIsFirst(s, chars, inSet, 0);
    FirstOfFrom(s, chars, inSet, 0)
  }

  /** Searching a suffix `s[from..]` finds what searching `s` from `from` on finds, shifted by `from`. */
  lemma {:induction false} FirstOfFromSuffix(s: seq<Byte>, chars: seq<Byte>, inSet: bool, from: nat, j: nat)
    requires from + j <= |s|
    ensures FirstOfFrom(s[from..], chars, inSet, j).Some? <==> FirstOfFrom(s, chars, inSet, from + j).Some?
    ensures FirstOfFrom(s[from..], chars, inSet, j).Some? ==>
      FirstOfFrom(s, chars, inSet, from + j).value == from + FirstOfFrom(s[from..], chars, inSet, j).value
    decreases |s| - from - j
  {
    if from + j < |s| {
      assert s[from..][j] == s[from + j];
      if !Selected(chars, inSet, s[from + j]) {
        FirstOfFromSuffix(s, chars, inSet, from, j + 1);
      }
    }
  }

  /** The highest offset below `i` whose byte is (`inSet`) or is not (`!inSet`) in `chars`. */
  function LastOfBefore(s: seq<Byte>, chars: seq<Byte>, inSet: bool, i: nat): (r: Option<nat>)
    requires i <= |s|
    ensures r.Some? ==> r.value < i && Selected(chars, inSet, s[r.value])
    ensures r.Some? ==> forall j :: r.value < j < i ==> !Selected(chars, inSet, s[j])
    ensures r.None? ==> forall j :: 0 <= j < i ==> !Selected(chars, inSet, s[j])
  {
    if i == 0 then None
    else if Selected(chars, inSet, s[i - 1]) then Some(i - 1)
    else LastOfBefore(s, chars, inSet, i - 1)
  }

  /** The specification of `stringFindLastAny` (`inSet`) and `stringFindLastNotAny` (`!inSet`). */
  function LastOf(s: seq<Byte>, chars: seq<Byte>, inSet: bool): (r: Option<nat>)
    ensures r.Some? ==> r.value < |s| && Selected(chars, inSet, s[r.value])
    ensures r.Some? ==> forall j :: r.value < j < |s| ==> !Selected(chars, inSet, s[j])
    ensures r.None? <==> forall j :: 0 <= j < |s| ==> !Selected(chars, inSet, s[j])
  {
    LastOfBefore(s, chars, inSet, |s|)
  }

  /**
   * `stringFindCharacter` in its scalar form, a single `memchr`: the first
   * offset holding `c`.
   */
  function FindCharacter(s: seq<Byte>, c: Byte): (r: Option<nat>)
    ensures r.Some? ==> r.value < |s| && s[r.value] == c
    ensures r.Some? ==> forall j :: 0 <= j < r.value ==> s[j] != c
    ensures r.None? <==> c !in s
  {
    FirstOf(s, [c], true)
  }

  /** The specification of `stringFindLastCharacter`: the last offset holding `c`. */
  function LastCharacter(s: seq<Byte>, c: Byte): (r: Option<nat>)
    ensures r.Some? ==> r.value < |s| && s[r.value] == c
    ensures r.Some? ==> forall j :: r.value < j < |s| ==> s[j] != c
    ensures r.None? <==> c !in s
  {
    LastOf(s, [c], true)
  }

  /** The number of bytes of `s` equal to `c`, counted from the front. */
  function Count(s: seq<Byte>, c: Byte): (r: nat)
    ensures r <= |s|
  {
    if |s| == 0 then 0
    else Count(s[..|s| - 1], c) + (if s[|s| - 1] == c then 1 else 0)
  }

  /** The count is the multiplicity of `c` in the multiset of the bytes of `s`. */
  lemma {:induction false} CountIsMultiplicity(s: seq<Byte>, c: Byte)
    ensures Count(s, c) == multiset(s)[c]
  {
    if |s| > 0 {
      CountIsMultiplicity(s[..|s| - 1], c);
      assert s == s[..|s| - 1] + [s[|s| - 1]];
    }
  }

  /** Counting distributes over concatenation. */
  lemma {:induction false} CountAppend(a: seq<Byte>, b: seq<Byte>, c: Byte)
    ensures Count(a + b, c) == Count(a, c) + Count(b, c)
  {
    CountIsMultiplicity(a + b, c);
    CountIsMultiplicity(a, c);
    CountIsMultiplicity(b, c);
  }

  /** `stringFindString`: the lowest offset where `substring` occurs in `data`. */
  method FindString(data: seq<Byte>, substring: seq<Byte>) returns (r: Option<nat>)
    ensures r == FirstMatch(data, substring)
  {
    if |substring| <= |data| {
      // Both empty: the start of the string.
      if |data| == 0 {
        return Some(0);
      }
      var i := 0;
      var max := |data| - |substring|;
      while i <= max
        invariant 0 <= i <= max + 1
        invariant FirstMatchFrom(data, substring, i) == FirstMatch(data, substring)
      {
        if MemCmp(data[i..], substring, |substring|) == 0 {
          assert data[i..][..|substring|] == data[i..i + |substring|];
          return Some(i);
        }
        assert data[i..][..|substring|] == data[i..i + |substring|];
        i := i + 1;
      }
    }
    return None;
  }

  /** `stringFindLastString`: the highest offset where `substring` occurs in `data`. */
  method FindLastString(data: seq<Byte>, substring: seq<Byte>) returns (r: Option<nat>)
    ensures r == LastMatch(data, substring)
  {
    if |substring| <= |data| {
      if |data| == 0 {
        return Some(0);
      }
      var i: int := |data| - |substring|;
      while i >= 0
        invariant -1 <= i <= |data| - |substring|
        invariant LastMatchUpTo(data, substring, i) == LastMatch(data, substring)
      {
        if MemCmp(data[i..], substring, |substring|) == 0 {
          assert data[i..][..|substring|] == data[i..i + |substring|];
          return Some(i);
        }
        assert data[i..][..|substring|] == data[i..i + |substring|];
        i := i - 1;
      }
    }
    return None;
  }

  /** `stringFindLastCharacter`: scans from the last byte backwards for `character`. */
  method FindLastCharacter(data: seq<Byte>, character: Byte) returns (r: Option<nat>)
    ensures r == LastCharacter(data, character)
  {
    var i: int := |data| - 1;
    while i >= 0
      invariant -1 <= i < |data|
      invariant LastOfBefore(data, [character], true, i + 1) == LastCharacter(data, character)
    {
      if data[i] == character {
        return Some(i);
      }
      i := i - 1;
    }
    return None;
  }

  /** `stringFindAny`: the first byte of `data` that is one of `characters`. */
  method FindAny(data: seq<Byte>, characters: seq<Byte>) returns (r: Option<nat>)
    ensures r == FirstOf(data, characters, true)
  {
    var i := 0;
    while i != |data|
      invariant 0 <= i <= |data|
      invariant FirstOfFrom(data, characters, true, i) == FirstOf(data, characters, true)
    {
      if data[i] in characters {
        return Some(i);
      }
      i := i + 1;
    }
    return None;
  }

  /** `stringFindLastAny`: the last byte of `data` that is one of `characters`. */
  method FindLastAny(data: seq<Byte>, characters: seq<Byte>) returns (r: Option<nat>)
    ensures r == LastOf(data, characters, true)
  {
    var i := |data|;
    while i != 0
      invariant 0 <= i <= |data|
      invariant LastOfBefore(data, characters, true, i) == LastOf(data, characters, true)
    {
      if data[i - 1] in characters {
        return Some(i - 1);
      }
      i := i - 1;
    }
    return None;
  }

  /** `stringFindNotAny`: the first byte of `data` that is none of `characters`. */
  method FindNotAny(data: seq<Byte>, characters: seq<Byte>) returns (r: Option<nat>)
    ensures r == FirstOf(data, characters, false)
  {
    var i := 0;
    while i != |data|
      invariant 0 <= i <= |data|
      invariant FirstOfFrom(data, characters, false, i) == FirstOf(data, characters, false)
    {
      if data[i] !in characters {
        return Some(i);
      }
      i := i + 1;
    }
    return None;
  }

  /** `stringFindLastNotAny`: the last byte of `data` that is none of `characters`. */
  method FindLastNotAny(data: seq<Byte>, characters: seq<Byte>) returns (r: Option<nat>)
    ensures r == LastOf(data, characters, false)
  {
    var i := |data|;
    while i != 0
      invariant 0 <= i <= |data|
      invariant LastOfBefore(data, characters, false, i) == LastOf(data, characters, false)
    {
      if data[i - 1] !in characters {
        return Some(i - 1);
      }
      i := i - 1;
    }
    return None;
  }

  /** The scalar `stringCountCharacterImplementation`. */
  method CountCharacter(data: seq<Byte>, character: Byte) returns (count: nat)
    ensures count == Count(data, character)
    ensures count == multiset(data)[character]
  {
    count := 0;
    var i := 0;
    while i != |data|
      invariant 0 <= i <= |data|
      invariant count == Count(data[..i], character)
    {
      assert data[..i + 1][..i] == data[..i];
      if data[i] == character {
        count := count + 1;
      }
      i := i + 1;
    }
    assert data[..i] == data;
    CountIsMultiplicity(data, character);
  }
}
