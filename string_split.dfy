/**
 * The splitting members of the string view: `split(char)`,
 * `split(StringView)`, `splitWithoutEmptyParts(char)` and
 * `splitOnAnyWithoutEmptyParts(StringView)`.
 *
 * Each returns the parts as slices of the original view.  Every loop is
 * proved equal to a recursive specification that walks the view from an
 * offset `from` the way the loop advances `oldpos`; the lemmas then say what
 * the parts are: slices of the view that join back to it with the
 * delimiter, none holding a delimiter, and for the variants without empty
 * parts, the plain split with its empty parts removed.
 */
module StringSplit {
  import opened Optional
  import opened StringSearch
  import opened StringView
  import opened StringJoin

  /** All parts are slices of `s`. */
  predicate Slices(s: seq<Byte>, parts: seq<Slice>) {
    forall k :: 0 <= k < |parts| ==> SliceOf(s, parts[k])
  }

  /** The bytes a part views; a part outside the view (which the lemmas rule out) views nothing. */
  function PartText(s: seq<Byte>, v: Slice): seq<Byte>
  {
    if SliceOf(s, v) then Text(s, v) else []
  }

  /** The bytes each part views. */
  function Texts(s: seq<Byte>, parts: seq<Slice>): (r: seq<seq<Byte>>)
    ensures |r| == |parts|
  {
    if |parts| == 0 then [] else [PartText(s, parts[0])] + Texts(s, parts[1..])
  }

  /** The texts after a first part. */
  lemma TextsCons(s: seq<Byte>, first: Slice, rest: seq<Slice>)
    ensures Texts(s, [first] + rest) == [PartText(s, first)] + Texts(s, rest)
  {
    assert ([first] + rest)[1..] == rest;
  }

  /** The texts of concatenated parts. */
  lemma {:induction false} TextsAppend(s: seq<Byte>, a: seq<Slice>, b: seq<Slice>)
    ensures Texts(s, a + b) == Texts(s, a) + Texts(s, b)
  {
    if |a| > 0 {
      TextsAppend(s, a[1..], b);
      assert (a + b)[1..] == a[1..] + b;
    } else {
      assert a + b == b;
    }
  }

  /** No byte of `t` is one of `chars`. */
  predicate Avoids(t: seq<Byte>, chars: seq<Byte>) {
    forall j :: 0 <= j < |t| ==> t[j] !in chars
  }

  /** `sub` occurs nowhere in `t`. */
  ghost predicate Free(t: seq<Byte>, sub: seq<Byte>) {
    forall j: nat :: !MatchesAt(t, sub, j)
  }

  /** No occurrence starting in `[from, p)` means none inside `t[from..p]`. */
  lemma FreeBetween(t: seq<Byte>, sub: seq<Byte>, from: nat, p: nat)
    requires |sub| > 0 && from <= p <= |t|
    requires forall j :: from <= j < p ==> !MatchesAt(t, sub, j)
    ensures Free(t[from..p], sub)
  {
    forall j: nat | MatchesAt(t[from..p], sub, j)
      ensures false
    {
      assert j + |sub| <= p - from;
      var inner := t[from..p][j..j + |sub|];
      var outer := t[from + j..from + j + |sub|];
      forall k | 0 <= k < |sub|
        ensures inner[k] == outer[k]
      {
        assert inner[k] == t[from..p][j + k] == t[from + j + k];
      }
      assert inner == outer;
      assert MatchesAt(t, sub, from + j);
    }
  }

  /** A view cut in three at `pos` and `end`. */
  lemma Pieces(s: seq<Byte>, from: nat, pos: nat, end: nat)
    requires from <= pos <= end <= |s|
    ensures s[from..] == s[from..pos] + s[pos..end] + s[end..]
  {
  }

  /** The view around the byte at `pos`. */
  lemma CutAt(s: seq<Byte>, from: nat, pos: nat)
    requires from <= pos < |s|
    ensures s[from..] == s[from..pos] + [s[pos]] + s[pos + 1..]
    ensures s[from..] == s[from..pos] + ([s[pos]] + s[pos + 1..])
  {
  }

  /** No byte in `[from, pos)` selected means `s[from..pos]` avoids the bytes. */
  lemma AvoidsBetween(s: seq<Byte>, chars: seq<Byte>, from: nat, pos: nat)
    requires from <= pos <= |s|
    requires forall j :: from <= j < pos ==> !Selected(chars, true, s[j])
    ensures Avoids(s[from..pos], chars)
  {
    assert forall j :: 0 <= j < pos - from ==> s[from..pos][j] == s[from + j];
  }

  /** Joining after a first string. */
  lemma JoinedCons(first: seq<Byte>, rest: seq<seq<Byte>>, delimiter: seq<Byte>)
    requires |rest| > 0
    ensures Joined([first] + rest, delimiter) == first + delimiter + Joined(rest, delimiter)
  {
    JoinedSplit([first] + rest, delimiter, 1);
    assert ([first] + rest)[..1] == [first];
    assert ([first] + rest)[1..] == rest;
  }

  /** The parts so far, one more part, and the parts still to come. */
  lemma Regroup(parts: seq<Slice>, later: seq<Slice>, part: Slice, rest: seq<Slice>, whole: seq<Slice>)
    requires parts + later == whole && later == [part] + rest
    ensures (parts + [part]) + rest == whole
  {
    assert (parts + [part]) + rest == parts + ([part] + rest);
  }

  /** The parts still to come, written another way. */
  lemma Rewrite(parts: seq<Slice>, later: seq<Slice>, rest: seq<Slice>, whole: seq<Slice>)
    requires parts + later == whole && later == rest
    ensures parts + rest == whole
  {
  }

  // split(char)

  /** The parts `split(char)` produces from `oldpos == from` on. */
  function SplitCharFrom(s: seq<Byte>, delimiter: Byte, from: nat): (r: seq<Slice>)
    requires from <= |s|
    ensures |r| > 0
    decreases |s| - from
  {
    var found := if from < |s| then FirstOfFrom(s, [delimiter], true, from) else None;
    if found.None? then [Slice(from, |s|)]
    else [Slice(from, found.value)] + SplitCharFrom(s, delimiter, found.value + 1)
  }

  /** `split(char)`: nothing for an empty view. */
  function SplitChar(s: seq<Byte>, delimiter: Byte): seq<Slice>
  {
    if |s| == 0 then [] else SplitCharFrom(s, delimiter, 0)
  }

  /** The parts of `split(char)` are slices of the view, in order. */
  lemma {:induction false} SplitCharFromSlices(s: seq<Byte>, delimiter: Byte, from: nat)
    requires from <= |s|
    ensures Slices(s, SplitCharFrom(s, delimiter, from))
    ensures SplitCharFrom(s, delimiter, from)[0].begin == from
    decreases |s| - from
  {
    var found := if from < |s| then FirstOfFrom(s, [delimiter], true, from) else None;
    if found.Some? {
      SplitCharFromSlices(s, delimiter, found.value + 1);
    }
  }

  /** No part of `split(char)` holds the delimiter. */
  lemma {:induction false} SplitCharFromAvoids(s: seq<Byte>, delimiter: Byte, from: nat)
    requires from <= |s|
    ensures forall t :: t in Texts(s, SplitCharFrom(s, delimiter, from)) ==> delimiter !in t
    decreases |s| - from
  {
    var found := if from < |s| then FirstOfFrom(s, [delimiter], true, from) else None;
    if from < |s| {
      FirstOfFromIsFirst(s, [delimiter], true, from);
    }
    if found.None? {
      TextsCons(s, Slice(from, |s|), []);
      assert PartText(s, Slice(from, |s|)) == s[from..];
      assert forall j :: 0 <= j < |s| - from ==> s[from..][j] == s[from + j];
    } else {
      var pos := found.value;
      TextsCons(s, Slice(from, pos), SplitCharFrom(s, delimiter, pos + 1));
      assert PartText(s, Slice(from, pos)) == s[from..pos];
      assert forall j :: 0 <= j < pos - from ==> s[from..pos][j] == s[from + j];
      SplitCharFromAvoids(s, delimiter, pos + 1);
    }
  }

  /** A delimiter found: the first part, the delimiter and the joined rest are the rest of the view. */
  lemma SplitCharJoinsFound(s: seq<Byte>, delimiter: Byte, from: nat)
    requires from < |s| && FirstOfFrom(s, [delimiter], true, from).Some?
    requires var pos := FirstOfFrom(s, [delimiter], true, from).value;
      Joined(Texts(s, SplitCharFrom(s, delimiter, pos + 1)), [delimiter]) == s[pos + 1..]
    ensures Joined(Texts(s, SplitCharFrom(s, delimiter, from)), [delimiter]) == s[from..]
  {
    var pos := FirstOfFrom(s, [delimiter], true, from).value;
    var rest := SplitCharFrom(s, delimiter, pos + 1);
    assert SplitCharFrom(s, delimiter, from) == [Slice(from, pos)] + rest;
    TextsCons(s, Slice(from, pos), rest);
    assert PartText(s, Slice(from, pos)) == s[from..pos];
    JoinedCons(s[from..pos], Texts(s, rest), [delimiter]);
    CutAt(s, from, pos);
  }

  /** No delimiter left: the single last part is the rest of the view. */
  lemma SplitCharJoinsLast(s: seq<Byte>, delimiter: Byte, from: nat)
    requires from <= |s|
    requires from == |s| || FirstOfFrom(s, [delimiter], true, from).None?
    ensures Joined(Texts(s, SplitCharFrom(s, delimiter, from)), [delimiter]) == s[from..]
  {
    assert SplitCharFrom(s, delimiter, from) == [Slice(from, |s|)];
    TextsCons(s, Slice(from, |s|), []);
    assert PartText(s, Slice(from, |s|)) == s[from..];
  }

  /** Joining the parts with the delimiter gives back the rest of the view. */
  lemma {:induction false} SplitCharFromJoins(s: seq<Byte>, delimiter: Byte, from: nat)
    requires from <= |s|
    ensures Joined(Texts(s, SplitCharFrom(s, delimiter, from)), [delimiter]) == s[from..]
    decreases |s| - from
  {
    if from < |s| && FirstOfFrom(s, [delimiter], true, from).Some? {
      SplitCharFromJoins(s, delimiter, FirstOfFrom(s, [delimiter], true, from).value + 1);
      SplitCharJoinsFound(s, delimiter, from);
    } else {
      SplitCharJoinsLast(s, delimiter, from);
    }
  }

  /** The delimiter at the first offset holding it adds one to the count of what follows. */
  lemma CountAfterFirst(t: seq<Byte>, c: Byte, from: nat, p: nat)
    requires from <= p < |t| && t[p] == c
    requires forall j :: from <= j < p ==> t[j] != c
    ensures multiset(t[from..])[c] == multiset(t[p + 1..])[c] + 1
  {
    assert t[from..] == t[from..p] + [c] + t[p + 1..];
    assert forall j :: 0 <= j < p - from ==> t[from..p][j] == t[from + j];
    assert c !in t[from..p];
    assert multiset(t[from..]) == multiset(t[from..p]) + multiset([c]) + multiset(t[p + 1..]);
  }

  /** A delimiter found from `from` on is counted once before what follows it. */
  lemma CountFound(s: seq<Byte>, c: Byte, from: nat)
    requires from < |s| && FirstOfFrom(s, [c], true, from).Some?
    ensures var pos := FirstOfFrom(s, [c], true, from).value;
      Count(s[from..], c) == Count(s[pos + 1..], c) + 1
  {
    var pos := FirstOfFrom(s, [c], true, from).value;
    FirstOfFromIsFirst(s, [c], true, from);
    CountIsMultiplicity(s[from..], c);
    CountIsMultiplicity(s[pos + 1..], c);
    CountAfterFirst(s, c, from, pos);
  }

  /** No delimiter found from `from` on: none to count. */
  lemma CountNotFound(s: seq<Byte>, c: Byte, from: nat)
    requires from <= |s|
    requires from == |s| || FirstOfFrom(s, [c], true, from).None?
    ensures Count(s[from..], c) == 0
  {
    if from < |s| {
      FirstOfFromIsFirst(s, [c], true, from);
    }
    CountIsMultiplicity(s[from..], c);
    assert forall j :: 0 <= j < |s| - from ==> s[from..][j] == s[from + j];
    assert c !in s[from..];
  }

  /** There is one part more than there are delimiters. */
  lemma {:induction false} SplitCharFromCount(s: seq<Byte>, delimiter: Byte, from: nat)
    requires from <= |s|
    ensures |SplitCharFrom(s, delimiter, from)| == Count(s[from..], delimiter) + 1
    decreases |s| - from
  {
    var found := if from < |s| then FirstOfFrom(s, [delimiter], true, from) else None;
    if found.Some? {
      SplitCharFromCount(s, delimiter, found.value + 1);
      CountFound(s, delimiter, from);
    } else {
      CountNotFound(s, delimiter, from);
    }
  }

  /**
   * `split(char)` in full: the parts are slices of the view that join back
   * to it, hold no delimiter, and number one more than the delimiters (none
   * for an empty view).
   */
  lemma SplitCharProperties(s: seq<Byte>, delimiter: Byte)
    ensures Slices(s, SplitChar(s, delimiter))
    ensures Joined(Texts(s, SplitChar(s, delimiter)), [delimiter]) == s
    ensures forall t :: t in Texts(s, SplitChar(s, delimiter)) ==> delimiter !in t
    ensures |SplitChar(s, delimiter)| == if |s| == 0 then 0 else Count(s, delimiter) + 1
  {
    if |s| > 0 {
      SplitCharFromSlices(s, delimiter, 0);
      SplitCharFromJoins(s, delimiter, 0);
      SplitCharFromCount(s, delimiter, 0);
      SplitCharFromAvoids(s, delimiter, 0);
      assert s[0..] == s;
    }
  }

  /** The view ends the `split(char)` parts with the empty suffix. */
  lemma SplitCharFromEnd(s: seq<Byte>, delimiter: Byte, parts: seq<Slice>, whole: seq<Slice>)
    requires parts + SplitCharFrom(s, delimiter, |s|) == whole
    ensures SplitCharFrom(s, delimiter, |s|) == [Slice(|s|, |s|)]
    ensures parts + [Slice(|s|, |s|)] == whole
  {
    Rewrite(parts, SplitCharFrom(s, delimiter, |s|), [Slice(|s|, |s|)], whole);
  }

  /** One turn of the `split(char)` loop: the `memchr` result on the rest of the view cuts the next part. */
  lemma SplitCharAdvance(s: seq<Byte>, delimiter: Byte, from: nat, found: Option<nat>, parts: seq<Slice>, whole: seq<Slice>)
    requires from < |s| && found == FindCharacter(s[from..], delimiter)
    requires parts + SplitCharFrom(s, delimiter, from) == whole
    ensures found.Some? ==> from + found.value < |s|
    ensures found.Some? ==>
      (parts + [Slice(from, from + found.value)]) + SplitCharFrom(s, delimiter, from + found.value + 1) == whole
    ensures found.None? ==> parts + [Slice(from, |s|)] == whole
  {
    FirstOfFromSuffix(s, [delimiter], true, from, 0);
    if found.Some? {
      var rest := SplitCharFrom(s, delimiter, from + found.value + 1);
      assert SplitCharFrom(s, delimiter, from) == [Slice(from, from + found.value)] + rest;
      Regroup(parts, SplitCharFrom(s, delimiter, from), Slice(from, from + found.value), rest, whole);
    }
  }

  /**
   * The body of the `split(char)` loop: `memchr` from `oldpos`; a delimiter
   * ends the next part, and no delimiter ends the loop.
   */
  method SplitStep(s: seq<Byte>, delimiter: Byte, oldpos: nat, parts: seq<Slice>, ghost whole: seq<Slice>)
    returns (found: bool, nextParts: seq<Slice>, next: nat)
    requires oldpos < |s|
    requires parts + SplitCharFrom(s, delimiter, oldpos) == whole
    ensures found ==> oldpos < next <= |s| && nextParts + SplitCharFrom(s, delimiter, next) == whole
    ensures !found ==> next == oldpos && nextParts == parts && parts + [Slice(oldpos, |s|)] == whole
  {
    var pos := FindCharacter(s[oldpos..], delimiter);
    SplitCharAdvance(s, delimiter, oldpos, pos, parts, whole);
    if pos.None? {
      return false, parts, oldpos;
    }
    found := true;
    nextParts := parts + [Slice(oldpos, oldpos + pos.value)];
    next := oldpos + pos.value + 1;
  }

  /** `split(char)`: `memchr` from `oldpos` until no delimiter is left, then the suffix. */
  method Split(s: seq<Byte>, delimiter: Byte) returns (parts: seq<Slice>)
    ensures parts == SplitChar(s, delimiter)
  {
    ghost var whole := SplitCharFrom(s, delimiter, 0);
    parts := [];
    var oldpos: nat := 0;
    while oldpos < |s|
      invariant oldpos <= |s|
      invariant parts + SplitCharFrom(s, delimiter, oldpos) == whole
      decreases |s| - oldpos
    {
      var found, nextParts, next := SplitStep(s, delimiter, oldpos, parts, whole);
      if !found {
        break;
      }
      parts, oldpos := nextParts, next;
    }
    if oldpos == |s| {
      SplitCharFromEnd(s, delimiter, parts, whole);
    }
    if |s| > 0 {
      parts := parts + [Slice(oldpos, |s|)];
    } else {
      assert |parts| == 0;
    }
  }

  // split(StringView)

  /** The parts `split(StringView)` produces from `oldpos == from` on. */
  function SplitStringFrom(s: seq<Byte>, delimiter: seq<Byte>, from: nat): (r: seq<Slice>)
    requires |delimiter| > 0 && from <= |s|
    ensures |r| > 0
    decreases |s| - from
  {
    var found := if from < |s| then FirstMatchFrom(s, delimiter, from) else None;
    if found.None? then [Slice(from, |s|)]
    else [Slice(from, found.value)] + SplitStringFrom(s, delimiter, found.value + |delimiter|)
  }

  /** `split(StringView)`: nothing for an empty view. */
  function SplitString(s: seq<Byte>, delimiter: seq<Byte>): seq<Slice>
    requires |delimiter| > 0
  {
    if |s| == 0 then [] else SplitStringFrom(s, delimiter, 0)
  }

  /** The parts of `split(StringView)` are slices of the view, in order. */
  lemma {:induction false} SplitStringFromSlices(s: seq<Byte>, delimiter: seq<Byte>, from: nat)
    requires |delimiter| > 0 && from <= |s|
    ensures Slices(s, SplitStringFrom(s, delimiter, from))
    ensures SplitStringFrom(s, delimiter, from)[0].begin == from
    decreases |s| - from
  {
    var found := if from < |s| then FirstMatchFrom(s, delimiter, from) else None;
    if found.Some? {
      SplitStringFromSlices(s, delimiter, found.value + |delimiter|);
    }
  }

  /** No part of `split(StringView)` contains the delimiter. */
  lemma {:induction false} SplitStringFromFree(s: seq<Byte>, delimiter: seq<Byte>, from: nat)
    requires |delimiter| > 0 && from <= |s|
    ensures forall t :: t in Texts(s, SplitStringFrom(s, delimiter, from)) ==> Free(t, delimiter)
    decreases |s| - from
  {
    var found := if from < |s| then FirstMatchFrom(s, delimiter, from) else None;
    FirstMatchFromIsFirst(s, delimiter, from);
    if found.None? {
      TextsCons(s, Slice(from, |s|), []);
      assert PartText(s, Slice(from, |s|)) == s[from..|s|];
      FreeBetween(s, delimiter, from, |s|);
    } else {
      var pos := found.value;
      TextsCons(s, Slice(from, pos), SplitStringFrom(s, delimiter, pos + |delimiter|));
      assert PartText(s, Slice(from, pos)) == s[from..pos];
      FreeBetween(s, delimiter, from, pos);
      SplitStringFromFree(s, delimiter, pos + |delimiter|);
    }
  }

  /** Joining the parts with the delimiter gives back the rest of the view. */
  lemma {:induction false} SplitStringFromJoins(s: seq<Byte>, delimiter: seq<Byte>, from: nat)
    requires |delimiter| > 0 && from <= |s|
    ensures Joined(Texts(s, SplitStringFrom(s, delimiter, from)), delimiter) == s[from..]
    decreases |s| - from
  {
    var found := if from < |s| then FirstMatchFrom(s, delimiter, from) else None;
    if found.Some? {
      var pos := found.value;
      var end := pos + |delimiter|;
      var first := Slice(from, pos);
      var rest := SplitStringFrom(s, delimiter, end);
      assert SplitStringFrom(s, delimiter, from) == [first] + rest;
      FirstMatchFromIsFirst(s, delimiter, from);
      assert s[pos..end] == delimiter;
      SplitStringFromJoins(s, delimiter, end);
      TextsCons(s, first, rest);
      assert |Texts(s, rest)| > 0;
      JoinedCons(s[from..pos], Texts(s, rest), delimiter);
      Pieces(s, from, pos, end);
    } else {
      assert SplitStringFrom(s, delimiter, from) == [Slice(from, |s|)];
      TextsCons(s, Slice(from, |s|), []);
    }
  }

  /**
   * Where `split(StringView)` cuts: every part but the last ends at the
   * first delimiter found from its start, the next part begins right after
   * that delimiter, and the last part, from which no delimiter is found,
   * runs to the end of the view.
   */
  predicate LeftmostCuts(s: seq<Byte>, delimiter: seq<Byte>, parts: seq<Slice>) {
    && |parts| > 0
    && (forall k :: 0 <= k < |parts| - 1 ==>
          && FirstMatchFrom(s, delimiter, parts[k].begin) == Some(parts[k].end)
          && parts[k + 1].begin == parts[k].end + |delimiter|)
    && FirstMatchFrom(s, delimiter, parts[|parts| - 1].begin).None?
    && parts[|parts| - 1].end == |s|
  }

  /** The parts from `from` on are cut at the leftmost delimiters. */
  lemma {:induction false} SplitStringFromCuts(s: seq<Byte>, delimiter: seq<Byte>, from: nat)
    requires |delimiter| > 0 && from <= |s|
    ensures LeftmostCuts(s, delimiter, SplitStringFrom(s, delimiter, from))
    ensures SplitStringFrom(s, delimiter, from)[0].begin == from
    decreases |s| - from
  {
    var found := if from < |s| then FirstMatchFrom(s, delimiter, from) else None;
    if found.Some? {
      var next := found.value + |delimiter|;
      var rest := SplitStringFrom(s, delimiter, next);
      var parts := [Slice(from, found.value)] + rest;
      assert SplitStringFrom(s, delimiter, from) == parts;
      SplitStringFromCuts(s, delimiter, next);
      forall k | 0 <= k < |parts| - 1
        ensures FirstMatchFrom(s, delimiter, parts[k].begin) == Some(parts[k].end)
        ensures parts[k + 1].begin == parts[k].end + |delimiter|
      {
        if k > 0 {
          assert parts[k] == rest[k - 1] && parts[k + 1] == rest[k];
        }
      }
      assert parts[|parts| - 1] == rest[|rest| - 1];
    }
  }

  /**
   * `split(StringView)` in full: the parts are slices of the view that join
   * back to it with the delimiter, and none of them contains the delimiter;
   * each is cut at the first delimiter from its start.
   */
  lemma SplitStringProperties(s: seq<Byte>, delimiter: seq<Byte>)
    requires |delimiter| > 0
    ensures Slices(s, SplitString(s, delimiter))
    ensures Joined(Texts(s, SplitString(s, delimiter)), delimiter) == s
    ensures forall t :: t in Texts(s, SplitString(s, delimiter)) ==> Free(t, delimiter)
    ensures |s| == 0 <==> SplitString(s, delimiter) == []
    ensures |s| > 0 ==> SplitString(s, delimiter)[0].begin == 0 && LeftmostCuts(s, delimiter, SplitString(s, delimiter))
  {
    if |s| > 0 {
      SplitStringFromCuts(s, delimiter, 0);
      SplitStringFromSlices(s, delimiter, 0);
      SplitStringFromJoins(s, delimiter, 0);
      SplitStringFromFree(s, delimiter, 0);
      assert s[0..] == s;
    }
  }

  /** The view ends the `split(StringView)` parts with the empty suffix. */
  lemma SplitStringFromEnd(s: seq<Byte>, delimiter: seq<Byte>, parts: seq<Slice>, whole: seq<Slice>)
    requires |delimiter| > 0 && parts + SplitStringFrom(s, delimiter, |s|) == whole
    ensures SplitStringFrom(s, delimiter, |s|) == [Slice(|s|, |s|)]
    ensures parts + [Slice(|s|, |s|)] == whole
  {
    Rewrite(parts, SplitStringFrom(s, delimiter, |s|), [Slice(|s|, |s|)], whole);
  }

  /** One turn of the `split(StringView)` loop: the `stringFindString` result on the rest of the view cuts the next part. */
  lemma SplitStringAdvance(s: seq<Byte>, delimiter: seq<Byte>, from: nat, found: Option<nat>, parts: seq<Slice>, whole: seq<Slice>)
    requires |delimiter| > 0 && from < |s| && found == FirstMatch(s[from..], delimiter)
    requires parts + SplitStringFrom(s, delimiter, from) == whole
    ensures found.Some? ==> from + found.value + |delimiter| <= |s|
    ensures found.Some? ==>
      (parts + [Slice(from, from + found.value)]) + SplitStringFrom(s, delimiter, from + found.value + |delimiter|) == whole
    ensures found.None? ==> parts + [Slice(from, |s|)] == whole
  {
    FirstMatchFromSuffix(s, delimiter, from, 0);
    if found.Some? {
      var rest := SplitStringFrom(s, delimiter, from + found.value + |delimiter|);
      assert SplitStringFrom(s, delimiter, from) == [Slice(from, from + found.value)] + rest;
      Regroup(parts, SplitStringFrom(s, delimiter, from), Slice(from, from + found.value), rest, whole);
    }
  }

  /**
   * The body of the `split(StringView)` loop: `stringFindString` from
   * `oldpos`; a delimiter ends the next part, and no delimiter ends the loop.
   */
  method SplitOnStringStep(s: seq<Byte>, delimiter: seq<Byte>, oldpos: nat, parts: seq<Slice>, ghost whole: seq<Slice>)
    returns (found: bool, nextParts: seq<Slice>, next: nat)
    requires |delimiter| > 0 && oldpos < |s|
    requires parts + SplitStringFrom(s, delimiter, oldpos) == whole
    ensures found ==> oldpos < next <= |s| && nextParts + SplitStringFrom(s, delimiter, next) == whole
    ensures !found ==> next == oldpos && nextParts == parts && parts + [Slice(oldpos, |s|)] == whole
  {
    var pos := FindString(s[oldpos..], delimiter);
    SplitStringAdvance(s, delimiter, oldpos, pos, parts, whole);
    if pos.None? {
      return false, parts, oldpos;
    }
    found := true;
    nextParts := parts + [Slice(oldpos, oldpos + pos.value)];
    next := oldpos + pos.value + |delimiter|;
  }

  /** `split(StringView)`: `stringFindString` from `oldpos` until no delimiter is left, then the suffix. */
  method SplitOnString(s: seq<Byte>, delimiter: seq<Byte>) returns (parts: seq<Slice>)
    requires |delimiter| > 0
    ensures parts == SplitString(s, delimiter)
  {
    ghost var whole := SplitStringFrom(s, delimiter, 0);
    parts := [];
    var oldpos: nat := 0;
    while oldpos < |s|
      invariant oldpos <= |s|
      invariant parts + SplitStringFrom(s, delimiter, oldpos) == whole
      decreases |s| - oldpos
    {
      var found, nextParts, next := SplitOnStringStep(s, delimiter, oldpos, parts, whole);
      if !found {
        break;
      }
      parts, oldpos := nextParts, next;
    }
    if oldpos == |s| {
      SplitStringFromEnd(s, delimiter, parts, whole);
    }
    if |s| > 0 {
      parts := parts + [Slice(oldpos, |s|)];
    } else {
      assert |parts| == 0;
    }
  }

  // splitWithoutEmptyParts(char) and splitOnAnyWithoutEmptyParts(StringView)

  /** Where the part starting at `from` ends: the next of the delimiters, or the end of the view. */
  function PartEnd(s: seq<Byte>, delimiters: seq<Byte>, from: nat): (r: nat)
    requires from < |s|
    ensures from <= r <= |s|
  {
    var found := FirstOfFrom(s, delimiters, true, from);
    if found.Some? then found.value else |s|
  }

  /**
   * The parts both loops without empty parts produce from `oldpos == from`
   * on: the bytes up to the next delimiter, unless there are none, and then
   * the parts after that delimiter.
   */
  function SplitNonEmptyFrom(s: seq<Byte>, delimiters: seq<Byte>, from: nat): seq<Slice>
    decreases |s| - from
  {
    if from >= |s| then []
    else
      var pos := PartEnd(s, delimiters, from);
      (if pos != from then [Slice(from, pos)] else []) + SplitNonEmptyFrom(s, delimiters, pos + 1)
  }

  /** `splitWithoutEmptyParts(char)`. */
  function SplitCharWithoutEmptyParts(s: seq<Byte>, delimiter: Byte): seq<Slice>
  {
    SplitNonEmptyFrom(s, [delimiter], 0)
  }

  /** `splitOnAnyWithoutEmptyParts(StringView)`. */
  function SplitOnAnyWithoutEmptyParts(s: seq<Byte>, delimiters: seq<Byte>): seq<Slice>
  {
    SplitNonEmptyFrom(s, delimiters, 0)
  }

  /** A one-string sequence without its empty strings. */
  lemma NonEmptySingle(t: seq<Byte>)
    ensures NonEmpty([t]) == if t == [] then [] else [t]
  {
    NonEmptySnoc([], t);
    assert [] + [t] == [t];
  }

  /** At the end of the view the plain split has one empty part, which is dropped. */
  lemma FiltersAtEnd(s: seq<Byte>, delimiter: Byte)
    ensures Texts(s, SplitNonEmptyFrom(s, [delimiter], |s|))
         == NonEmpty(Texts(s, SplitCharFrom(s, delimiter, |s|)))
  {
    var last := Slice(|s|, |s|);
    assert SplitCharFrom(s, delimiter, |s|) == [last];
    TextsCons(s, last, []);
    assert PartText(s, last) == [];
    NonEmptySingle([]);
  }

  /** The first part is kept exactly when its text is not empty. */
  lemma FirstPartFiltered(s: seq<Byte>, from: nat, pos: nat)
    requires from <= pos <= |s|
    ensures Texts(s, if pos != from then [Slice(from, pos)] else []) == NonEmpty([PartText(s, Slice(from, pos))])
  {
    NonEmptySingle(PartText(s, Slice(from, pos)));
    assert |PartText(s, Slice(from, pos))| == pos - from;
    if pos != from {
      TextsCons(s, Slice(from, pos), []);
    }
  }

  /** A delimiter found: the first part is kept when it is not empty, then the rest is filtered alike. */
  lemma FiltersFound(s: seq<Byte>, delimiter: Byte, from: nat)
    requires from < |s| && !FirstOfFrom(s, [delimiter], true, from).None?
    requires Texts(s, SplitNonEmptyFrom(s, [delimiter], PartEnd(s, [delimiter], from) + 1))
          == NonEmpty(Texts(s, SplitCharFrom(s, delimiter, PartEnd(s, [delimiter], from) + 1)))
    ensures Texts(s, SplitNonEmptyFrom(s, [delimiter], from))
         == NonEmpty(Texts(s, SplitCharFrom(s, delimiter, from)))
  {
    var pos := PartEnd(s, [delimiter], from);
    var first := Slice(from, pos);
    var part := if pos != from then [first] else [];
    var rest := SplitNonEmptyFrom(s, [delimiter], pos + 1);
    var plainRest := SplitCharFrom(s, delimiter, pos + 1);
    assert SplitNonEmptyFrom(s, [delimiter], from) == part + rest;
    assert SplitCharFrom(s, delimiter, from) == [first] + plainRest;
    TextsAppend(s, part, rest);
    TextsCons(s, first, plainRest);
    NonEmptyAppend([PartText(s, first)], Texts(s, plainRest));
    FirstPartFiltered(s, from, pos);
  }

  /** No delimiter left: both splits end with the rest of the view, which is not empty. */
  lemma FiltersLast(s: seq<Byte>, delimiter: Byte, from: nat)
    requires from < |s| && FirstOfFrom(s, [delimiter], true, from).None?
    ensures Texts(s, SplitNonEmptyFrom(s, [delimiter], from))
         == NonEmpty(Texts(s, SplitCharFrom(s, delimiter, from)))
  {
    var first := Slice(from, |s|);
    assert SplitCharFrom(s, delimiter, from) == [first];
    assert SplitNonEmptyFrom(s, [delimiter], |s| + 1) == [];
    assert SplitNonEmptyFrom(s, [delimiter], from) == [first] + [];
    TextsCons(s, first, []);
    NonEmptySingle(PartText(s, first));
  }

  /** Skipping empty parts is the plain split with its empty parts removed. */
  lemma {:induction false} SplitNonEmptyFromFilters(s: seq<Byte>, delimiter: Byte, from: nat)
    requires from <= |s|
    ensures Texts(s, SplitNonEmptyFrom(s, [delimiter], from))
         == NonEmpty(Texts(s, SplitCharFrom(s, delimiter, from)))
    decreases |s| - from
  {
    if from == |s| {
      FiltersAtEnd(s, delimiter);
    } else if FirstOfFrom(s, [delimiter], true, from).None? {
      FiltersLast(s, delimiter, from);
    } else {
      SplitNonEmptyFromFilters(s, delimiter, PartEnd(s, [delimiter], from) + 1);
      FiltersFound(s, delimiter, from);
    }
  }

  /** The parts without empty parts are slices of the view. */
  lemma {:induction false} SplitNonEmptyFromSlices(s: seq<Byte>, delimiters: seq<Byte>, from: nat)
    ensures Slices(s, SplitNonEmptyFrom(s, delimiters, from))
    decreases |s| - from
  {
    if from < |s| {
      SplitNonEmptyFromSlices(s, delimiters, PartEnd(s, delimiters, from) + 1);
    }
  }

  /**
   * `splitWithoutEmptyParts(char)` is `split(char)` without its empty
   * parts; so its parts are slices of the view, none of them empty.
   */
  lemma SplitCharWithoutEmptyPartsIsFiltered(s: seq<Byte>, delimiter: Byte)
    ensures Slices(s, SplitCharWithoutEmptyParts(s, delimiter))
    ensures Texts(s, SplitCharWithoutEmptyParts(s, delimiter)) == NonEmpty(Texts(s, SplitChar(s, delimiter)))
    ensures forall k :: 0 <= k < |Texts(s, SplitCharWithoutEmptyParts(s, delimiter))| ==>
      Texts(s, SplitCharWithoutEmptyParts(s, delimiter))[k] != []
    ensures Apart(SplitCharWithoutEmptyParts(s, delimiter))
    ensures CutAtDelimiters(s, SplitCharWithoutEmptyParts(s, delimiter), [delimiter])
  {
    SplitNonEmptyFromCuts(s, [delimiter], 0);
    SplitNonEmptyFromSlices(s, [delimiter], 0);
    if |s| > 0 {
      SplitNonEmptyFromFilters(s, delimiter, 0);
    }
  }

  /** Every text of `parts` is non-empty and avoids `chars`. */
  predicate AllAvoid(s: seq<Byte>, parts: seq<Slice>, chars: seq<Byte>) {
    forall t :: t in Texts(s, parts) ==> t != [] && Avoids(t, chars)
  }

  /** `AllAvoid` of concatenated parts. */
  lemma AllAvoidAppend(s: seq<Byte>, a: seq<Slice>, b: seq<Slice>, chars: seq<Byte>)
    requires AllAvoid(s, a, chars) && AllAvoid(s, b, chars)
    ensures AllAvoid(s, a + b, chars)
  {
    TextsAppend(s, a, b);
  }

  /** A single part avoiding `chars`. */
  lemma AllAvoidSingle(s: seq<Byte>, from: nat, pos: nat, chars: seq<Byte>)
    requires from < pos <= |s|
    requires forall j :: from <= j < pos ==> !Selected(chars, true, s[j])
    ensures AllAvoid(s, [Slice(from, pos)], chars)
  {
    TextsCons(s, Slice(from, pos), []);
    AvoidsBetween(s, chars, from, pos);
  }

  /** The first part, when it is not empty, avoids the delimiters, and so do the parts after it. */
  lemma AvoidsStep(s: seq<Byte>, delimiters: seq<Byte>, from: nat)
    requires from < |s|
    requires AllAvoid(s, SplitNonEmptyFrom(s, delimiters, PartEnd(s, delimiters, from) + 1), delimiters)
    ensures AllAvoid(s, SplitNonEmptyFrom(s, delimiters, from), delimiters)
  {
    var pos := PartEnd(s, delimiters, from);
    var part := if pos != from then [Slice(from, pos)] else [];
    var rest := SplitNonEmptyFrom(s, delimiters, pos + 1);
    assert SplitNonEmptyFrom(s, delimiters, from) == part + rest;
    if pos != from {
      FirstOfFromIsFirst(s, delimiters, true, from);
      AllAvoidSingle(s, from, pos, delimiters);
    } else {
      assert Texts(s, part) == [];
    }
    AllAvoidAppend(s, part, rest, delimiters);
  }

  /** Every part without empty parts is non-empty and holds no delimiter. */
  lemma {:induction false} SplitNonEmptyFromAvoids(s: seq<Byte>, delimiters: seq<Byte>, from: nat)
    ensures AllAvoid(s, SplitNonEmptyFrom(s, delimiters, from), delimiters)
    decreases |s| - from
  {
    if from < |s| {
      SplitNonEmptyFromAvoids(s, delimiters, PartEnd(s, delimiters, from) + 1);
      AvoidsStep(s, delimiters, from);
    } else {
      assert SplitNonEmptyFrom(s, delimiters, from) == [];
    }
  }

  /** The strings one after the other. */
  function Flatten(strings: seq<seq<Byte>>): seq<Byte>
  {
    if |strings| == 0 then [] else strings[0] + Flatten(strings[1..])
  }

  /** Flattening distributes over concatenation. */
  lemma {:induction false} FlattenAppend(a: seq<seq<Byte>>, b: seq<seq<Byte>>)
    ensures Flatten(a + b) == Flatten(a) + Flatten(b)
  {
    if |a| > 0 {
      FlattenAppend(a[1..], b);
      assert (a + b)[1..] == a[1..] + b;
    } else {
      assert a + b == b;
    }
  }

  /** `t` without the bytes that are among `chars`. */
  function Without(t: seq<Byte>, chars: seq<Byte>): seq<Byte>
  {
    if |t| == 0 then [] else (if t[0] in chars then [] else [t[0]]) + Without(t[1..], chars)
  }

  /** Removing bytes distributes over concatenation. */
  lemma {:induction false} WithoutAppend(a: seq<Byte>, b: seq<Byte>, chars: seq<Byte>)
    ensures Without(a + b, chars) == Without(a, chars) + Without(b, chars)
  {
    if |a| > 0 {
      WithoutAppend(a[1..], b, chars);
      assert (a + b)[1..] == a[1..] + b;
    } else {
      assert a + b == b;
    }
  }

  /** Nothing is removed from a text that avoids the bytes. */
  lemma {:induction false} WithoutAvoiding(t: seq<Byte>, chars: seq<Byte>)
    requires Avoids(t, chars)
    ensures Without(t, chars) == t
  {
    if |t| > 0 {
      WithoutAvoiding(t[1..], chars);
    }
  }

  /** The text of a part that is kept unless it is empty. */
  lemma FlattenPart(s: seq<Byte>, from: nat, pos: nat)
    requires from <= pos <= |s|
    ensures Flatten(Texts(s, if pos != from then [Slice(from, pos)] else [])) == s[from..pos]
  {
    if pos != from {
      TextsCons(s, Slice(from, pos), []);
      assert PartText(s, Slice(from, pos)) == s[from..pos];
      assert Flatten([s[from..pos]]) == s[from..pos] + Flatten([]);
    }
  }

  /** Dropping the delimiters from the rest of the view keeps everything before the first one. */
  lemma WithoutUpTo(s: seq<Byte>, delimiters: seq<Byte>, from: nat, pos: nat)
    requires from < |s| && FirstOfFrom(s, delimiters, true, from) == Some(pos)
    ensures Without(s[from..], delimiters) == s[from..pos] + Without(s[pos + 1..], delimiters)
  {
    calc {
      Without(s[from..], delimiters);
      { CutAt(s, from, pos); }
      Without(s[from..pos] + ([s[pos]] + s[pos + 1..]), delimiters);
      { WithoutAppend(s[from..pos], [s[pos]] + s[pos + 1..], delimiters); }
      Without(s[from..pos], delimiters) + Without([s[pos]] + s[pos + 1..], delimiters);
      { FirstOfFromIsFirst(s, delimiters, true, from);
        AvoidsBetween(s, delimiters, from, pos);
        WithoutAvoiding(s[from..pos], delimiters);
        WithoutDropped(s[pos], s[pos + 1..], delimiters); }
      s[from..pos] + Without(s[pos + 1..], delimiters);
    }
  }

  /** A delimiter in front is dropped. */
  lemma WithoutDropped(c: Byte, t: seq<Byte>, chars: seq<Byte>)
    requires c in chars
    ensures Without([c] + t, chars) == Without(t, chars)
  {
    assert ([c] + t)[1..] == t;
  }

  /** No delimiter left: the single last part is the rest of the view, which loses nothing. */
  lemma WithoutNone(s: seq<Byte>, delimiters: seq<Byte>, from: nat)
    requires from < |s| && FirstOfFrom(s, delimiters, true, from).None?
    ensures Flatten(Texts(s, SplitNonEmptyFrom(s, delimiters, from))) == Without(s[from..], delimiters)
  {
    FirstOfFromIsFirst(s, delimiters, true, from);
    AvoidsBetween(s, delimiters, from, |s|);
    assert s[from..|s|] == s[from..];
    WithoutAvoiding(s[from..], delimiters);
    assert SplitNonEmptyFrom(s, delimiters, |s| + 1) == [];
    assert SplitNonEmptyFrom(s, delimiters, from) == [Slice(from, |s|)];
    TextsCons(s, Slice(from, |s|), []);
    assert PartText(s, Slice(from, |s|)) == s[from..];
    assert Flatten([s[from..]]) == s[from..] + Flatten([]);
  }

  /** The parts, put together, are the rest of the view without the delimiters. */
  lemma {:induction false} SplitNonEmptyFromKeepsTheRest(s: seq<Byte>, delimiters: seq<Byte>, from: nat)
    requires from <= |s|
    ensures Flatten(Texts(s, SplitNonEmptyFrom(s, delimiters, from))) == Without(s[from..], delimiters)
    decreases |s| - from
  {
    if from < |s| {
      match FirstOfFrom(s, delimiters, true, from)
      case Some(pos) =>
        var part := if pos != from then [Slice(from, pos)] else [];
        var rest := SplitNonEmptyFrom(s, delimiters, pos + 1);
        assert SplitNonEmptyFrom(s, delimiters, from) == part + rest;
        SplitNonEmptyFromKeepsTheRest(s, delimiters, pos + 1);
        TextsAppend(s, part, rest);
        FlattenAppend(Texts(s, part), Texts(s, rest));
        FlattenPart(s, from, pos);
        WithoutUpTo(s, delimiters, from, pos);
      case None =>
        WithoutNone(s, delimiters, from);
    }
  }

  /** Consecutive parts are apart: each ends before the next begins. */
  predicate Apart(parts: seq<Slice>) {
    forall k :: 0 <= k < |parts| - 1 ==> parts[k].end < parts[k + 1].begin
  }

  /**
   * Every part begins at the start of the view or right after one of
   * `chars`, and ends at one of them or at the end of the view.
   */
  predicate CutAtDelimiters(s: seq<Byte>, parts: seq<Slice>, chars: seq<Byte>) {
    forall k :: 0 <= k < |parts| ==>
      && (parts[k].begin == 0 || (parts[k].begin <= |s| && s[parts[k].begin - 1] in chars))
      && (parts[k].end == |s| || (parts[k].end < |s| && s[parts[k].end] in chars))
  }

  /** Parts apart, cut at delimiters, and none beginning before `from`. */
  predicate RunsFrom(s: seq<Byte>, chars: seq<Byte>, parts: seq<Slice>, from: nat) {
    && Apart(parts) && CutAtDelimiters(s, parts, chars)
    && forall k :: 0 <= k < |parts| ==> from <= parts[k].begin
  }

  /** A part cut at delimiters, in front of parts that begin after it, keeps the parts runs between delimiters. */
  lemma PrependCut(s: seq<Byte>, chars: seq<Byte>, first: Slice, rest: seq<Slice>, parts: seq<Slice>)
    requires first.begin <= first.end && parts == [first] + rest
    requires first.begin == 0 || (first.begin <= |s| && s[first.begin - 1] in chars)
    requires first.end == |s| || (first.end < |s| && s[first.end] in chars)
    requires RunsFrom(s, chars, rest, first.end + 1)
    ensures RunsFrom(s, chars, parts, first.begin)
  {
    forall k | 0 <= k < |parts| - 1
      ensures parts[k].end < parts[k + 1].begin
    {
      assert parts[k + 1] == rest[k];
      if k > 0 {
        assert parts[k] == rest[k - 1];
      }
    }
    forall k | 0 <= k < |parts|
      ensures parts[k].begin == 0 || (parts[k].begin <= |s| && s[parts[k].begin - 1] in chars)
      ensures parts[k].end == |s| || (parts[k].end < |s| && s[parts[k].end] in chars)
      ensures first.begin <= parts[k].begin
    {
      if k > 0 {
        assert parts[k] == rest[k - 1];
      }
    }
  }

  /** A kept part in front: the parts stay runs between delimiters. */
  lemma CutsStep(s: seq<Byte>, delimiters: seq<Byte>, from: nat, pos: nat, rest: seq<Slice>)
    requires from < |s| && (from == 0 || s[from - 1] in delimiters)
    requires pos == PartEnd(s, delimiters, from) && pos != from
    requires rest == SplitNonEmptyFrom(s, delimiters, pos + 1)
    requires RunsFrom(s, delimiters, rest, pos + 1)
    ensures RunsFrom(s, delimiters, SplitNonEmptyFrom(s, delimiters, from), from)
  {
    assert pos == |s| || s[pos] in delimiters;
    PrependCut(s, delimiters, Slice(from, pos), rest, SplitNonEmptyFrom(s, delimiters, from));
  }

  /** An empty part skipped: the parts are those after the delimiter. */
  lemma CutsSkip(s: seq<Byte>, delimiters: seq<Byte>, from: nat)
    requires from < |s| && PartEnd(s, delimiters, from) == from
    requires RunsFrom(s, delimiters, SplitNonEmptyFrom(s, delimiters, from + 1), from + 1)
    ensures RunsFrom(s, delimiters, SplitNonEmptyFrom(s, delimiters, from), from)
  {
    assert SplitNonEmptyFrom(s, delimiters, from) == SplitNonEmptyFrom(s, delimiters, from + 1);
  }

  /** A part ends at a delimiter or at the end of the view. */
  lemma PartEndCut(s: seq<Byte>, delimiters: seq<Byte>, from: nat)
    requires from < |s|
    ensures PartEnd(s, delimiters, from) == |s| || s[PartEnd(s, delimiters, from)] in delimiters
  {
  }

  /** Every part from `from` on is a run between delimiters, and the parts are apart. */
  lemma {:induction false} SplitNonEmptyFromCuts(s: seq<Byte>, delimiters: seq<Byte>, from: nat)
    requires from == 0 || from > |s| || s[from - 1] in delimiters
    ensures RunsFrom(s, delimiters, SplitNonEmptyFrom(s, delimiters, from), from)
    decreases |s| - from
  {
    if from < |s| {
      var pos := PartEnd(s, delimiters, from);
      PartEndCut(s, delimiters, from);
      SplitNonEmptyFromCuts(s, delimiters, pos + 1);
      if pos != from {
        CutsStep(s, delimiters, from, pos, SplitNonEmptyFrom(s, delimiters, pos + 1));
      } else {
        CutsSkip(s, delimiters, from);
      }
    }
  }

  /**
   * `splitOnAnyWithoutEmptyParts` in full: the parts are slices of the view,
   * each non-empty and holding none of the delimiters, and together they
   * are the view with the delimiters dropped.
   */
  lemma SplitOnAnyProperties(s: seq<Byte>, delimiters: seq<Byte>)
    ensures Slices(s, SplitOnAnyWithoutEmptyParts(s, delimiters))
    ensures Flatten(Texts(s, SplitOnAnyWithoutEmptyParts(s, delimiters))) == Without(s, delimiters)
    ensures AllAvoid(s, SplitOnAnyWithoutEmptyParts(s, delimiters), delimiters)
    ensures Apart(SplitOnAnyWithoutEmptyParts(s, delimiters))
    ensures CutAtDelimiters(s, SplitOnAnyWithoutEmptyParts(s, delimiters), delimiters)
  {
    SplitNonEmptyFromCuts(s, delimiters, 0);
    SplitNonEmptyFromSlices(s, delimiters, 0);
    SplitNonEmptyFromKeepsTheRest(s, delimiters, 0);
    SplitNonEmptyFromAvoids(s, delimiters, 0);
    assert s[0..] == s;
  }

  /** The end of the part starting at `from` is where the search of the rest of the view finds a delimiter. */
  lemma PartEndFound(s: seq<Byte>, delimiters: seq<Byte>, from: nat)
    requires from < |s|
    ensures var found := FirstOf(s[from..], delimiters, true);
      PartEnd(s, delimiters, from) == if found.Some? then from + found.value else |s|
  {
    FirstOfFromSuffix(s, delimiters, true, from, 0);
  }

  /** One turn of a loop without empty parts: the part up to `pos` unless it is empty. */
  lemma SplitNonEmptyAdvance(s: seq<Byte>, delimiters: seq<Byte>, from: nat, pos: nat, parts: seq<Slice>, whole: seq<Slice>)
    requires from < |s| && pos == PartEnd(s, delimiters, from)
    requires parts + SplitNonEmptyFrom(s, delimiters, from) == whole
    ensures pos != from ==> (parts + [Slice(from, pos)]) + SplitNonEmptyFrom(s, delimiters, pos + 1) == whole
    ensures pos == from ==> parts + SplitNonEmptyFrom(s, delimiters, pos + 1) == whole
  {
    var rest := SplitNonEmptyFrom(s, delimiters, pos + 1);
    if pos != from {
      assert SplitNonEmptyFrom(s, delimiters, from) == [Slice(from, pos)] + rest;
      Regroup(parts, SplitNonEmptyFrom(s, delimiters, from), Slice(from, pos), rest, whole);
    } else {
      assert SplitNonEmptyFrom(s, delimiters, from) == rest;
      Rewrite(parts, SplitNonEmptyFrom(s, delimiters, from), rest, whole);
    }
  }

  /**
   * One turn of a loop without empty parts, stated with the search on the
   * suffix the loop runs: the part up to `pos` unless it is empty.
   */
  lemma SplitNonEmptyTurn(s: seq<Byte>, delimiters: seq<Byte>, from: nat, found: Option<nat>, pos: nat,
                          parts: seq<Slice>, whole: seq<Slice>)
    requires from < |s| && found == FirstOf(s[from..], delimiters, true)
    requires pos == if found.Some? then from + found.value else |s|
    requires parts + SplitNonEmptyFrom(s, delimiters, from) == whole
    ensures from <= pos <= |s|
    ensures (if pos != from then parts + [Slice(from, pos)] else parts) + SplitNonEmptyFrom(s, delimiters, pos + 1) == whole
  {
    PartEndFound(s, delimiters, from);
    SplitNonEmptyAdvance(s, delimiters, from, pos, parts, whole);
  }

  /** Past the end of the view no parts are left. */
  lemma SplitNonEmptyDone(s: seq<Byte>, delimiters: seq<Byte>, from: nat, parts: seq<Slice>, whole: seq<Slice>)
    requires from >= |s| && parts + SplitNonEmptyFrom(s, delimiters, from) == whole
    ensures parts == whole
  {
    assert SplitNonEmptyFrom(s, delimiters, from) == [];
    assert parts + [] == parts;
  }

  /**
   * The body of the `splitWithoutEmptyParts(char)` loop: `memchr` from
   * `oldpos`, a missing delimiter standing for the end; the part up to it
   * unless it is empty.
   */
  method SplitWithoutEmptyPartsStep(s: seq<Byte>, delimiter: Byte, oldpos: nat, parts: seq<Slice>, ghost whole: seq<Slice>)
    returns (nextParts: seq<Slice>, next: nat)
    requires oldpos < |s|
    requires parts + SplitNonEmptyFrom(s, [delimiter], oldpos) == whole
    ensures oldpos < next && nextParts + SplitNonEmptyFrom(s, [delimiter], next) == whole
  {
    var found := FindCharacter(s[oldpos..], delimiter);
    var pos := if found.Some? then oldpos + found.value else |s|;
    SplitNonEmptyTurn(s, [delimiter], oldpos, found, pos, parts, whole);
    nextParts := if pos != oldpos then parts + [Slice(oldpos, pos)] else parts;
    next := pos + 1;
  }

  /** `splitWithoutEmptyParts(char)`: a missing delimiter ends the last part at the end. */
  method SplitWithoutEmptyParts(s: seq<Byte>, delimiter: Byte) returns (parts: seq<Slice>)
    ensures parts == SplitCharWithoutEmptyParts(s, delimiter)
  {
    ghost var whole := SplitNonEmptyFrom(s, [delimiter], 0);
    parts := [];
    var oldpos: nat := 0;
    while oldpos < |s|
      invariant parts + SplitNonEmptyFrom(s, [delimiter], oldpos) == whole
      decreases |s| - oldpos
    {
      parts, oldpos := SplitWithoutEmptyPartsStep(s, delimiter, oldpos, parts, whole);
    }
    SplitNonEmptyDone(s, [delimiter], oldpos, parts, whole);
  }

  /**
   * The body of the `splitOnAnyWithoutEmptyParts` loop: `stringFindAny`
   * from `oldpos`; a delimiter ends the next part unless it is empty, and no
   * delimiter makes the rest of the view the last part and ends the loop.
   */
  method SplitOnAnyStep(s: seq<Byte>, delimiters: seq<Byte>, oldpos: nat, parts: seq<Slice>, ghost whole: seq<Slice>)
    returns (found: bool, nextParts: seq<Slice>, next: nat)
    requires oldpos < |s|
    requires parts + SplitNonEmptyFrom(s, delimiters, oldpos) == whole
    ensures found ==> oldpos < next && nextParts + SplitNonEmptyFrom(s, delimiters, next) == whole
    ensures !found ==> next == oldpos && nextParts == parts + [Slice(oldpos, |s|)] == whole
  {
    var pos := FindAny(s[oldpos..], delimiters);
    var end := if pos.Some? then oldpos + pos.value else |s|;
    SplitNonEmptyTurn(s, delimiters, oldpos, pos, end, parts, whole);
    nextParts := if end != oldpos then parts + [Slice(oldpos, end)] else parts;
    if pos.Some? {
      return true, nextParts, end + 1;
    } else {
      SplitNonEmptyDone(s, delimiters, end + 1, nextParts, whole);
      return false, nextParts, oldpos;
    }
  }

  /** `splitOnAnyWithoutEmptyParts`: `stringFindAny` from `oldpos`; no delimiter left ends the last part at the end. */
  method SplitOnAny(s: seq<Byte>, delimiters: seq<Byte>) returns (parts: seq<Slice>)
    ensures parts == SplitOnAnyWithoutEmptyParts(s, delimiters)
  {
    ghost var whole := SplitNonEmptyFrom(s, delimiters, 0);
    parts := [];
    var oldpos: nat := 0;
    while oldpos < |s|
      invariant parts + SplitNonEmptyFrom(s, delimiters, oldpos) == whole
      decreases |s| - oldpos
    {
      var found, nextParts, next := SplitOnAnyStep(s, delimiters, oldpos, parts, whole);
      parts := nextParts;
      if !found {
        return;
      }
      oldpos := next;
    }
    SplitNonEmptyDone(s, delimiters, oldpos, parts, whole);
  }
}
