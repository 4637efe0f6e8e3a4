/**
 * The members of the string view that build a new `String`: `join`,
 * `joinWithoutEmptyParts`, `operator+` and `operator*`.
 *
 * Each allocates the result with its final size up front and fills it with
 * `memcpy` through an advancing output offset; the returned sequence is the
 * content of that freshly written buffer.
 */
module StringJoin {
  import opened StringSearch

  /** The strings with `delimiter` between each two neighbours. */
  function Joined(strings: seq<seq<Byte>>, delimiter: seq<Byte>): seq<Byte>
  {
    if |strings| == 0 then []
    else if |strings| == 1 then strings[0]
    else Joined(strings[..|strings| - 1], delimiter) + delimiter + strings[|strings| - 1]
  }

  /** The sum of the sizes of the strings. */
  function TotalSize(strings: seq<seq<Byte>>): nat
  {
    if |strings| == 0 then 0
    else TotalSize(strings[..|strings| - 1]) + |strings[|strings| - 1]|
  }

  /** The strings that are not empty, in their order. */
  function NonEmpty(strings: seq<seq<Byte>>): (r: seq<seq<Byte>>)
    ensures forall k :: 0 <= k < |r| ==> r[k] != []
    ensures |r| <= |strings|
  {
    if |strings| == 0 then []
    else
      var last := strings[|strings| - 1];
      NonEmpty(strings[..|strings| - 1]) + (if last == [] then [] else [last])
  }

  /**
   * The joined size in closed form: the sum of the sizes plus one delimiter
   * between each two neighbours.
   */
  lemma {:induction false} JoinedLength(strings: seq<seq<Byte>>, delimiter: seq<Byte>)
    requires |strings| > 0
    ensures |Joined(strings, delimiter)| == TotalSize(strings) + (|strings| - 1) * |delimiter|
  {
    if |strings| > 1 {
      JoinedLength(strings[..|strings| - 1], delimiter);
      assert (|strings| - 1) * |delimiter| == (|strings| - 2) * |delimiter| + |delimiter|;
    }
  }

  /** Joining splits at any inner boundary: a join of two joins around one delimiter. */
  lemma {:induction false} JoinedSplit(strings: seq<seq<Byte>>, delimiter: seq<Byte>, k: nat)
    requires 0 < k < |strings|
    ensures Joined(strings, delimiter)
         == Joined(strings[..k], delimiter) + delimiter + Joined(strings[k..], delimiter)
    decreases |strings|
  {
    var n := |strings|;
    if k == n - 1 {
      assert strings[k..] == [strings[n - 1]];
    } else {
      JoinedSplit(strings[..n - 1], delimiter, k);
      assert strings[..n - 1][..k] == strings[..k];
      assert strings[..n - 1][k..] == strings[k..][..|strings[k..]| - 1];
    }
  }

  /** Joining one more string at the end adds a delimiter and that string. */
  lemma JoinedSnoc(strings: seq<seq<Byte>>, last: seq<Byte>, delimiter: seq<Byte>)
    ensures Joined(strings + [last], delimiter)
         == if |strings| == 0 then last else Joined(strings, delimiter) + delimiter + last
  {
    assert (strings + [last])[..|strings|] == strings;
  }

  /** The total size grows by the size of an appended string. */
  lemma TotalSizeSnoc(strings: seq<seq<Byte>>, last: seq<Byte>)
    ensures TotalSize(strings + [last]) == TotalSize(strings) + |last|
  {
    assert (strings + [last])[..|strings|] == strings;
  }

  /** The non-empty strings of a sequence with one more string at its end. */
  lemma NonEmptySnoc(strings: seq<seq<Byte>>, last: seq<Byte>)
    ensures NonEmpty(strings + [last]) == NonEmpty(strings) + (if last == [] then [] else [last])
  {
    assert (strings + [last])[..|strings|] == strings;
  }

  /** Empty strings do not add to the total size. */
  lemma {:induction false} NonEmptyTotalSize(strings: seq<seq<Byte>>)
    ensures TotalSize(NonEmpty(strings)) == TotalSize(strings)
  {
    if |strings| > 0 {
      var init, last := strings[..|strings| - 1], strings[|strings| - 1];
      assert strings == init + [last];
      NonEmptyTotalSize(init);
      NonEmptySnoc(init, last);
      TotalSizeSnoc(init, last);
      if last != [] {
        TotalSizeSnoc(NonEmpty(init), last);
      } else {
        assert NonEmpty(strings) == NonEmpty(init);
      }
    }
  }

  /** Dropping the empty strings commutes with concatenation. */
  lemma {:induction false} NonEmptyAppend(a: seq<seq<Byte>>, b: seq<seq<Byte>>)
    ensures NonEmpty(a + b) == NonEmpty(a) + NonEmpty(b)
    decreases |b|
  {
    if |b| == 0 {
      assert a + b == a;
    } else {
      var init, last := b[..|b| - 1], b[|b| - 1];
      assert b == init + [last];
      assert a + b == (a + init) + [last];
      NonEmptyAppend(a, init);
      NonEmptySnoc(a + init, last);
      NonEmptySnoc(init, last);
    }
  }

  /** `memcpy(out + at, src.data(), src.size())`. */
  method MemCpy(out: array<Byte>, at: nat, src: seq<Byte>)
    requires at + |src| <= out.Length
    modifies out
    ensures out[..at] == old(out[..at])
    ensures out[at..at + |src|] == src
    ensures out[at + |src|..] == old(out[at + |src|..])
  {
    forall k | 0 <= k < |src| {
      out[at + k] := src[k];
    }
  }

  /** After writing `w` at `at == |done|` behind `done`, the buffer holds `done + w`. */
  lemma Appended(buffer: seq<Byte>, done: seq<Byte>, w: seq<Byte>)
    requires |done| + |w| <= |buffer|
    requires buffer[..|done|] == done && buffer[|done|..|done| + |w|] == w
    ensures buffer[..|done| + |w|] == done + w
  {
    assert buffer[..|done| + |w|] == buffer[..|done|] + buffer[|done|..|done| + |w|];
  }

  /** Copies `src` to offset `pos` of `out` behind what is there, answering the offset after it. */
  method Write(out: array<Byte>, pos: nat, src: seq<Byte>) returns (next: nat)
    requires pos + |src| <= out.Length
    modifies out
    ensures next == pos + |src|
    ensures out[..next] == old(out[..pos]) + src
  {
    ghost var done := out[..pos];
    MemCpy(out, pos, src);
    Appended(out[..], done, src);
    next := pos + |src|;
  }

  /** What `join` has written after the first `i` strings. */
  function JoinWritten(strings: seq<seq<Byte>>, delimiter: seq<Byte>, i: nat): seq<Byte>
    requires i <= |strings|
  {
    if i == 0 then []
    else Joined(strings[..i], delimiter) + (if i < |strings| then delimiter else [])
  }

  /**
   * One step of `join`'s fill loop: string `i` completes the join of the
   * first `i + 1` strings, and room for a delimiter is left exactly when
   * more strings follow.
   */
  lemma JoinWrittenStep(strings: seq<seq<Byte>>, delimiter: seq<Byte>, i: nat)
    requires i < |strings|
    ensures JoinWritten(strings, delimiter, i) + strings[i] == Joined(strings[..i + 1], delimiter)
    ensures |strings[i]| == 0 ==> JoinWritten(strings, delimiter, i) == Joined(strings[..i + 1], delimiter)
    ensures i + 1 < |strings| ==>
      |Joined(strings, delimiter)| >= |Joined(strings[..i + 1], delimiter)| + |delimiter|
    ensures i + 1 < |strings| ==>
      JoinWritten(strings, delimiter, i + 1) == Joined(strings[..i + 1], delimiter) + delimiter
    ensures i + 1 == |strings| ==> JoinWritten(strings, delimiter, i + 1) == Joined(strings[..i + 1], delimiter)
    ensures i + 1 == |strings| ==> Joined(strings[..i + 1], delimiter) == Joined(strings, delimiter)
  {
    assert strings[..i + 1][..i] == strings[..i];
    if |strings[i]| == 0 {
      assert JoinWritten(strings, delimiter, i) + strings[i] == JoinWritten(strings, delimiter, i);
    }
    if i + 1 < |strings| {
      JoinedSplit(strings, delimiter, i + 1);
    } else {
      assert strings[..i + 1] == strings;
    }
  }

  /** `join`'s size loop: the delimiters' size plus the strings' sizes. */
  method JoinSize(delimiterSize: nat, strings: seq<seq<Byte>>) returns (totalSize: nat)
    ensures |strings| > 0 ==> totalSize == (|strings| - 1) * delimiterSize + TotalSize(strings)
    ensures |strings| == 0 ==> totalSize == 0
  {
    totalSize := if |strings| == 0 then 0 else (|strings| - 1) * delimiterSize;
    ghost var base := totalSize;
    var i := 0;
    while i < |strings|
      invariant 0 <= i <= |strings|
      invariant totalSize == base + TotalSize(strings[..i])
    {
      assert strings[..i + 1][..i] == strings[..i];
      totalSize := totalSize + |strings[i]|;
      i := i + 1;
    }
    assert strings[..i] == strings;
  }

  /**
   * The body of `join`'s fill loop: copy string `i`, then the delimiter
   * unless the output is full.
   */
  method JoinCopy(out: array<Byte>, pos: nat, strings: seq<seq<Byte>>, delimiter: seq<Byte>, i: nat) returns (next: nat)
    requires i < |strings| && out.Length == |Joined(strings, delimiter)|
    requires pos <= out.Length && out[..pos] == JoinWritten(strings, delimiter, i)
    modifies out
    ensures next <= out.Length
    ensures out[..next] == JoinWritten(strings, delimiter, i + 1)
  {
    var s := strings[i];
    JoinWrittenStep(strings, delimiter, i);
    ghost var joined := Joined(strings[..i + 1], delimiter);
    next := pos;
    if |s| > 0 {
      next := Write(out, next, s);
    }
    assert out[..next] == joined;
    if |delimiter| > 0 && next != out.Length {
      next := Write(out, next, delimiter);
    } else if i + 1 < |strings| {
      assert joined + delimiter == joined;
    }
  }

  /**
   * `join`: the strings with this view (`delimiter`) between each two of
   * them, `out == end` at the end.
   */
  method Join(delimiter: seq<Byte>, strings: seq<seq<Byte>>) returns (result: seq<Byte>)
    ensures result == Joined(strings, delimiter)
    ensures |strings| > 0 ==> |result| == TotalSize(strings) + (|strings| - 1) * |delimiter|
  {
    // Size of the result including delimiters
    var delimiterSize := |delimiter|;
    var totalSize := JoinSize(delimiterSize, strings);
    if |strings| > 0 {
      JoinedLength(strings, delimiter);
    }
    assert totalSize == |Joined(strings, delimiter)|;

    var out := new Byte[totalSize];
    var pos: nat := 0;
    var i := 0;
    while i < |strings|
      invariant 0 <= i <= |strings|
      invariant pos <= totalSize
      invariant out[..pos] == JoinWritten(strings, delimiter, i)
    {
      pos := JoinCopy(out, pos, strings, delimiter, i);
      i := i + 1;
    }
    assert strings[..i] == strings;
    assert out[..] == out[..pos];
    result := out[..];
  }

  /** What `joinWithoutEmptyParts` has written after looking at the first `i` strings. */
  function JoinNonEmptyWritten(strings: seq<seq<Byte>>, delimiter: seq<Byte>, i: nat): seq<Byte>
    requires i <= |strings|
  {
    var done := NonEmpty(strings[..i]);
    Joined(done, delimiter)
      + (if 0 < |done| < |NonEmpty(strings)| then delimiter else [])
  }

  /** The non-empty strings of a prefix are a prefix of the non-empty strings. */
  lemma NonEmptyPrefix(strings: seq<seq<Byte>>, i: nat)
    requires i <= |strings|
    ensures |NonEmpty(strings[..i])| <= |NonEmpty(strings)|
    ensures NonEmpty(strings)[..|NonEmpty(strings[..i])|] == NonEmpty(strings[..i])
  {
    NonEmptyAppend(strings[..i], strings[i..]);
    assert strings[..i] + strings[i..] == strings;
  }

  /** The running size of `joinWithoutEmptyParts`: each non-empty string with a delimiter. */
  function JoinNonEmptySize(strings: seq<seq<Byte>>, delimiter: seq<Byte>, i: nat): nat
    requires i <= |strings|
  {
    var done := NonEmpty(strings[..i]);
    |Joined(done, delimiter)| + (if |done| > 0 then |delimiter| else 0)
  }

  /** A step of the size loop adds a non-empty string and one delimiter. */
  lemma JoinNonEmptySizeStep(strings: seq<seq<Byte>>, delimiter: seq<Byte>, i: nat)
    requires i < |strings|
    ensures JoinNonEmptySize(strings, delimiter, i + 1)
         == JoinNonEmptySize(strings, delimiter, i)
          + (if strings[i] == [] then 0 else |strings[i]| + |delimiter|)
  {
    var done := NonEmpty(strings[..i]);
    assert strings[..i + 1] == strings[..i] + [strings[i]];
    NonEmptySnoc(strings[..i], strings[i]);
    if strings[i] != [] {
      JoinedSnoc(done, strings[i], delimiter);
      assert NonEmpty(strings[..i + 1]) == done + [strings[i]];
      if |done| == 0 {
        assert Joined(done, delimiter) == [];
      }
    } else {
      assert NonEmpty(strings[..i + 1]) == done;
    }
  }

  /** `joinWithoutEmptyParts`'s size loop, less the one delimiter too many. */
  method JoinNonEmptyTotal(delimiter: seq<Byte>, strings: seq<seq<Byte>>) returns (totalSize: nat)
    ensures totalSize == |Joined(NonEmpty(strings), delimiter)|
  {
    var delimiterSize := |delimiter|;
    totalSize := 0;
    var i := 0;
    while i < |strings|
      invariant 0 <= i <= |strings|
      invariant totalSize == JoinNonEmptySize(strings, delimiter, i)
    {
      JoinNonEmptySizeStep(strings, delimiter, i);
      if strings[i] != [] {
        totalSize := totalSize + |strings[i]| + delimiterSize;
      }
      i := i + 1;
    }
    assert strings[..i] == strings;
    if totalSize != 0 {
      totalSize := totalSize - delimiterSize;
    }
    ghost var all := NonEmpty(strings);
    if |all| > 0 {
      assert all[0] != [];
      JoinedLength(all, delimiter);
    }
  }

  /**
   * A step of `joinWithoutEmptyParts`'s fill loop over a non-empty string:
   * it completes the join of the non-empty strings so far, and room for a
   * delimiter is left exactly when more non-empty strings follow.
   */
  lemma JoinNonEmptyWrittenStep(strings: seq<seq<Byte>>, delimiter: seq<Byte>, i: nat)
    requires i < |strings|
    ensures strings[i] == [] ==>
      JoinNonEmptyWritten(strings, delimiter, i + 1) == JoinNonEmptyWritten(strings, delimiter, i)
    ensures strings[i] != [] ==>
      var next := NonEmpty(strings[..i + 1]);
      var all := NonEmpty(strings);
      && |next| <= |all|
      && JoinNonEmptyWritten(strings, delimiter, i) + strings[i] == Joined(next, delimiter)
      && JoinNonEmptyWritten(strings, delimiter, i + 1)
         == Joined(next, delimiter) + (if |next| < |all| then delimiter else [])
      && (|next| < |all| ==> |Joined(all, delimiter)| >= |Joined(next, delimiter)| + |delimiter|)
      && (|next| == |all| ==> Joined(next, delimiter) == Joined(all, delimiter))
  {
    var s := strings[i];
    var done := NonEmpty(strings[..i]);
    var all := NonEmpty(strings);
    assert strings[..i + 1] == strings[..i] + [s];
    NonEmptySnoc(strings[..i], s);
    NonEmptyPrefix(strings, i + 1);
    NonEmptyPrefix(strings, i);
    if s != [] {
      var next := done + [s];
      JoinedSnoc(done, s, delimiter);
      if |next| < |all| {
        assert all[..|next|] == next;
        JoinedSplit(all, delimiter, |next|);
      } else {
        assert all == next;
      }
    }
  }

  /** One turn of `joinWithoutEmptyParts`'s fill loop: an empty string is skipped, any other copied with a delimiter after it unless it ends the result. */
  method JoinNonEmptyCopy(out: array<Byte>, pos: nat, strings: seq<seq<Byte>>, delimiter: seq<Byte>, i: nat) returns (next: nat)
    requires i < |strings| && out.Length == |Joined(NonEmpty(strings), delimiter)|
    requires pos <= out.Length && out[..pos] == JoinNonEmptyWritten(strings, delimiter, i)
    modifies out
    ensures next <= out.Length
    ensures out[..next] == JoinNonEmptyWritten(strings, delimiter, i + 1)
  {
    var s := strings[i];
    JoinNonEmptyWrittenStep(strings, delimiter, i);
    next := pos;
    if s == [] {
      return;
    }
    ghost var joined := Joined(NonEmpty(strings[..i + 1]), delimiter);
    next := Write(out, next, s);
    assert out[..next] == joined;
    if |delimiter| > 0 && next != out.Length {
      next := Write(out, next, delimiter);
    }
  }

  /**
   * `joinWithoutEmptyParts`: the non-empty strings joined with this view
   * (`delimiter`); empty strings are skipped together with their delimiter.
   */
  method JoinWithoutEmptyParts(delimiter: seq<Byte>, strings: seq<seq<Byte>>) returns (result: seq<Byte>)
    ensures result == Joined(NonEmpty(strings), delimiter)
    ensures |NonEmpty(strings)| > 0 ==>
      |result| == TotalSize(strings) + (|NonEmpty(strings)| - 1) * |delimiter|
  {
    // Size of the result including delimiters
    var delimiterSize := |delimiter|;
    var totalSize := JoinNonEmptyTotal(delimiter, strings);

    var out := new Byte[totalSize];
    var pos: nat := 0;
    var i := 0;
    while i < |strings|
      invariant 0 <= i <= |strings|
      invariant pos <= totalSize
      invariant out[..pos] == JoinNonEmptyWritten(strings, delimiter, i)
    {
      pos := JoinNonEmptyCopy(out, pos, strings, delimiter, i);
      i := i + 1;
    }
    assert strings[..i] == strings;
    assert out[..] == out[..pos];
    result := out[..];
    if |NonEmpty(strings)| > 0 {
      JoinedLength(NonEmpty(strings), delimiter);
      NonEmptyTotalSize(strings);
    }
  }

  /** `operator+`: both views copied one after the other into a new string. */
  method Concat(a: seq<Byte>, b: seq<Byte>) returns (result: seq<Byte>)
    ensures result == a + b
  {
    var out := new Byte[|a| + |b|];
    if |a| > 0 {
      MemCpy(out, 0, a);
    }
    if |b| > 0 {
      MemCpy(out, |a|, b);
    }
    assert out[..] == out[..|a|] + out[|a|..|a| + |b|];
    result := out[..];
  }

  /** `count` copies of `s` one after the other. */
  function Repeated(s: seq<Byte>, count: nat): seq<Byte>
  {
    if count == 0 then [] else Repeated(s, count - 1) + s
  }

  /** The repetition has `|s| * count` bytes. */
  lemma {:induction false} RepeatedLength(s: seq<Byte>, count: nat)
    ensures |Repeated(s, count)| == |s| * count
  {
    if count > 0 {
      RepeatedLength(s, count - 1);
      assert |s| * count == |s| * (count - 1) + |s|;
    }
  }

  /** Repeating `a + b` times is repeating `a` times, then `b` times. */
  lemma {:induction false} RepeatedAppend(s: seq<Byte>, a: nat, b: nat)
    ensures Repeated(s, a + b) == Repeated(s, a) + Repeated(s, b)
  {
    if b > 0 {
      RepeatedAppend(s, a, b - 1);
    }
  }

  /** Byte `r` of copy `q` of the repetition is byte `r` of `s`. */
  lemma RepeatedAt(s: seq<Byte>, count: nat, q: nat, r: nat)
    requires q < count && r < |s|
    ensures |s| * q + r < |Repeated(s, count)|
    ensures Repeated(s, count)[|s| * q + r] == s[r]
  {
    RepeatedAppend(s, q + 1, count - q - 1);
    RepeatedLength(s, q);
  }

  /** Block `i` of `count` blocks of `size` bytes fits. */
  lemma NextBlock(i: nat, count: nat, size: nat)
    requires i < count
    ensures (i + 1) * size == i * size + size <= count * size
  {
    assert count * size == (i + 1) * size + (count - (i + 1)) * size;
  }

  /** `operator*(StringView, count)`: `count` copies at offsets `i * size`. */
  method Repeat(s: seq<Byte>, count: nat) returns (result: seq<Byte>)
    ensures result == Repeated(s, count)
  {
    var size := |s|;
    RepeatedLength(s, count);
    var out := new Byte[size * count];
    if size > 0 {
      var i := 0;
      while i != count
        invariant 0 <= i <= count
        invariant i * size <= count * size
        invariant out[..i * size] == Repeated(s, i)
      {
        NextBlock(i, count, size);
        var next := Write(out, i * size, s);
        i := i + 1;
      }
      assert out[..] == out[..count * size];
    } else {
      assert s == [];
    }
    result := out[..];
  }

  /** `operator*(count, StringView)`, which delegates to the other order. */
  method RepeatCountFirst(count: nat, s: seq<Byte>) returns (result: seq<Byte>)
    ensures result == Repeated(s, count)
    ensures |result| == |s| * count
  {
    result := Repeat(s, count);
    RepeatedLength(s, count);
  }
}
