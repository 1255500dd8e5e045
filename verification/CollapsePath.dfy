/**
  CollapsePath, which sweeps a C string backwards in place with a debt of segments still to remove.
 */
module CollapsePath {
  import opened CStrings
  import opened Segments

  const EINVAL := 22

  // ---------------------------------------------------------------------------
  // What CollapsePath computes, on values

  predicate IsDotDot(segment: string) { segment == ".." }

  predicate IsNoise(segment: string) { segment == "" || segment == "." }

  /** What is left of a run of segments after the backward sweep: the segments still
      owed to a "..", the names that stay, and whether the rightmost segment stays. */
  datatype Swept = Swept(debt: nat, kept: seq<string>, endsInName: bool)

  function Sweep(segments: seq<string>): (swept: Swept)
    ensures |swept.kept| <= |segments|
    ensures swept.endsInName ==> swept.kept != []
  {
    if segments == [] then Swept(0, [], false)
    else
      var later := Sweep(segments[1..]);
      if IsDotDot(segments[0]) then later.(debt := later.debt + 1)
      else if later.debt > 0 then later.(debt := later.debt - 1)
      else if IsNoise(segments[0]) then later
      else Swept(0, [segments[0]] + later.kept, later.endsInName || |segments| == 1)
  }

  /** Kept names as they stand in the buffer: each is followed by its separator, except
      a name that was the last segment. */
  function Render(kept: seq<string>, endsInName: bool, sep: char): (text: string)
    requires endsInName ==> kept != []
  {
    if kept == [] then []
    else if |kept| == 1 && endsInName then kept[0]
    else kept[0] + [sep] + Render(kept[1..], endsInName, sep)
  }

  datatype Outcome = Collapsed(path: string) | Invalid

  function Collapse(path: string, sep: char): (outcome: Outcome)
  {
    var pieces := Split(path, sep);
    var swept := Sweep(pieces[1..]);
    if |pieces| == 1 then Collapsed(path)
    else if swept.debt > 0 then Invalid
    else Collapsed(pieces[0] + [sep] + Render(swept.kept, swept.endsInName, sep))
  }

  // ---------------------------------------------------------------------------
  // The in-place algorithm

  /** The last occurrence of c among the first n characters, or n if there is none. */
  method MemRChr(buffer: array<char>, c: char, n: nat) returns (at: nat)
    requires n <= buffer.Length
    ensures at < n ==> buffer[at] == c && c !in buffer[at + 1..n]
    ensures at >= n ==> at == n && c !in buffer[..n]
  {
    var i := n;
    while i > 0
      invariant 0 <= i <= n
      invariant c !in buffer[i..n]
    {
      if buffer[i - 1] == c {
        return i - 1;
      }
      i := i - 1;
    }
    at := n;
  }

  /** The rendered tail stands in the buffer at a position, properly terminated. */
  ghost predicate HoldsTail(buffer: seq<char>, at: int, text: string) {
    0 <= at && HoldsText(buffer, at, text) && NUL !in text
  }

  /** The state of the sweep when the segments right of `remaining` have been seen. */
  ghost predicate SweepInvariant(buffer: seq<char>, original: string, sep: char, done: seq<string>,
                                 remaining: int, last: int, debt: int)
  {
    var swept := Sweep(done);
    var text := Render(swept.kept, swept.endsInName, sep);
    && 0 <= remaining <= |original| < |buffer|
    && buffer[..remaining] == original[..remaining]
    && Split(original, sep) == Split(original[..remaining], sep) + done
    && debt == swept.debt
    && HoldsTail(buffer, last, text) && last + |text| <= |original|
    && (if done == [] then remaining == |original| == last
        else remaining < last && buffer[remaining] == sep == original[remaining])
    && (debt == 0 && done != [] ==> last == remaining + 1)
  }

  /** The separator found at `at` closes one more segment, which is still the original text. */
  lemma {:induction false} NextSegment(buffer: seq<char>, original: string, sep: char, done: seq<string>,
                                       remaining: nat, at: nat)
    requires at < remaining <= |original| < |buffer| && buffer[..remaining] == original[..remaining]
    requires buffer[at] == sep && sep !in buffer[at + 1..remaining]
    requires Split(original, sep) == Split(original[..remaining], sep) + done
    ensures original[at] == sep && buffer[..at] == original[..at]
    ensures buffer[at + 1..remaining] == original[at + 1..remaining]
    ensures Split(original, sep) == Split(original[..at], sep) + ([buffer[at + 1..remaining]] + done)
    ensures ([buffer[at + 1..remaining]] + done)[1..] == done
  {
    var segment := buffer[at + 1..remaining];
    assert original[at] == original[..remaining][at] == buffer[..remaining][at];
    assert segment == buffer[..remaining][at + 1..] == original[..remaining][at + 1..] == original[at + 1..remaining];
    assert buffer[..at] == buffer[..remaining][..at] == original[..at];
    assert original[..remaining] == original[..at] + [sep] + segment;
    SplitAtSeparator(original[..at], sep, segment);
    SplitPlain(segment, sep);
  }

  lemma {:induction false} KeepsOwing(buffer: seq<char>, original: string, sep: char, done: seq<string>,
                   remaining: int, last: int, debt: int, at: nat)
    requires SweepInvariant(buffer, original, sep, done, remaining, last, debt)
    requires at < remaining && buffer[at] == sep && sep !in buffer[at + 1..remaining]
    requires IsDotDot(buffer[at + 1..remaining])
    ensures SweepInvariant(buffer, original, sep, [buffer[at + 1..remaining]] + done, at, last, debt + 1)
  {
    NextSegment(buffer, original, sep, done, remaining, at);
  }

  /** The text of a name put in front of an already rendered tail. */
  lemma {:induction false} RenderName(name: string, done: seq<string>, sep: char)
    requires !IsDotDot(name) && !IsNoise(name) && Sweep(done).debt == 0
    ensures var swept, swept' := Sweep(done), Sweep([name] + done);
            && swept'.debt == 0
            && Render(swept'.kept, swept'.endsInName, sep) ==
               if done == [] then name else name + [sep] + Render(swept.kept, swept.endsInName, sep)
  {
    assert ([name] + done)[1..] == done;
    var swept, swept' := Sweep(done), Sweep([name] + done);
    assert swept'.kept[1..] == swept.kept;
  }

  lemma {:induction false} SliceLacks(text: string, c: char, at: nat, start: nat, end: nat)
    requires c !in text && at < |text| && start <= end <= |text|
    ensures text[at] != c && c !in text[start..end]
  {
    assert text[at] in text;
  }

  lemma {:induction false} SliceAround(buffer: seq<char>, start: nat, middle: nat, end: nat)
    requires start <= middle < end <= |buffer|
    ensures buffer[start..end] == buffer[start..middle] + [buffer[middle]] + buffer[middle + 1..end]
  {
  }

  lemma {:induction false} HoldsLongerText(buffer: seq<char>, start: nat, middle: nat, text: string)
    requires start <= middle && HoldsTail(buffer, middle + 1, text)
    requires '\0' !in buffer[start..middle] && buffer[middle] != '\0'
    ensures HoldsTail(buffer, start, buffer[start..middle] + [buffer[middle]] + text)
  {
    SliceAround(buffer, start, middle, middle + 1 + |text|);
  }

  lemma {:induction false} KeepsName(buffer: seq<char>, original: string, sep: char, done: seq<string>,
                  remaining: int, last: int, at: nat)
    requires SweepInvariant(buffer, original, sep, done, remaining, last, 0)
    requires '\0' !in original
    requires at < remaining && buffer[at] == sep && sep !in buffer[at + 1..remaining]
    requires !IsDotDot(buffer[at + 1..remaining]) && !IsNoise(buffer[at + 1..remaining])
    ensures SweepInvariant(buffer, original, sep, [buffer[at + 1..remaining]] + done, at, at + 1, 0)
  {
    NextSegment(buffer, original, sep, done, remaining, at);
    RenderName(buffer[at + 1..remaining], done, sep);
    SliceLacks(original, '\0', at, at + 1, remaining);
    if done != [] {
      var swept := Sweep(done);
      HoldsLongerText(buffer, at + 1, remaining, Render(swept.kept, swept.endsInName, sep));
    }
  }

  lemma {:induction false} HoldsMovedText(buffer: seq<char>, from: nat, buffer': seq<char>, to: nat, count: nat,
                                          text: string)
    requires HoldsTail(buffer, from, text) && |text| < count
    requires from + count <= |buffer| && to + count <= |buffer'|
    requires buffer'[to..to + count] == buffer[from..from + count]
    ensures HoldsTail(buffer', to, text)
  {
    var moved := buffer[from..from + count];
    assert buffer'[to + |text|] == moved[|text|] == buffer[from + |text|];
    assert buffer'[to..to + |text|] == moved[..|text|] == buffer[from..from + |text|];
  }

  /** Moving the tail down over a removed segment, and over the ".." that owed it. */
  lemma {:induction false} RemovesSegment(buffer: seq<char>, buffer': seq<char>, original: string, sep: char,
                                          done: seq<string>,
                       remaining: int, last: int, debt: int, at: nat)
    requires SweepInvariant(buffer, original, sep, done, remaining, last, debt)
    requires at < remaining && buffer[at] == sep && sep !in buffer[at + 1..remaining]
    requires !IsDotDot(buffer[at + 1..remaining])
    requires debt > 0 || IsNoise(buffer[at + 1..remaining])
    requires |buffer'| == |buffer| && buffer'[..at + 1] == buffer[..at + 1]
    requires at + 1 <= last && buffer'[at + 1..at + 1 + |original| + 1 - last] == buffer[last..|original| + 1]
    ensures SweepInvariant(buffer', original, sep, [buffer[at + 1..remaining]] + done, at, at + 1,
                           if debt > 0 then debt - 1 else 0)
  {
    NextSegment(buffer, original, sep, done, remaining, at);
    assert buffer'[..at] == buffer'[..at + 1][..at] == buffer[..at];
    assert buffer'[at] == buffer'[..at + 1][at] == buffer[at];
    var swept := Sweep(done);
    var text := Render(swept.kept, swept.endsInName, sep);
    HoldsMovedText(buffer, last, buffer', at + 1, |original| + 1 - last, text);
  }

  /** Takes a segment out of the buffer, along with the ".." segments up to the kept tail. */
  method RemoveSegment(path: array<char>, sep: char, pathLength: nat, nextSeparator: nat, remaining: nat, last: nat,
                       debt: nat,
                       ghost original: string, ghost done: seq<string>)
    requires SweepInvariant(path[..], original, sep, done, remaining, last, debt) && pathLength == |original|
    requires nextSeparator < remaining && path[nextSeparator] == sep && sep !in path[nextSeparator + 1..remaining]
    requires var name := path[nextSeparator + 1..remaining]; !IsDotDot(name) && (debt > 0 || IsNoise(name))
    modifies path
    ensures SweepInvariant(path[..], original, sep, [old(path[nextSeparator + 1..remaining])] + done, nextSeparator,
                           nextSeparator + 1, if debt > 0 then debt - 1 else 0)
    ensures forall k | pathLength < k < path.Length :: path[k] == old(path[k])
  {
    ghost var before := path[..];
    MemMoveDown(path, nextSeparator + 1, last, pathLength - last + 1);
    ghost var after := path[..];
    assert after[..nextSeparator + 1] == before[..nextSeparator + 1];
    RemovesSegment(before, after, original, sep, done, remaining, last, debt, nextSeparator);
  }

  /** The code's tests on a segment, character by character. */
  lemma {:induction false} SegmentTests(buffer: seq<char>, start: nat, end: nat)
    requires start <= end <= |buffer|
    ensures IsDotDot(buffer[start..end]) <==> end == start + 2 && buffer[start] == '.' && buffer[start + 1] == '.'
    ensures IsNoise(buffer[start..end]) <==> end == start || (end == start + 1 && buffer[start] == '.')
  {
    var name := buffer[start..end];
    if |name| == 1 {
      assert name == [buffer[start]];
    } else if |name| == 2 {
      assert name == [buffer[start], buffer[start + 1]];
    }
  }

  /** One turn of the loop, for the segment between the separator and `remaining`. */
  method SweepSegment(path: array<char>, sep: char, pathLength: nat, nextSeparator: nat, remaining: nat, last: nat,
                      debt: nat,
                      ghost original: string, ghost done: seq<string>)
    returns (lastSegment: nat, removeSegmentCount: nat, ghost done': seq<string>)
    requires SweepInvariant(path[..], original, sep, done, remaining, last, debt)
    requires pathLength == |original| && '\0' !in original
    requires nextSeparator < remaining && path[nextSeparator] == sep && sep !in path[nextSeparator + 1..remaining]
    modifies path
    ensures SweepInvariant(path[..], original, sep, done', nextSeparator, lastSegment, removeSegmentCount)
    ensures forall k | pathLength < k < path.Length :: path[k] == old(path[k])
  {
    var segment := nextSeparator + 1;
    var segmentLength := remaining - segment;
    ghost var before := path[..];
    ghost var name := before[segment..remaining];
    lastSegment, removeSegmentCount, done' := last, debt, [name] + done;
    SegmentTests(before, segment, remaining);
    if segmentLength == 2 && path[segment] == '.' && path[segment + 1] == '.' {
      KeepsOwing(before, original, sep, done, remaining, last, debt, nextSeparator);
      removeSegmentCount := removeSegmentCount + 1;
    } else {
      if removeSegmentCount == 0 && (segmentLength == 0 || (segmentLength == 1 && path[segment] == '.')) {
        removeSegmentCount := removeSegmentCount + 1;
      }
      if removeSegmentCount > 0 {
        RemoveSegment(path, sep, pathLength, nextSeparator, remaining, last, debt, original, done);
        removeSegmentCount := removeSegmentCount - 1;
      } else {
        KeepsName(before, original, sep, done, remaining, last, nextSeparator);
      }
      lastSegment := segment;
    }
  }

  /** CollapsePath: the buffer ends up holding what Collapse computes, and nothing past the
      original terminator is touched. */
  method CollapseInPlace(path: array<char>, sep: char) returns (result: int)
    requires Terminated(path[..], '\0')
    modifies path
    ensures result == if Collapse(old(CString(path[..], '\0')), sep).Invalid? then -22 else 0
    ensures result == 0 ==>
              && Terminated(path[..], '\0')
              && Collapsed(CString(path[..], '\0')) == Collapse(old(CString(path[..], '\0')), sep)
    ensures forall k | old(StrLen(path[..], '\0')) < k < path.Length :: path[k] == old(path[k])
  {
    var pathLength := StrLen(path[..], '\0');
    ghost var original := CString(path[..], '\0');
    ghost var done: seq<string> := [];
    var lastSegment := pathLength;
    var removeSegmentCount := 0;
    var remaining := pathLength;
    assert original[..remaining] == original;
    while remaining > 0
      invariant SweepInvariant(path[..], original, sep, done, remaining, lastSegment, removeSegmentCount)
      invariant forall k | pathLength < k < path.Length :: path[k] == old(path[k])
    {
      var nextSeparator := MemRChr(path, sep, remaining);
      if nextSeparator == remaining {
        break;
      }
      lastSegment, removeSegmentCount, done :=
        SweepSegment(path, sep, pathLength, nextSeparator, remaining, lastSegment, removeSegmentCount, original, done);
      remaining := nextSeparator;
    }
    SplitPlain(original[..remaining], sep);
    result := if removeSegmentCount == 0 then 0 else -EINVAL;
    FinalString(path[..], original, sep, done, remaining, lastSegment, removeSegmentCount);
  }

  lemma {:induction false} FinalString(buffer: seq<char>, original: string, sep: char, done: seq<string>,
                                       remaining: int, last: int, debt: int)
    requires SweepInvariant(buffer, original, sep, done, remaining, last, debt)
    requires Split(original[..remaining], sep) == [original[..remaining]]
    requires '\0' !in original
    ensures Collapse(original, sep).Invalid? <==> debt > 0
    ensures debt == 0 ==> Terminated(buffer, '\0') && Collapsed(CString(buffer, '\0')) == Collapse(original, sep)
  {
    var swept := Sweep(done);
    var text := Render(swept.kept, swept.endsInName, sep);
    var pieces := Split(original, sep);
    assert pieces[1..] == done;
    if done == [] {
      assert buffer[..|original|] == original;
      CStringIs(buffer, '\0', |original|);
    } else if debt == 0 {
      assert buffer[..last + |text|] == original[..remaining] + [sep] + text;
      CStringIs(buffer, '\0', last + |text|);
    }
  }
}
