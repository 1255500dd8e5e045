/** Strings that end at a terminator inside a larger buffer, and moving bytes within one. */
module CStrings {

  ghost predicate Terminated<T>(buffer: seq<T>, nul: T) {
    nul in buffer
  }

  function StrLen<T(==)>(buffer: seq<T>, nul: T): (n: nat)
    requires Terminated(buffer, nul)
    ensures n < |buffer| && buffer[n] == nul && nul !in buffer[..n]
  {
    if buffer[0] == nul then 0
    else
      var n := 1 + StrLen(buffer[1..], nul);
      assert buffer[..n] == [buffer[0]] + buffer[1..][..n - 1];
      n
  }

  /** The string a C caller sees in the buffer. */
  function CString<T(==)>(buffer: seq<T>, nul: T): (s: seq<T>)
    requires Terminated(buffer, nul)
    ensures |s| < |buffer| && s == buffer[..|s|] && buffer[|s|] == nul && nul !in s
  {
    buffer[..StrLen(buffer, nul)]
  }

  lemma {:induction false} CStringIs<T>(buffer: seq<T>, nul: T, n: nat)
    requires n < |buffer| && buffer[n] == nul && nul !in buffer[..n]
    ensures Terminated(buffer, nul) && StrLen(buffer, nul) == n && CString(buffer, nul) == buffer[..n]
  {
  }

  lemma {:induction false} StrLenAtMost<T>(buffer: seq<T>, nul: T, k: nat)
    requires k < |buffer| && buffer[k] == nul
    ensures Terminated(buffer, nul) && StrLen(buffer, nul) <= k
  {
    if k > 0 {
      StrLenAtMost(buffer[1..], nul, k - 1);
    }
  }

  /** A caller sees a text in a buffer up to the first terminator in it. */
  lemma {:induction false} SeenUpToNul<T>(buffer: seq<T>, nul: T, text: seq<T>)
    requires |text| < |buffer| && buffer[..|text|] == text && buffer[|text|] == nul
    ensures Terminated(buffer, nul) && CString(buffer, nul) <= text
    ensures CString(buffer, nul) == text <==> nul !in text
  {
    StrLenAtMost(buffer, nul, |text|);
    assert CString(buffer, nul) == text[..StrLen(buffer, nul)];
  }

  const NUL: char := '\0'

  /** A terminated string in the buffer. */
  ghost predicate HoldsText(buffer: string, start: nat, text: string) {
    start + |text| < |buffer| && buffer[start..start + |text|] == text && buffer[start + |text|] == NUL
  }

  /** memmove to a lower address; the ranges may overlap. */
  method MemMoveDown<T>(buffer: array<T>, dst: nat, src: nat, count: nat)
    requires dst <= src && src + count <= buffer.Length
    modifies buffer
    ensures buffer[dst..dst + count] == old(buffer[src..src + count])
    ensures forall k | 0 <= k < buffer.Length && !(dst <= k < dst + count) :: buffer[k] == old(buffer[k])
  {
    var i := 0;
    while i < count
      invariant i <= count
      invariant forall k | dst <= k < dst + i :: buffer[k] == old(buffer[k + (src - dst)])
      invariant forall k | 0 <= k < buffer.Length && !(dst <= k < dst + i) :: buffer[k] == old(buffer[k])
    {
      buffer[dst + i] := buffer[src + i];
      i := i + 1;
    }
  }
}
