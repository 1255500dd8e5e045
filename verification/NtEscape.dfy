/**
  Escaping of Linux paths for NTFS: characters NTFS does not allow become characters of the
  private-use range from U+F000 on, written in UTF-8.
 */
module NtEscape {
  import opened CStrings
  import opened Sequences

  type Octet = bv8

  const PATH_SEP: Octet := 0x2f
  const PATH_SEP_NT: Octet := 0x5c
  const ESCAPE_LEAD: Octet := 0xef

  // ---------------------------------------------------------------------------
  // What the routines compute

  /** EscapeCharNeedsEscape: control characters and " * : < > ? \ | */
  predicate NeedsEscape(c: Octet) {
    c < 0x20 || c == 0x22 || c == 0x2a || c == 0x3a || c == 0x3c || c == 0x3e || c == 0x3f || c == 0x5c || c == 0x7c
  }

  function EscapeByte(c: Octet): (escaped: seq<Octet>) {
    if c == PATH_SEP then [PATH_SEP_NT]
    else if !NeedsEscape(c) then [c]
    else [ESCAPE_LEAD, 0x80 | (c >> 6), 0x80 | (c & 0x3f)]
  }

  function Escape(path: seq<Octet>): (escaped: seq<Octet>) {
    if path == [] then [] else EscapeByte(path[0]) + Escape(path[1..])
  }

  /** The character three bytes stand for, in eight bits. */
  function Decoded(second: Octet, third: Octet): (c: Octet) {
    (second << 6) | (third & 0x3f)
  }

  /** The text starts with three bytes that the unescaper takes for an escape. */
  predicate StartsEscape(text: seq<Octet>) {
    && |text| >= 3 && text[0] == ESCAPE_LEAD && text[1] & 0x80 != 0 && text[2] & 0x80 != 0
    && NeedsEscape(Decoded(text[1], text[2]))
  }

  /** One pass from left to right. */
  function Unescape(text: seq<Octet>): (path: seq<Octet>) {
    if text == [] then []
    else if StartsEscape(text) then [Decoded(text[1], text[2])] + Unescape(text[3..])
    else [text[0]] + Unescape(text[1..])
  }

  function WithNtSeparators(path: seq<Octet>): (nt: seq<Octet>) {
    seq(|path|, i requires 0 <= i < |path| => if path[i] == PATH_SEP then PATH_SEP_NT else path[i])
  }

  /** Some place of the path already reads like an escape. */
  ghost predicate HoldsEscape(path: seq<Octet>) {
    exists i | 0 <= i <= |path| :: StartsEscape(path[i..])
  }

  // ---------------------------------------------------------------------------
  // Single characters

  /** An escaped character reads back as itself. */
  lemma {:induction false} EscapeDecodes(c: Octet)
    requires NeedsEscape(c) && c != PATH_SEP
    ensures StartsEscape(EscapeByte(c)) && Decoded(EscapeByte(c)[1], EscapeByte(c)[2]) == c
  {
  }

  /** Exactly which bytes the unescaper takes for an escape, and of what: behind the lead byte, any two bytes
      with the high bit set whose low two and six bits spell a character that NTFS does not allow. */
  lemma {:induction false} TakenForEscapeIff(text: seq<Octet>)
    ensures StartsEscape(text) <==>
            && |text| >= 3 && text[0] == 0xef && text[1] >= 0x80 && text[2] >= 0x80
            && !Allowed(Decoded(text[1], text[2])) && Decoded(text[1], text[2]) != 0x2f
    ensures |text| >= 3 ==> Decoded(text[1], text[2]) == (text[1] & 0x3) * 0x40 + (text[2] & 0x3f)
  {
  }

  /** The three bytes of section 3 of RFC 3629 for a code point from U+0800 on. */
  function Utf8(codePoint: bv16): (bytes: seq<Octet>) {
    [ (0xe0 | (codePoint >> 12)) as bv8,
      (0x80 | ((codePoint >> 6) & 0x3f)) as bv8,
      (0x80 | (codePoint & 0x3f)) as bv8 ]
  }

  lemma {:induction false} EscapeIsUtf8(c: Octet)
    requires NeedsEscape(c)
    ensures EscapeByte(c) == Utf8(0xf000 + (c as bv16))
  {
  }

  /** A lead byte in the second or third place never completes an escape. */
  lemma {:induction false} LeadInside(b: Octet)
    ensures !NeedsEscape(Decoded(ESCAPE_LEAD, b))
    ensures !NeedsEscape(Decoded(b, ESCAPE_LEAD))
  {
  }

  lemma {:induction false} HighBytesStay(c: Octet)
    requires c & 0x80 != 0
    ensures !NeedsEscape(c) && EscapeByte(c) == [c]
  {
  }

  /** Only a high byte or an escape lead can open the escaped form of a byte with the high bit set. */
  lemma {:induction false} HighFirstByte(c: Octet)
    ensures EscapeByte(c)[0] & 0x80 != 0 ==> EscapeByte(c) == [c] || EscapeByte(c)[0] == ESCAPE_LEAD
    ensures EscapeByte(c)[0] & 0x80 != 0 && EscapeByte(c) == [c] ==> c & 0x80 != 0
  {
  }

  // ---------------------------------------------------------------------------
  // What NTFS is given

  /** The printable characters that no NTFS name may hold: " * : < > ? \ | */
  const FORBIDDEN: set<Octet> := {0x22, 0x2a, 0x3a, 0x3c, 0x3e, 0x3f, 0x5c, 0x7c}

  ghost predicate Allowed(c: Octet) {
    c >= 0x20 && c !in FORBIDDEN && c != 0x2f
  }

  /** The backslashes of the text are its separators, and apart from them NTFS allows every character. */
  ghost predicate NtPath(text: seq<Octet>) {
    forall i | 0 <= i < |text| :: text[i] == 0x5c || Allowed(text[i])
  }

  lemma {:induction false} ByteIsAllowed(c: Octet)
    ensures c == 0x2f ==> EscapeByte(c) == [0x5c]
    ensures Allowed(c) ==> EscapeByte(c) == [c]
    ensures c != 0x2f && !Allowed(c) ==>
              && |EscapeByte(c)| == 3
              && Allowed(EscapeByte(c)[0]) && Allowed(EscapeByte(c)[1]) && Allowed(EscapeByte(c)[2])
  {
  }

  /** An escaped path holds nothing that NTFS forbids. */
  lemma {:induction false} EscapedIsNtPath(path: seq<Octet>)
    ensures NtPath(Escape(path))
  {
    if path != [] {
      ByteIsAllowed(path[0]);
      EscapedIsNtPath(path[1..]);
    }
  }

  lemma {:induction false} EscapeGrows(path: seq<Octet>)
    ensures |Escape(path)| >= |path|
    ensures (exists i | 0 <= i < |path| :: path[i] != 0x2f && !Allowed(path[i])) ==> |Escape(path)| > |path|
  {
    if path != [] {
      ByteIsAllowed(path[0]);
      EscapeGrows(path[1..]);
      if i :| 0 <= i < |path| && path[i] != 0x2f && !Allowed(path[i]) {
        assert i > 0 ==> path[1..][i - 1] == path[i];
      }
    }
  }

  lemma {:induction false} AllowedStays(path: seq<Octet>)
    requires forall i | 0 <= i < |path| :: path[i] == 0x2f || Allowed(path[i])
    ensures Escape(path) == WithNtSeparators(path)
  {
    if path != [] {
      ByteIsAllowed(path[0]);
      AllowedStays(path[1..]);
      assert WithNtSeparators(path) == [WithNtSeparators(path)[0]] + WithNtSeparators(path[1..]);
    }
  }

  /** A path goes through with nothing but its separators changed exactly if NTFS allows all the rest. */
  lemma {:induction false} UnchangedIff(path: seq<Octet>)
    ensures Escape(path) == WithNtSeparators(path) <==>
            forall i | 0 <= i < |path| :: path[i] == 0x2f || Allowed(path[i])
  {
    EscapeGrows(path);
    if forall i | 0 <= i < |path| :: path[i] == 0x2f || Allowed(path[i]) {
      AllowedStays(path);
    }
  }

  // ---------------------------------------------------------------------------
  // Reading back an escaped path

  lemma {:induction false} EscapeNext(path: seq<Octet>)
    requires path != []
    ensures Escape(path) == EscapeByte(path[0]) + Escape(path[1..])
    ensures Escape(path)[0] == EscapeByte(path[0])[0]
  {
  }

  /** Bytes with the high bit set stand in the escaped path unchanged. */
  lemma {:induction false} HighPairStays(path: seq<Octet>)
    requires |path| >= 2 && path[0] & 0x80 != 0 && path[1] & 0x80 != 0
    ensures |Escape(path)| >= 2 && Escape(path)[0] == path[0] && Escape(path)[1] == path[1]
    ensures Escape(path)[2..] == Escape(path[2..])
  {
    HighBytesStay(path[0]);
    HighBytesStay(path[1]);
    EscapeNext(path);
    EscapeNext(path[1..]);
    assert path[1..][1..] == path[2..];
    assert Escape(path) == [path[0]] + ([path[1]] + Escape(path[2..]));
  }

  /** Two high bytes at the front of an escaped path that complete an escape were there before. */
  lemma {:induction false} EscapeAddsNone(path: seq<Octet>)
    requires |Escape(path)| >= 2
    requires Escape(path)[0] & 0x80 != 0 && Escape(path)[1] & 0x80 != 0
    requires NeedsEscape(Decoded(Escape(path)[0], Escape(path)[1]))
    ensures |path| >= 2 && path[0] == Escape(path)[0] && path[1] == Escape(path)[1]
  {
    EscapeNext(path);
    HighFirstByte(path[0]);
    LeadInside(Escape(path)[1]);
    assert EscapeByte(path[0]) == [path[0]];
    assert Escape(path)[1..] == Escape(path[1..]);
    EscapeNext(path[1..]);
    HighFirstByte(path[1]);
    LeadInside(Escape(path)[0]);
  }

  /** Where the unescaper finds an escape at the front of an escaped path. */
  lemma {:induction false} FrontOfEscaped(path: seq<Octet>)
    requires path != []
    ensures StartsEscape(Escape(path)) <==> (path[0] != PATH_SEP && NeedsEscape(path[0])) || StartsEscape(path)
  {
    EscapeNext(path);
    var c := path[0];
    if c != PATH_SEP && NeedsEscape(c) {
      EscapeDecodes(c);
      assert Escape(path)[1] == EscapeByte(c)[1] && Escape(path)[2] == EscapeByte(c)[2];
    } else if c == ESCAPE_LEAD {
      assert Escape(path) == [c] + Escape(path[1..]);
      if StartsEscape(path) {
        HighPairStays(path[1..]);
      }
      if StartsEscape(Escape(path)) {
        assert Escape(path)[1] == Escape(path[1..])[0] && Escape(path)[2] == Escape(path[1..])[1];
        EscapeAddsNone(path[1..]);
      }
    }
  }

  lemma {:induction false} HoldsEscapeNext(path: seq<Octet>)
    requires path != []
    ensures HoldsEscape(path) <==> StartsEscape(path) || HoldsEscape(path[1..])
  {
    assert path[0..] == path;
    assert forall i | 1 <= i <= |path| :: path[i..] == path[1..][i - 1..];
    if HoldsEscape(path[1..]) {
      var i :| 0 <= i <= |path[1..]| && StartsEscape(path[1..][i..]);
      assert path[i + 1..] == path[1..][i..];
    }
  }

  lemma {:induction false} NtSeparatorsNext(path: seq<Octet>)
    requires path != []
    ensures WithNtSeparators(path) ==
            [if path[0] == PATH_SEP then PATH_SEP_NT else path[0]] + WithNtSeparators(path[1..])
  {
  }

  /** One character of the path, read back from its escaped form. */
  lemma {:induction false} UnescapeNext(path: seq<Octet>)
    requires path != []
    ensures Unescape(Escape(path)) ==
            if StartsEscape(path) then [Decoded(path[1], path[2])] + Unescape(Escape(path[3..]))
            else [if path[0] == PATH_SEP then PATH_SEP_NT else path[0]] + Unescape(Escape(path[1..]))
  {
    EscapeNext(path);
    FrontOfEscaped(path);
    var c := path[0];
    if StartsEscape(path) {
      HighPairStays(path[1..]);
      assert Escape(path) == [c] + Escape(path[1..]);
      assert Escape(path)[3..] == Escape(path[1..])[2..];
      assert path[1..][2..] == path[3..];
    } else if c != PATH_SEP && NeedsEscape(c) {
      EscapeDecodes(c);
      assert Escape(path)[1] == EscapeByte(c)[1] && Escape(path)[2] == EscapeByte(c)[2];
      assert Escape(path)[3..] == Escape(path[1..]);
    } else {
      assert Escape(path)[1..] == Escape(path[1..]);
    }
  }

  lemma {:induction false} ReadBackLength(path: seq<Octet>)
    ensures |Unescape(Escape(path))| <= |path|
    ensures HoldsEscape(path) ==> |Unescape(Escape(path))| < |path|
    decreases |path|
  {
    if path != [] {
      UnescapeNext(path);
      HoldsEscapeNext(path);
      if StartsEscape(path) {
        ReadBackLength(path[3..]);
      } else {
        ReadBackLength(path[1..]);
      }
    }
  }

  /** Unescaping undoes escaping, up to the direction of the separators, exactly on the paths that
      do not themselves hold something that reads like an escape. */
  lemma {:induction false} RoundTripIff(path: seq<Octet>)
    ensures Unescape(Escape(path)) == WithNtSeparators(path) <==> !HoldsEscape(path)
  {
    if HoldsEscape(path) {
      ReadBackLength(path);
    } else if path != [] {
      UnescapeNext(path);
      HoldsEscapeNext(path);
      NtSeparatorsNext(path);
      RoundTripIff(path[1..]);
    }
  }

  /** A path without the lead byte holds no escape, so it reads back. */
  lemma {:induction false} RoundTripWithoutLead(path: seq<Octet>)
    requires ESCAPE_LEAD !in path
    ensures Unescape(Escape(path)) == WithNtSeparators(path)
  {
    RoundTripIff(path);
    forall i | 0 <= i <= |path| ensures !StartsEscape(path[i..]) {
      assert i < |path| ==> path[i] in path;
    }
  }

  lemma {:induction false} EscapeNonEmpty(path: seq<Octet>)
    ensures Escape(path) == [] <==> path == []
  {
  }

  // ---------------------------------------------------------------------------
  // Which paths share an escaped form

  /** The text starts with exactly the three bytes that the writer makes of a character. */
  predicate StartsWritten(text: seq<Octet>) {
    StartsEscape(text) && text[..3] == EscapeByte(Decoded(text[1], text[2]))
  }

  /** Some place of the path looks as if the writer had written it. */
  ghost predicate HoldsWritten(path: seq<Octet>) {
    exists i | 0 <= i <= |path| :: StartsWritten(path[i..])
  }

  /** The path with every such place replaced by the character it stands for. */
  function Reduced(path: seq<Octet>): (reduced: seq<Octet>) {
    if path == [] then []
    else if StartsWritten(path) then [Decoded(path[1], path[2])] + Reduced(path[3..])
    else [path[0]] + Reduced(path[1..])
  }

  lemma {:induction false} HoldsWrittenNext(path: seq<Octet>)
    requires path != []
    ensures HoldsWritten(path) <==> StartsWritten(path) || HoldsWritten(path[1..])
  {
    assert path[0..] == path;
    assert forall i | 1 <= i <= |path| :: path[i..] == path[1..][i - 1..];
    if HoldsWritten(path[1..]) {
      var i :| 0 <= i <= |path[1..]| && StartsWritten(path[1..][i..]);
      assert path[i + 1..] == path[1..][i..];
    }
  }

  lemma {:induction false} SameFront(p: seq<Octet>, q: seq<Octet>)
    requires p != [] && q != [] && Escape(p) == Escape(q)
    requires p[0] != PATH_SEP && NeedsEscape(p[0]) <==> q[0] != PATH_SEP && NeedsEscape(q[0])
    ensures p[0] == q[0] && Escape(p[1..]) == Escape(q[1..])
  {
    EscapeNext(p);
    EscapeNext(q);
    if p[0] != PATH_SEP && NeedsEscape(p[0]) {
      EscapeDecodes(p[0]);
      EscapeDecodes(q[0]);
      assert Escape(p)[1] == EscapeByte(p[0])[1] && Escape(p)[2] == EscapeByte(p[0])[2];
      assert Escape(q)[1] == EscapeByte(q[0])[1] && Escape(q)[2] == EscapeByte(q[0])[2];
      assert Escape(p)[3..] == Escape(p[1..]) && Escape(q)[3..] == Escape(q[1..]);
    } else {
      assert Escape(p)[1..] == Escape(p[1..]) && Escape(q)[1..] == Escape(q[1..]);
    }
  }

  /** The escape of a character can only come from that character or from bytes that spell it out. */
  lemma {:induction false} EscapedFront(p: seq<Octet>, q: seq<Octet>)
    requires p != [] && q != [] && Escape(p) == Escape(q) && p[0] != PATH_SEP && NeedsEscape(p[0])
    ensures q[0] == p[0] || StartsWritten(q)
  {
    var c := p[0];
    EscapeNext(p);
    EscapeNext(q);
    EscapeDecodes(c);
    assert Escape(p)[1] == EscapeByte(c)[1] && Escape(p)[2] == EscapeByte(c)[2];
    if q[0] != PATH_SEP && NeedsEscape(q[0]) {
      SameFront(p, q);
    } else {
      assert q[0] == ESCAPE_LEAD;
      assert Escape(q)[1] == Escape(q[1..])[0] && Escape(q)[2] == Escape(q[1..])[1];
      EscapeAddsNone(q[1..]);
      assert q[..3] == EscapeByte(c);
    }
  }

  /** Escaping is injective on the paths that hold nothing the writer could have written. */
  lemma {:induction false} EscapeIsInjective(p: seq<Octet>, q: seq<Octet>)
    requires !HoldsWritten(p) && !HoldsWritten(q) && Escape(p) == Escape(q)
    ensures p == q
    decreases |p|
  {
    EscapeNonEmpty(p);
    EscapeNonEmpty(q);
    if p != [] {
      HoldsWrittenNext(p);
      HoldsWrittenNext(q);
      if p[0] != PATH_SEP && NeedsEscape(p[0]) {
        EscapedFront(p, q);
      } else if q[0] != PATH_SEP && NeedsEscape(q[0]) {
        EscapedFront(q, p);
      }
      SameFront(p, q);
      EscapeIsInjective(p[1..], q[1..]);
      assert p == [p[0]] + p[1..] && q == [q[0]] + q[1..];
    }
  }

  lemma {:induction false} WrittenStays(path: seq<Octet>)
    requires StartsWritten(path)
    ensures Escape(path) == EscapeByte(Decoded(path[1], path[2])) + Escape(path[3..])
  {
    HighPairStays(path[1..]);
    EscapeNext(path);
    assert path[1..][2..] == path[3..];
    var rest := Escape(path[1..]);
    assert rest == rest[..2] + Escape(path[3..]);
    assert path[..3] == [path[0]] + rest[..2];
    Associative([path[0]], rest[..2], Escape(path[3..]));
  }

  lemma {:induction false} ReducedEscapesAlike(path: seq<Octet>)
    ensures Escape(Reduced(path)) == Escape(path)
    ensures |Reduced(path)| <= |path|
    ensures HoldsWritten(path) ==> |Reduced(path)| < |path|
    decreases |path|
  {
    if path != [] {
      HoldsWrittenNext(path);
      if StartsWritten(path) {
        ReducedEscapesAlike(path[3..]);
        WrittenStays(path);
      } else {
        ReducedEscapesAlike(path[1..]);
      }
      EscapeNext(Reduced(path));
      assert Reduced(path)[1..] == Reduced(if StartsWritten(path) then path[3..] else path[1..]);
    }
  }

  /** A byte with the high bit set is one of the path's own. */
  lemma {:induction false} HighByteKept(path: seq<Octet>)
    requires Reduced(path) != [] && Reduced(path)[0] & 0x80 != 0
    ensures path[0] == Reduced(path)[0] && Reduced(path)[1..] == Reduced(path[1..])
  {
  }

  lemma {:induction false} ReducedHoldsNone(path: seq<Octet>)
    ensures !HoldsWritten(Reduced(path))
    decreases |path|
  {
    var reduced := Reduced(path);
    if path != [] {
      ReducedHoldsNone(if StartsWritten(path) then path[3..] else path[1..]);
      HoldsWrittenNext(reduced);
      assert reduced[1..] == Reduced(if StartsWritten(path) then path[3..] else path[1..]);
      if StartsWritten(reduced) {
        HighByteKept(path);
        HighByteKept(path[1..]);
        HighByteKept(path[1..][1..]);
      }
    }
  }

  /** Two paths share an escaped form exactly if they differ only in places that spell out an escape. */
  lemma {:induction false} SameEscapeIff(p: seq<Octet>, q: seq<Octet>)
    ensures Escape(p) == Escape(q) <==> Reduced(p) == Reduced(q)
  {
    ReducedEscapesAlike(p);
    ReducedEscapesAlike(q);
    if Escape(p) == Escape(q) {
      ReducedHoldsNone(p);
      ReducedHoldsNone(q);
      EscapeIsInjective(Reduced(p), Reduced(q));
    }
  }

  /** A path shares its escaped form with another, one that is free of such places, exactly if it holds
      one. */
  lemma {:induction false} CollidesIff(p: seq<Octet>)
    ensures HoldsWritten(p) <==> exists q :: q != p && !HoldsWritten(q) && Escape(q) == Escape(p)
  {
    if HoldsWritten(p) {
      ReducedEscapesAlike(p);
      ReducedHoldsNone(p);
      var q := Reduced(p);
      assert q != p && !HoldsWritten(q) && Escape(q) == Escape(p);
    } else if q :| q != p && !HoldsWritten(q) && Escape(q) == Escape(p) {
      EscapeIsInjective(p, q);
    }
  }

  /** A colon, and the three bytes that its escape consists of. */
  lemma {:induction false} CollisionExample()
    ensures Escape([0x3a]) == Escape([0xef, 0x80, 0xba])
    ensures Unescape(Escape([0xef, 0x80, 0xba])) == [0x3a] && HoldsWritten([0xef, 0x80, 0xba])
  {
    var path: seq<Octet> := [0xef, 0x80, 0xba];
    assert path[1..] == [0x80, 0xba] && path[1..][1..] == [0xba] && path[1..][1..][1..] == [];
    assert Escape([0xba]) == [0xba];
    assert Escape([0x80, 0xba]) == [0x80] + Escape([0xba]);
    var colon: seq<Octet> := [0x3a];
    assert colon[1..] == [];
    assert Escape(path) == path && path[3..] == [] && Unescape([]) == [];
    assert path[0..] == path && path[..3] == EscapeByte(0x3a);
  }

  // ---------------------------------------------------------------------------
  // The routines

  /** EscapePathForNtLength */
  method EscapedLength(path: seq<Octet>) returns (length: nat)
    ensures length == |Escape(path)|
  {
    length := 0;
    var i := 0;
    while i < |path|
      invariant 0 <= i <= |path|
      invariant length + |Escape(path[i..])| == |Escape(path)|
    {
      EscapeNext(path[i..]);
      assert path[i..][1..] == path[i + 1..];
      if !NeedsEscape(path[i]) {
        length := length + 1;
      } else {
        length := length + 3;
      }
      i := i + 1;
    }
  }

  lemma {:induction false} EscapeConcat(left: seq<Octet>, right: seq<Octet>)
    ensures Escape(left + right) == Escape(left) + Escape(right)
  {
    if left == [] {
      assert left + right == right;
    } else {
      EscapeConcat(left[1..], right);
      assert (left + right)[1..] == left[1..] + right;
      EscapeNext(left);
      EscapeNext(left + right);
      Associative(EscapeByte(left[0]), Escape(left[1..]), Escape(right));
    }
  }

  lemma {:induction false} EscapePrefix(path: seq<Octet>, i: nat)
    requires i < |path|
    ensures Escape(path[..i + 1]) == Escape(path[..i]) + EscapeByte(path[i])
    ensures |Escape(path[..i + 1])| <= |Escape(path)|
  {
    assert path[..i + 1] == path[..i] + [path[i]];
    EscapeConcat(path[..i], [path[i]]);
    assert Escape([path[i]]) == EscapeByte(path[i]) + [];
    assert path == path[..i + 1] + path[i + 1..];
    EscapeConcat(path[..i + 1], path[i + 1..]);
  }

  method WriteEscaped(c: Octet, escaped: array<Octet>, insertion: nat) returns (next: nat)
    requires insertion + |EscapeByte(c)| <= escaped.Length
    modifies escaped
    ensures next == insertion + |EscapeByte(c)|
    ensures escaped[..next] == old(escaped[..insertion]) + EscapeByte(c)
    ensures escaped[next..] == old(escaped[insertion + |EscapeByte(c)|..])
  {
    if c == PATH_SEP {
      escaped[insertion] := PATH_SEP_NT;
      next := insertion + 1;
    } else if !NeedsEscape(c) {
      escaped[insertion] := c;
      next := insertion + 1;
    } else {
      escaped[insertion] := ESCAPE_LEAD;
      escaped[insertion + 1] := 0x80 | (c >> 6);
      escaped[insertion + 2] := 0x80 | (c & 0x3f);
      next := insertion + 3;
    }
  }

  lemma {:induction false} SuffixToo(a: seq<Octet>, b: seq<Octet>, from: nat, to: nat)
    requires from <= to <= |a| == |b| && a[from..] == b[from..]
    ensures a[to..] == b[to..]
  {
    assert a[to..] == a[from..][to - from..] && b[to..] == b[from..][to - from..];
  }

  /** EscapePathForNt, into a buffer that is large enough; it fills exactly the escaped length. */
  method EscapeInto(path: seq<Octet>, escaped: array<Octet>)
    requires |Escape(path)| <= escaped.Length
    modifies escaped
    ensures escaped[..|Escape(path)|] == Escape(path)
    ensures escaped[|Escape(path)|..] == old(escaped[|Escape(path)|..])
  {
    var insertion := 0;
    var i := 0;
    while i < |path|
      invariant 0 <= i <= |path|
      invariant insertion == |Escape(path[..i])| <= escaped.Length
      invariant escaped[..insertion] == Escape(path[..i])
      invariant escaped[insertion..] == old(escaped[..])[insertion..]
    {
      EscapePrefix(path, i);
      ghost var before, from := escaped[..], insertion;
      insertion := WriteEscaped(path[i], escaped, insertion);
      SuffixToo(before, old(escaped[..]), from, insertion);
      i := i + 1;
    }
    assert path[..|path|] == path;
  }

  /** The buffer while it is being unescaped: a finished part, then text still to read. */
  ghost predicate HalfUnescaped(buffer: seq<Octet>, original: seq<Octet>, current: nat, rest: seq<Octet>) {
    && current + |rest| < |buffer|
    && buffer[current..current + |rest|] == rest && buffer[current + |rest|] == 0 && 0 !in rest
    && Unescape(original) == buffer[..current] + Unescape(rest)
  }

  lemma {:induction false} DecodeStep(buffer: seq<Octet>, buffer': seq<Octet>, original: seq<Octet>, current: nat,
                                      rest: seq<Octet>)
    requires HalfUnescaped(buffer, original, current, rest) && StartsEscape(rest) && |buffer'| == |buffer|
    requires buffer'[..current] == buffer[..current] && buffer'[current] == Decoded(rest[1], rest[2])
    requires buffer'[current + 1..current + 1 + |rest| - 2] == buffer[current + 3..current + |rest| + 1]
    ensures HalfUnescaped(buffer', original, current + 1, rest[3..])
  {
    var later := rest[3..];
    var moved := buffer[current + 3..current + |rest| + 1];
    assert moved[..|later|] == buffer[current..current + |rest|][3..] == later;
    assert buffer'[current + 1..current + 1 + |later|] == moved[..|later|];
    assert buffer'[current + 1 + |later|] == moved[|later|];
    assert buffer'[..current + 1] == buffer[..current] + [Decoded(rest[1], rest[2])];
  }

  lemma {:induction false} CopyStep(buffer: seq<Octet>, original: seq<Octet>, current: nat, rest: seq<Octet>)
    requires HalfUnescaped(buffer, original, current, rest) && rest != [] && !StartsEscape(rest)
    ensures HalfUnescaped(buffer, original, current + 1, rest[1..])
  {
    var later := rest[1..];
    assert buffer[current + 1..current + |rest|] == buffer[current..current + |rest|][1..] == later;
    assert buffer[..current + 1] == buffer[..current] + [rest[0]];
  }

  // ---------------------------------------------------------------------------
  // What a C caller sees afterwards

  predicate StartsNul(text: seq<Octet>) {
    StartsEscape(text) && Decoded(text[1], text[2]) == 0
  }

  /** Some place of the text reads like an escaped terminator. */
  ghost predicate HoldsNul(text: seq<Octet>) {
    exists i | 0 <= i <= |text| :: StartsNul(text[i..])
  }

  lemma {:induction false} HoldsNulNext(text: seq<Octet>)
    requires text != []
    ensures HoldsNul(text) <==> StartsNul(text) || HoldsNul(text[1..])
  {
    assert text[0..] == text;
    assert forall i | 1 <= i <= |text| :: text[i..] == text[1..][i - 1..];
    if HoldsNul(text[1..]) {
      var i :| 0 <= i <= |text[1..]| && StartsNul(text[1..][i..]);
      assert text[i + 1..] == text[1..][i..];
    }
  }

  /** No escape starts inside another one. */
  lemma {:induction false} NoneInside(text: seq<Octet>)
    requires StartsEscape(text)
    ensures HoldsNul(text) <==> StartsNul(text) || HoldsNul(text[3..])
  {
    LeadInside(text[1]);
    LeadInside(text[2]);
    HoldsNulNext(text);
    HoldsNulNext(text[1..]);
    HoldsNulNext(text[1..][1..]);
    assert text[1..][1..][1..] == text[3..];
    assert text[1] != ESCAPE_LEAD && text[2] != ESCAPE_LEAD;
  }

  /** Unescaping makes a terminator exactly of an escaped one. */
  lemma {:induction false} NulDecodedIff(text: seq<Octet>)
    requires 0 !in text
    ensures 0 in Unescape(text) <==> HoldsNul(text)
    decreases |text|
  {
    if text != [] {
      if StartsEscape(text) {
        NoneInside(text);
        NulDecodedIff(text[3..]);
      } else {
        HoldsNulNext(text);
        NulDecodedIff(text[1..]);
      }
    }
  }

  /** The caller sees the unescaped text up to its first terminator. */
  lemma {:induction false} SeenIff(buffer: seq<Octet>, text: seq<Octet>)
    requires 0 !in text && |Unescape(text)| < |buffer|
    requires buffer[..|Unescape(text)|] == Unescape(text) && buffer[|Unescape(text)|] == 0
    ensures Terminated(buffer, 0) && CString(buffer, 0) <= Unescape(text)
    ensures CString(buffer, 0) == Unescape(text) <==> !HoldsNul(text)
  {
    NulDecodedIff(text);
    SeenUpToNul(buffer, 0, Unescape(text));
  }

  /** A letter, an escaped terminator and a letter: the caller sees the first letter only. */
  lemma {:induction false} CutExample()
    ensures var text: seq<Octet> := [0x61, 0xef, 0x80, 0x80, 0x62];
            && 0 !in text && HoldsNul(text) && Unescape(text) == [0x61, 0, 0x62]
            && Terminated(Unescape(text) + [0], 0) && CString(Unescape(text) + [0], 0) == [0x61]
  {
    var text: seq<Octet> := [0x61, 0xef, 0x80, 0x80, 0x62];
    assert text[1..] == [0xef, 0x80, 0x80, 0x62] && text[1..][3..] == [0x62] && text[1..][3..][1..] == [];
    assert StartsNul(text[1..]);
    assert Unescape(text[1..]) == [0] + Unescape([0x62]);
    CStringIs([0x61, 0, 0x62, 0], 0, 1);
  }

  /** UnescapePathInplace: the buffer ends up holding one left-to-right pass over its text. A decoded
      terminator stays inside and cuts the string a C caller sees. */
  method UnescapeInPlace(path: array<Octet>)
    requires Terminated(path[..], 0)
    modifies path
    ensures var result := Unescape(old(CString(path[..], 0)));
            && |result| < path.Length
            && path[..|result|] == result && path[|result|] == 0
    ensures path[|old(CString(path[..], 0))| + 1..] == old(path[|CString(path[..], 0)| + 1..])
    ensures Terminated(path[..], 0) && CString(path[..], 0) <= Unescape(old(CString(path[..], 0)))
    ensures CString(path[..], 0) == Unescape(old(CString(path[..], 0))) <==> !HoldsNul(old(CString(path[..], 0)))
  {
    ghost var original := CString(path[..], 0);
    ghost var rest := original;
    var current := 0;
    while path[current] != 0
      invariant 0 <= current && current + |rest| <= |original|
      invariant HalfUnescaped(path[..], original, current, rest)
      invariant path[|original| + 1..] == old(path[|original| + 1..])
      decreases |rest|
    {
      rest := UnescapeOne(path, current, original, rest);
      current := current + 1;
    }
    assert rest == [];
    SeenIff(path[..], original);
  }

  /** One turn of the loop. */
  method UnescapeOne(path: array<Octet>, current: nat, ghost original: seq<Octet>, ghost rest: seq<Octet>)
    returns (ghost rest': seq<Octet>)
    requires HalfUnescaped(path[..], original, current, rest) && rest != []
             && current + |rest| <= |original| < path.Length
    modifies path
    ensures HalfUnescaped(path[..], original, current + 1, rest')
    ensures |rest'| < |rest| && current + 1 + |rest'| <= |original|
    ensures path[|original| + 1..] == old(path[|original| + 1..])
  {
    ghost var before := path[..];
    assert before[current..current + |rest| + 1] == rest + [0];
    if path[current] == ESCAPE_LEAD && path[current + 1] & 0x80 != 0 && path[current + 2] & 0x80 != 0 {
      assert (rest + [0])[1] == path[current + 1];
      assert (rest + [0])[2] == path[current + 2];
      var unescaped := Decoded(path[current + 1], path[current + 2]);
      if NeedsEscape(unescaped) {
        Splice(path, current, unescaped, rest[3..]);
        DecodeStep(before, path[..], original, current, rest);
        return rest[3..];
      }
    }
    CopyStep(before, original, current, rest);
    rest' := rest[1..];
  }

  /** Stores one character and moves the text three further on right behind it. */
  method Splice(path: array<Octet>, current: nat, c: Octet, ghost text: seq<Octet>)
    requires current + 3 + |text| < path.Length
    requires path[current + 3..current + 3 + |text|] == text && path[current + 3 + |text|] == 0 && 0 !in text
    modifies path
    ensures path[..current] == old(path[..current]) && path[current] == c
    ensures path[current + 1..current + 1 + |text| + 1] == old(path[current + 3..current + 3 + |text| + 1])
    ensures path[current + 3 + |text|..] == old(path[current + 3 + |text|..])
  {
    path[current] := c;
    var length := TextLength(path, current + 3, text);
    MemMoveDown(path, current + 1, current + 3, length + 1);
  }

  /** strlen of the text from a position on. */
  method TextLength(path: array<Octet>, start: nat, ghost text: seq<Octet>) returns (length: nat)
    requires start + |text| < path.Length && path[start..start + |text|] == text && path[start + |text|] == 0
             && 0 !in text
    ensures length == |text|
  {
    length := 0;
    while path[start + length] != 0
      invariant 0 <= length <= |text|
      invariant length < |text| ==> path[start + length] == text[length]
      decreases |text| - length
    {
      length := length + 1;
    }
  }
}
