/**
  The mountinfo parser as it works: in the buffer that holds the line. Terminators are written over
  separators, the entry's strings point into the buffer, and three of them are unescaped there.
 */
module MountInfoInPlace {
  import opened Wrappers
  import opened CStrings
  import opened MountInfo
  import opened MountInfoRoundTrip

  /** The line from a position on is still as it was. */
  ghost predicate Unread(buffer: string, s: string, pos: nat) {
    NUL !in s && pos <= |s| && HoldsText(buffer, pos, s[pos..])
  }

  /** Only positions of the line from pos on have changed. */
  ghost predicate ChangedFrom(before: string, after: string, s: string, pos: nat) {
    |after| == |before| && forall k | 0 <= k < |before| && (k < pos || k >= |s|) :: after[k] == before[k]
  }

  // ---------------------------------------------------------------------------
  // Unescaping

  lemma {:induction false} UnescapeShortens(s: string)
    ensures |Unescape(s)| <= |s|
    decreases |s|
  {
    if s != [] {
      if s[0] == '\\' && StartsOctal(s[1..]) {
        UnescapeShortens(s[4..]);
      } else {
        UnescapeShortens(s[1..]);
      }
    }
  }

  /** MountFieldUnescapeOctal: three octal digits shifted into eight bits, or nothing. */
  method UnescapeOctal(buffer: array<char>, start: nat, ghost text: string) returns (unescaped: Option<char>)
    requires HoldsText(buffer[..], start, text)
    ensures unescaped == if StartsOctal(text) then Some(OctalValue(text)) else None
  {
    var value := 0;
    var index := 0;
    while index < 3
      invariant 0 <= index <= 3 && AllOctal(text, index) && value == Shifted(text, index)
    {
      TextAtIndex(buffer[..], start, text, index);
      var character := buffer[start + index];
      if character < '0' || character > '7' {
        return None;
      }
      value := (8 * value + Digit(character)) % 0x100;
      index := index + 1;
    }
    ThreeShifts(text);
    unescaped := Some(value as char);
  }

  ghost predicate AllOctal(text: string, n: nat) {
    n <= |text| && forall k | 0 <= k < n :: IsOctal(text[k])
  }

  ghost function Shifted(text: string, n: nat): (value: int)
    requires AllOctal(text, n)
    ensures 0 <= value < 0x100
  {
    if n == 0 then 0 else (8 * Shifted(text, n - 1) + Digit(text[n - 1])) % 0x100
  }

  lemma {:induction false} ThreeShifts(text: string)
    requires AllOctal(text, 3)
    ensures StartsOctal(text) && Shifted(text, 3) as char == OctalValue(text)
  {
    assert Shifted(text, 1) == Digit(text[0]);
    assert Shifted(text, 2) == 8 * Digit(text[0]) + Digit(text[1]);
  }

  lemma {:induction false} TextAtIndex(buffer: string, start: nat, text: string, index: nat)
    requires HoldsText(buffer, start, text) && index <= |text|
    ensures buffer[start + index] == if index < |text| then text[index] else NUL
  {
  }

  /** The field while it is being unescaped: a finished part, then text still to read further on. */
  ghost predicate HalfUnescaped(buffer: string, start: nat, text: string, index: nat, insertion: nat) {
    && insertion <= index <= |text| && start + |text| < |buffer|
    && HoldsText(buffer, start + index, text[index..])
    && Unescape(text) == buffer[start..start + insertion] + Unescape(text[index..])
  }

  lemma {:induction false} TailHeld(buffer: string, start: nat, text: string, n: nat)
    requires HoldsText(buffer, start, text) && n <= |text|
    ensures HoldsText(buffer, start + n, text[n..])
  {
  }

  lemma {:induction false} WriteBelow(before: string, after: string, start: nat, text: string, place: nat, c: char)
    requires HoldsText(before, start, text) && place < start && after == before[place := c]
    ensures HoldsText(after, start, text)
  {
  }

  lemma {:induction false} StoredStep(before: string, after: string, start: nat, text: string, index: nat,
                                      insertion: nat, width: nat, c: char)
    requires HalfUnescaped(before, start, text, index, insertion) && 0 < width && index + width <= |text|
    requires after == before[start + insertion := c]
    requires Unescape(text[index..]) == [c] + Unescape(text[index + width..])
    ensures HalfUnescaped(after, start, text, index + width, insertion + 1)
  {
    TailHeld(before, start + index, text[index..], width);
    assert text[index..][width..] == text[index + width..];
    WriteBelow(before, after, start + index + width, text[index + width..], start + insertion, c);
    OneMore(before, after, start, insertion, c, Unescape(text[index + width..]));
  }

  lemma {:induction false} OneMore(before: string, after: string, start: nat, insertion: nat, c: char, rest: string)
    requires start + insertion < |before| && after == before[start + insertion := c]
    ensures before[start..start + insertion] + ([c] + rest) == after[start..start + insertion + 1] + rest
  {
  }

  lemma {:induction false} EscapeRead(text: string, index: nat)
    requires index < |text| && text[index] == '\\' && StartsOctal(text[index + 1..])
    ensures Unescape(text[index..]) == [OctalValue(text[index + 1..])] + Unescape(text[index + 4..])
  {
  }

  lemma {:induction false} PlainRead(text: string, index: nat)
    requires index < |text| && !(text[index] == '\\' && StartsOctal(text[index + 1..]))
    ensures Unescape(text[index..]) == [text[index]] + Unescape(text[index + 1..])
  {
  }

  /** The next character of the unescaped text, and how much of the field it takes. */
  method ReadOne(field: array<char>, start: nat, index: nat, ghost text: string) returns (c: char, width: nat)
    requires index < |text| && HoldsText(field[..], start + index, text[index..])
    ensures 0 < width && index + width <= |text| && (width == 1 ==> c == field[start + index])
    ensures Unescape(text[index..]) == [c] + Unescape(text[index + width..])
  {
    TextAtIndex(field[..], start + index, text[index..], 0);
    if field[start + index] == '\\' {
      TailHeld(field[..], start + index, text[index..], 1);
      assert text[index..][1..] == text[index + 1..];
      var unescaped := UnescapeOctal(field, start + index + 1, text[index + 1..]);
      if unescaped.Some? {
        EscapeRead(text, index);
        return unescaped.value, 4;
      }
    }
    PlainRead(text, index);
    return field[start + index], 1;
  }

  /** One turn of the loop. */
  method UnescapeOne(field: array<char>, start: nat, index: nat, insertion: nat, ghost text: string) returns (next: nat)
    requires HalfUnescaped(field[..], start, text, index, insertion) && index < |text|
    modifies field
    ensures index < next <= |text| && HalfUnescaped(field[..], start, text, next, insertion + 1)
    ensures forall k | 0 <= k < field.Length && k != start + insertion :: field[k] == old(field[k])
  {
    ghost var before := field[..];
    var stored, width := ReadOne(field, start, index, text);
    if width > 1 || insertion < index {
      field[start + insertion] := stored;
    }
    assert field[..] == before[start + insertion := stored];
    StoredStep(before, field[..], start, text, index, insertion, width, stored);
    next := index + width;
  }

  /** MountFieldUnescape: one left-to-right pass, in place; nothing outside the field is touched. */
  method UnescapeField(field: array<char>, start: nat, ghost text: string)
    requires HoldsText(field[..], start, text) && NUL !in text
    modifies field
    ensures |Unescape(text)| <= |text| && HoldsText(field[..], start, Unescape(text))
    ensures forall k | 0 <= k < field.Length && !(start <= k <= start + |text|) :: field[k] == old(field[k])
  {
    var index, insertion := 0, 0;
    assert text[0..] == text;
    while field[start + index] != NUL
      invariant HalfUnescaped(field[..], start, text, index, insertion)
      invariant forall k | 0 <= k < field.Length && !(start <= k < start + |text|) :: field[k] == old(field[k])
      decreases |text| - index
    {
      index := UnescapeOne(field, start, index, insertion, text);
      insertion := insertion + 1;
    }
    TextAtIndex(field[..], start + index, text[index..], 0);
    field[start + insertion] := NUL;
  }

  predicate StartsNul(s: string) {
    |s| > 0 && s[0] == '\\' && StartsOctal(s[1..]) && OctalValue(s[1..]) == NUL
  }

  /** Some place of the text reads like an escaped terminator. */
  ghost predicate HoldsNul(s: string) {
    exists i | 0 <= i <= |s| :: StartsNul(s[i..])
  }

  lemma {:induction false} HoldsNulNext(s: string)
    requires s != []
    ensures HoldsNul(s) <==> StartsNul(s) || HoldsNul(s[1..])
  {
    assert s[0..] == s;
    assert forall i | 1 <= i <= |s| :: s[i..] == s[1..][i - 1..];
    if HoldsNul(s[1..]) {
      var i :| 0 <= i <= |s[1..]| && StartsNul(s[1..][i..]);
      assert s[i + 1..] == s[1..][i..];
    }
  }

  lemma {:induction false} NoneInside(s: string)
    requires |s| > 0 && s[0] == '\\' && StartsOctal(s[1..])
    ensures HoldsNul(s) <==> StartsNul(s) || HoldsNul(s[4..])
  {
    HoldsNulNext(s);
    HoldsNulNext(s[1..]);
    HoldsNulNext(s[1..][1..]);
    HoldsNulNext(s[1..][1..][1..]);
    assert s[1..][1..][1..][1..] == s[4..];
  }

  /** Unescaping makes a terminator exactly of an escaped one. */
  lemma {:induction false} NulDecodedIff(s: string)
    requires NUL !in s
    ensures NUL in Unescape(s) <==> HoldsNul(s)
    decreases |s|
  {
    if s != [] {
      if s[0] == '\\' && StartsOctal(s[1..]) {
        NoneInside(s);
        NulDecodedIff(s[4..]);
      } else {
        HoldsNulNext(s);
        NulDecodedIff(s[1..]);
      }
    }
  }

  /** A caller sees the whole unescaped field exactly if the field has no escaped terminator in it. */
  lemma {:induction false} FieldSeenIff(buffer: string, start: nat, text: string)
    requires NUL !in text && HoldsText(buffer, start, Unescape(text))
    ensures Terminated(buffer[start..], NUL) && CString(buffer[start..], NUL) <= Unescape(text)
    ensures CString(buffer[start..], NUL) == Unescape(text) <==> !HoldsNul(text)
  {
    NulDecodedIff(text);
    assert buffer[start..][..|Unescape(text)|] == Unescape(text);
    SeenUpToNul(buffer[start..], NUL, Unescape(text));
  }

  /** Also four hundred is a terminator in eight bits. */
  lemma {:induction false} EscapedNulExample()
    ensures Unescape("a\\400b") == ['a', NUL, 'b'] && HoldsNul("a\\400b")
  {
    var s := "a\\400b";
    assert s[1..] == "\\400b" && s[1..][1..] == "400b" && s[1..][4..] == "b" && s[1..][4..][1..] == [];
    assert StartsNul(s[1..]);
    assert Unescape(s[1..]) == [NUL] + Unescape("b");
  }

  // ---------------------------------------------------------------------------
  // Tokens

  lemma {:induction false} UnreadChar(buffer: string, s: string, pos: nat, k: nat)
    requires Unread(buffer, s, pos) && pos <= k <= |s|
    ensures buffer[k] == if k < |s| then s[k] else NUL
    ensures k < |s| ==> s[k] != NUL
  {
  }

  lemma {:induction false} UnreadLater(buffer: string, s: string, pos: nat, later: nat)
    requires Unread(buffer, s, pos) && pos <= later <= |s|
    ensures Unread(buffer, s, later)
  {
  }

  method SkipSeparators(line: array<char>, pos: nat, c: char, ghost s: string) returns (start: nat)
    requires Unread(line[..], s, pos) && c != NUL
    ensures start == SkipOver(s, pos, c)
  {
    start := pos;
    UnreadChar(line[..], s, pos, pos);
    while line[start] == c
      invariant pos <= start <= |s| && SkipOver(s, start, c) == SkipOver(s, pos, c)
      invariant line[start] == if start < |s| then s[start] else NUL
      decreases |s| - start
    {
      start := start + 1;
      UnreadChar(line[..], s, pos, start);
    }
  }

  method FindSeparator(line: array<char>, pos: nat, c: char, ghost s: string) returns (end: nat)
    requires Unread(line[..], s, pos) && c != NUL
    ensures end == FindNext(s, pos, c)
  {
    end := pos;
    UnreadChar(line[..], s, pos, pos);
    while line[end] != NUL && line[end] != c
      invariant pos <= end <= |s| && FindNext(s, end, c) == FindNext(s, pos, c)
      invariant line[end] == if end < |s| then s[end] else NUL
      decreases |s| - end
    {
      end := end + 1;
      UnreadChar(line[..], s, pos, end);
    }
    UnreadChar(line[..], s, pos, end);
  }

  /** The buffer after a token was cut off: the token stands terminated, the rest is unread. */
  ghost predicate CutOff(before: string, after: string, s: string, pos: nat, token: Token)
    requires token.start < token.end <= |s|
  {
    && ChangedFrom(before, after, s, pos)
    && HoldsText(after, token.start, s[token.start..token.end])
    && Unread(after, s, After(s, token))
  }

  lemma {:induction false} Cutting(before: string, after: string, s: string, pos: nat, token: Token)
    requires Unread(before, s, pos) && pos <= token.start < token.end <= |s|
    requires after == before[token.end := NUL]
    ensures CutOff(before, after, s, pos, token)
  {
    UnreadLater(before, s, pos, token.start);
    UnreadLater(before, s, pos, After(s, token));
    assert after[token.start..token.end] == before[token.start..|s|][..token.end - token.start] ==
           s[token.start..token.end];
    assert after[After(s, token)..|s|] == before[After(s, token)..|s|];
    UnreadChar(before, s, pos, |s|);
  }

  /** strtok_r with one separator. */
  method Strtok(line: array<char>, pos: nat, c: char, ghost s: string) returns (start: Option<nat>, next: nat)
    requires Unread(line[..], s, pos) && c != NUL
    modifies line
    ensures start.Some? <==> NextToken(s, pos, c).Some?
    ensures start.Some? ==>
              var token := NextToken(s, pos, c).value;
              start.value == token.start && next == After(s, token) && CutOff(old(line[..]), line[..], s, pos, token)
    ensures start.None? ==> next == |s| && line[..] == old(line[..])
  {
    var first := SkipSeparators(line, pos, c, s);
    UnreadLater(line[..], s, pos, first);
    UnreadChar(line[..], s, pos, first);
    if line[first] == NUL {
      return None, first;
    }
    var end := FindSeparator(line, first, c, s);
    UnreadChar(line[..], s, pos, end);
    Cutting(line[..], line[..][end := NUL], s, pos, Token(first, end));
    if line[end] == NUL {
      assert line[..] == line[..][end := NUL];
      return Some(first), end;
    }
    line[end] := NUL;
    assert line[..] == old(line[..])[end := NUL];
    return Some(first), end + 1;
  }

  // ---------------------------------------------------------------------------
  // Fields

  lemma {:induction false} HeldIsCString(buffer: string, start: nat, text: string)
    requires HoldsText(buffer, start, text) && NUL !in text
    ensures start <= |buffer| && Terminated(buffer[start..], NUL) && CString(buffer[start..], NUL) == text
  {
  }

  lemma {:induction false} SplitHeld(buffer: string, start: nat, text: string, separator: nat)
    requires HoldsText(buffer, start, text) && separator < |text|
    ensures HoldsText(buffer[start + separator := NUL], start, text[..separator])
    ensures HoldsText(buffer[start + separator := NUL], start + separator + 1, text[separator + 1..])
  {
  }

  /** atoi on a terminated string. */
  method ReadNumber(line: array<char>, start: nat, ghost text: string) returns (value: int)
    requires HoldsText(line[..], start, text) && NUL !in text
    ensures value == Atoi(text)
  {
    HeldIsCString(line[..], start, text);
    assert line[start..] == line[..][start..];
    value := Atoi(CString(line[start..], NUL));
  }

  /** strchr on a terminated string; its length if the character is not in it. */
  method FindChar(line: array<char>, start: nat, c: char, ghost text: string) returns (index: nat)
    requires HoldsText(line[..], start, text) && NUL !in text
    ensures index == FindNext(text, 0, c)
  {
    HeldIsCString(line[..], start, text);
    assert line[start..] == line[..][start..];
    index := FindNext(CString(line[start..], NUL), 0, c);
  }

  /** MountParseDevice: a terminator goes over the colon, and each half is read as a number. */
  method ReadDevice(line: array<char>, start: nat, ghost text: string) returns (device: Option<nat>)
    requires HoldsText(line[..], start, text) && NUL !in text
    modifies line
    ensures device == ParseDevice(text)
    ensures forall k | 0 <= k < line.Length && !(start <= k < start + |text|) :: line[k] == old(line[k])
  {
    var separator := FindChar(line, start, ':', text);
    TextAtIndex(line[..], start, text, separator);
    if line[start + separator] == NUL {
      return None;
    }
    SplitHeld(line[..], start, text, separator);
    line[start + separator] := NUL;
    assert line[..] == old(line[..])[start + separator := NUL];
    var major := ReadNumber(line, start, text[..separator]);
    var minor := ReadNumber(line, start + separator + 1, text[separator + 1..]);
    device := Some(MakeDev(major, minor));
  }

  /** The buffer with the token of a field cut off. */
  ghost predicate AtToken(buffer: string, s: string, pos: nat, token: Token, next: nat) {
    && pos <= token.start < token.end <= |s| && next == After(s, token)
    && HoldsText(buffer, token.start, s[token.start..token.end]) && Unread(buffer, s, next)
  }

  lemma {:induction false} ChangedFromTransitive(a: string, b: string, c: string, s: string, pos: nat, later: nat)
    requires ChangedFrom(a, b, s, pos) && ChangedFrom(b, c, s, later) && pos <= later
    ensures ChangedFrom(a, c, s, pos)
  {
  }

  /** strcmp with a single hyphen. */
  predicate IsHyphen(buffer: string, start: nat) {
    start + 1 < |buffer| && buffer[start] == '-' && buffer[start + 1] == NUL
  }

  lemma {:induction false} HyphenToken(buffer: string, s: string, pos: nat, token: Token, next: nat)
    requires AtToken(buffer, s, pos, token, next)
    ensures IsHyphen(buffer, token.start) <==> s[token.start..token.end] == "-"
  {
    var text := s[token.start..token.end];
    TextAtIndex(buffer, token.start, text, 0);
    TextAtIndex(buffer, token.start, text, 1);
    if |text| > 1 {
      assert s[token.start + 1] in s;
    }
  }

  /** Where the search stands in the optional fields: at a token, or past the last one. */
  ghost predicate Skipping(buffer: string, s: string, pos: nat, first: Token, current: Option<nat>, token: Token,
                           next: nat)
    requires first.start < first.end <= |s|
  {
    if current.Some? then
      && AtToken(buffer, s, pos, token, next) && current.value == token.start
      && SkipOptional(s, token) == SkipOptional(s, first)
    else Unread(buffer, s, next) && next == |s| && SkipOptional(s, first) == None
  }

  method NextOptional(line: array<char>, ghost pos: nat, rest: nat, ghost first: Token, ghost token: Token,
                      ghost s: string)
    returns (current: Option<nat>, next: nat, ghost token': Token)
    requires first.start < first.end <= |s| && Skipping(line[..], s, pos, first, Some(token.start), token, rest)
    requires s[token.start..token.end] != "-"
    modifies line
    ensures Skipping(line[..], s, pos, first, current, token', next)
    ensures current.Some? ==> token.start < token'.start <= |s|
    ensures ChangedFrom(old(line[..]), line[..], s, rest)
  {
    current, next := Strtok(line, rest, ' ', s);
    token' := token;
    if current.Some? {
      token' := NextToken(s, rest, ' ').value;
      SkipOptionalStep(s, token);
    }
  }

  /** The inner loop over the optional fields: up to the hyphen, or to the end of the line. */
  method SkipOptionalFields(line: array<char>, start: nat, rest: nat, ghost pos: nat, ghost first: Token,
                            ghost s: string)
    returns (next: nat)
    requires AtToken(line[..], s, pos, first, rest) && start == first.start
    modifies line
    ensures var hyphen := SkipOptional(s, first);
            next == if hyphen.Some? then After(s, hyphen.value) else |s|
    ensures ChangedFrom(old(line[..]), line[..], s, pos) && Unread(line[..], s, next)
  {
    ghost var token := first;
    var current := Some(start);
    next := rest;
    while current.Some? && !IsHyphen(line[..], current.value)
      invariant Skipping(line[..], s, pos, first, current, token, next) && ChangedFrom(old(line[..]), line[..], s, pos)
      decreases current.Some?, |s| - token.start
    {
      ghost var before, from := line[..], next;
      HyphenToken(before, s, pos, token, next);
      current, next, token := NextOptional(line, pos, next, first, token, s);
      ChangedFromTransitive(old(line[..]), before, line[..], s, pos, from);
    }
    if current.Some? {
      HyphenToken(line[..], s, pos, token, next);
    }
  }

  // ---------------------------------------------------------------------------
  // The entry's strings

  ghost predicate IsString(field: int) {
    FIELD_ROOT <= field <= FIELD_SUPER_OPTIONS && field != FIELD_OPTIONAL_FIELDS
  }

  ghost function Position(e: Entry, field: int): (start: nat)
    requires IsString(field)
  {
    if field == FIELD_ROOT then e.root
    else if field == FIELD_MOUNT_POINT then e.mountPoint
    else if field == FIELD_MOUNT_OPTIONS then e.mountOptions
    else if field == FIELD_FILE_SYSTEM_TYPE then e.fileSystemType
    else if field == FIELD_SOURCE then e.source
    else e.superOptions
  }

  /** Where the text of a field ends. */
  ghost function End(s: string, e: Entry, field: int): (end: nat)
    requires IsString(field) && Position(e, field) <= |s|
  {
    FindNext(s, Position(e, field), Separator(field))
  }

  /** A string that was recorded stands terminated in the part that is never touched again. */
  ghost predicate Kept(buffer: string, s: string, e: Entry, field: int, pos: nat)
    requires IsString(field)
  {
    && Position(e, field) <= |s|
    && HoldsText(buffer, Position(e, field), TextAt(s, Position(e, field), Separator(field)))
    && (End(s, e, field) < pos || End(s, e, field) == |s| == pos)
  }

  ghost predicate AllKept(buffer: string, s: string, e: Entry, upTo: int, pos: nat) {
    forall f | IsString(f) && f < upTo :: Kept(buffer, s, e, f, pos)
  }

  /** No two of the strings overlap. */
  ghost predicate Apart(s: string, e: Entry, upTo: int) {
    forall f, g | IsString(f) && IsString(g) && f < g < upTo ::
      Position(e, f) <= |s| && End(s, e, f) < Position(e, g)
  }

  lemma {:induction false} AllKeptThrough(before: string, after: string, s: string, e: Entry, upTo: int, pos: nat,
                                          later: nat)
    requires AllKept(before, s, e, upTo, pos) && pos <= later <= |s| && ChangedFrom(before, after, s, pos)
    ensures AllKept(after, s, e, upTo, later)
  {
  }

  lemma {:induction false} RecordedPosition(e: Entry, field: nat, start: nat, text: string, f: int)
    requires IsString(f) && Record(e, field, start, text).Some?
    ensures Position(Record(e, field, start, text).value, f) == if f == field then start else Position(e, f)
  {
  }

  /** Recording one more field. */
  lemma {:induction false} RecordKept(buffer: string, s: string, e: Entry, field: nat, pos: nat, token: Token,
                                      later: nat)
    requires pos <= |s| && field <= FIELD_SUPER_OPTIONS && NextField(s, pos, field) == Some(token)
    requires AllKept(buffer, s, e, field, pos) && Apart(s, e, field)
    requires AllKept(buffer, s, e, field, later) && After(s, token) <= later <= |s|
    requires IsString(field) ==> HoldsText(buffer, token.start, s[token.start..token.end])
    requires Record(e, field, token.start, s[token.start..token.end]).Some?
    ensures var e' := Record(e, field, token.start, s[token.start..token.end]).value;
            AllKept(buffer, s, e', field + 1, later) && Apart(s, e', field + 1)
  {
    var text := s[token.start..token.end];
    var e' := Record(e, field, token.start, text).value;
    forall f | IsString(f) && f < field + 1
      ensures Kept(buffer, s, e', f, later)
    {
      RecordedPosition(e, field, token.start, text, f);
      if f < field {
        assert Kept(buffer, s, e, f, later);
      }
    }
    forall f, g | IsString(f) && IsString(g) && f < g < field + 1
      ensures Position(e', f) <= |s| && End(s, e', f) < Position(e', g)
    {
      RecordedPosition(e, field, token.start, text, f);
      RecordedPosition(e, field, token.start, text, g);
      assert Kept(buffer, s, e, f, pos);
    }
  }

  // ---------------------------------------------------------------------------
  // The loop over the fields

  /** Between two fields: those before are recorded, and the rest of the line decides the result. */
  ghost predicate Between(buffer: string, s: string, field: nat, pos: nat, entry: Entry) {
    && field <= FIELD_SUPER_OPTIONS + 1 && Unread(buffer, s, pos)
    && ParseFrom(s, field, pos, entry) == ParseLine(s)
    && AllKept(buffer, s, entry, field, pos) && Apart(s, entry, field)
  }

  /** At the loop's head: the token of the next field, if there is one, is cut off already. */
  ghost predicate AtField(buffer: string, s: string, field: nat, pos: nat, current: Option<nat>, rest: nat,
                          entry: Entry) {
    && field <= FIELD_SUPER_OPTIONS + 1 && pos <= |s| && Unread(buffer, s, rest)
    && ParseFrom(s, field, pos, entry) == ParseLine(s)
    && AllKept(buffer, s, entry, field, pos) && Apart(s, entry, field)
    && (current.Some? <==> NextField(s, pos, field).Some?)
    && (current.Some? ==> AtToken(buffer, s, pos, NextField(s, pos, field).value, rest)
                          && current.value == NextField(s, pos, field).value.start)
  }

  lemma {:induction false} CutKeeps(before: string, after: string, s: string, field: nat, pos: nat,
                                    current: Option<nat>, rest: nat, entry: Entry)
    requires Between(before, s, field, pos, entry) && ChangedFrom(before, after, s, pos) && Unread(after, s, rest)
    requires current.Some? <==> NextField(s, pos, field).Some?
    requires current.Some? ==>
               var token := NextField(s, pos, field).value;
               AtToken(after, s, pos, token, rest) && current.value == token.start
    ensures AtField(after, s, field, pos, current, rest, entry)
  {
    AllKeptThrough(before, after, s, entry, field, pos, pos);
  }

  /** MountNextField, for the field after those recorded. */
  method CutField(line: array<char>, field: nat, pos: nat, ghost entry: Entry, ghost s: string)
    returns (current: Option<nat>, rest: nat)
    requires Between(line[..], s, field, pos, entry)
    modifies line
    ensures AtField(line[..], s, field, pos, current, rest, entry)
    ensures ChangedFrom(old(line[..]), line[..], s, pos)
  {
    UnreadLater(line[..], s, pos, |s|);
    current, rest := Strtok(line, pos, Separator(field), s);
    CutKeeps(old(line[..]), line[..], s, field, pos, current, rest, entry);
  }

  method StoreOptional(line: array<char>, start: nat, rest: nat, entry: Entry, ghost pos: nat, ghost s: string)
    returns (next: nat)
    requires AtField(line[..], s, FIELD_OPTIONAL_FIELDS, pos, Some(start), rest, entry)
    modifies line
    ensures Between(line[..], s, FIELD_OPTIONAL_FIELDS + 1, next, entry)
    ensures ChangedFrom(old(line[..]), line[..], s, pos)
  {
    ghost var token := NextField(s, pos, FIELD_OPTIONAL_FIELDS).value;
    next := SkipOptionalFields(line, start, rest, pos, token, s);
    OptionalStep(s, pos, entry, token, next);
    AllKeptThrough(old(line[..]), line[..], s, entry, FIELD_OPTIONAL_FIELDS, pos, next);
  }

  lemma {:induction false} OptionalStep(s: string, pos: nat, entry: Entry, token: Token, next: nat)
    requires pos <= |s| && NextField(s, pos, FIELD_OPTIONAL_FIELDS) == Some(token)
    requires next == var hyphen := SkipOptional(s, token); if hyphen.Some? then After(s, hyphen.value) else |s|
    ensures pos <= next <= |s|
    ensures ParseFrom(s, FIELD_OPTIONAL_FIELDS, pos, entry) == ParseFrom(s, FIELD_OPTIONAL_FIELDS + 1, next, entry)
  {
    var hyphen := SkipOptional(s, token);
    if hyphen.Some? {
      ParseStep(s, FIELD_OPTIONAL_FIELDS, pos, entry, hyphen.value, entry);
    } else {
      assert NextField(s, |s|, FIELD_OPTIONAL_FIELDS + 1).None?;
    }
  }

  /** The switch, for every field but the optional ones. */
  method StoreWord(line: array<char>, field: nat, start: nat, rest: nat, entry: Entry, ghost pos: nat, ghost s: string)
    returns (stored: Option<Entry>)
    requires field <= FIELD_SUPER_OPTIONS && field != FIELD_OPTIONAL_FIELDS
    requires AtField(line[..], s, field, pos, Some(start), rest, entry)
    modifies line
    ensures stored.Some? ==> Between(line[..], s, field + 1, rest, stored.value)
    ensures stored.None? ==> ParseLine(s).None?
    ensures ChangedFrom(old(line[..]), line[..], s, pos)
  {
    ghost var token := NextField(s, pos, field).value;
    ghost var text := s[token.start..token.end];
    stored := RecordField(line, field, start, entry, text);
    AllKeptThrough(old(line[..]), line[..], s, entry, field, pos, pos);
    AllKeptThrough(line[..], line[..], s, entry, field, pos, rest);
    if stored.Some? {
      RecordKept(line[..], s, entry, field, pos, token, rest);
      ParseStep(s, field, pos, entry, token, stored.value);
      StillUnread(old(line[..]), line[..], s, rest, token);
    }
  }

  lemma {:induction false} StillUnread(before: string, after: string, s: string, rest: nat, token: Token)
    requires token.start < token.end <= |s| && rest == After(s, token) && Unread(before, s, rest) && |after| == |before|
    requires forall k | 0 <= k < |before| && !(token.start <= k < token.end) :: after[k] == before[k]
    ensures Unread(after, s, rest)
  {
  }

  method RecordField(line: array<char>, field: nat, start: nat, entry: Entry, ghost text: string)
    returns (stored: Option<Entry>)
    requires HoldsText(line[..], start, text) && NUL !in text
    modifies line
    ensures stored == Record(entry, field, start, text)
    ensures forall k | 0 <= k < line.Length && !(start <= k < start + |text|) :: line[k] == old(line[k])
    ensures field != FIELD_DEVICE ==> line[..] == old(line[..])
  {
    stored := Some(entry);
    match field {
      case 0 =>
        var id := ReadNumber(line, start, text);
        stored := Some(entry.(id := id));
      case 1 =>
        var parentId := ReadNumber(line, start, text);
        stored := Some(entry.(parentId := parentId));
      case 2 =>
        var device := ReadDevice(line, start, text);
        stored := if device.None? then None else Some(entry.(device := device.value));
      case 3 => stored := Some(entry.(root := start));
      case 4 => stored := Some(entry.(mountPoint := start));
      case 5 => stored := Some(entry.(mountOptions := start));
      case 7 => stored := Some(entry.(fileSystemType := start));
      case 8 => stored := Some(entry.(source := start));
      case 9 => stored := Some(entry.(superOptions := start));
      case _ =>
    }
  }

  method TakeField(line: array<char>, field: nat, start: nat, rest: nat, entry: Entry, ghost pos: nat, ghost s: string)
    returns (stored: Option<Entry>, next: nat)
    requires field <= FIELD_SUPER_OPTIONS && AtField(line[..], s, field, pos, Some(start), rest, entry)
    modifies line
    ensures stored.Some? ==> Between(line[..], s, field + 1, next, stored.value)
    ensures stored.None? ==> ParseLine(s).None?
    ensures ChangedFrom(old(line[..]), line[..], s, pos)
  {
    if field == FIELD_OPTIONAL_FIELDS {
      next := StoreOptional(line, start, rest, entry, pos, s);
      stored := Some(entry);
    } else {
      next := rest;
      stored := StoreWord(line, field, start, rest, entry, pos, s);
    }
  }

  /** The text that a string field ends up with. */
  ghost function Value(s: string, e: Entry, field: int, unescaped: set<int>): (text: string)
    requires IsString(field) && Position(e, field) <= |s|
  {
    var text := TextAt(s, Position(e, field), Separator(field));
    if field in unescaped then Unescape(text) else text
  }

  ghost predicate Stored(buffer: string, s: string, e: Entry, unescaped: set<int>) {
    forall f | IsString(f) ::
      Position(e, f) <= |s| && HoldsText(buffer, Position(e, f), Value(s, e, f, unescaped))
  }

  lemma {:induction false} StillStored(before: string, after: string, s: string, e: Entry, f: int, g: int,
                                       unescaped: set<int>)
    requires IsString(f) && IsString(g) && f != g && Apart(s, e, FIELD_SUPER_OPTIONS + 1)
    requires Position(e, f) <= |s| && Position(e, g) <= |s| && |after| == |before|
    requires HoldsText(before, Position(e, g), Value(s, e, g, unescaped))
    requires forall k | 0 <= k < |before| && !(Position(e, f) <= k <= End(s, e, f)) :: after[k] == before[k]
    ensures HoldsText(after, Position(e, g), Value(s, e, g, unescaped))
  {
    var start, text := Position(e, g), Value(s, e, g, unescaped);
    UnescapeShortens(TextAt(s, start, Separator(g)));
    assert if f < g then End(s, e, f) < Position(e, g) else End(s, e, g) < Position(e, f);
    assert after[start..start + |text|] == before[start..start + |text|];
  }

  /** Unescaping one string leaves the others alone. */
  method UnescapeString(line: array<char>, start: nat, ghost f: int, ghost e: Entry, ghost done: set<int>,
                        ghost s: string)
    requires IsString(f) && f !in done && start == Position(e, f) && NUL !in s && |s| < line.Length
    requires Apart(s, e, FIELD_SUPER_OPTIONS + 1) && Stored(line[..], s, e, done)
    modifies line
    ensures Stored(line[..], s, e, done + {f})
    ensures forall k | |s| < k < line.Length :: line[k] == old(line[k])
  {
    ghost var text := TextAt(s, start, Separator(f));
    assert Value(s, e, f, done) == text;
    UnescapeField(line, start, text);
    forall g | IsString(g)
      ensures HoldsText(line[..], Position(e, g), Value(s, e, g, done + {f}))
    {
      if g != f {
        assert Value(s, e, g, done + {f}) == Value(s, e, g, done);
        StillStored(old(line[..]), line[..], s, e, f, g, done);
      }
    }
  }

  const ESCAPED_FIELDS: set<int> := {FIELD_ROOT, FIELD_SOURCE, FIELD_MOUNT_POINT}

  /** The loop has come to the reference result, and each string stands where the entry says. */
  ghost predicate ReadAs(buffer: string, s: string, parsed: Option<Entry>) {
    && parsed == ParseLine(s)
    && (parsed.Some? ==> Stored(buffer, s, parsed.value, {}) && Apart(s, parsed.value, FIELD_SUPER_OPTIONS + 1))
  }

  method TakeAndCut(line: array<char>, field: nat, start: nat, rest: nat, entry: Entry, ghost pos: nat, ghost s: string)
    returns (stored: Option<Entry>, current: Option<nat>, rest': nat, ghost pos': nat)
    requires field <= FIELD_SUPER_OPTIONS && AtField(line[..], s, field, pos, Some(start), rest, entry)
    modifies line
    ensures stored.Some? ==> AtField(line[..], s, field + 1, pos', current, rest', stored.value)
    ensures stored.None? ==> ReadAs(line[..], s, None)
    ensures forall k | |s| < k < line.Length :: line[k] == old(line[k])
  {
    current, rest', pos' := None, rest, rest;
    var next;
    stored, next := TakeField(line, field, start, rest, entry, pos, s);
    if stored.Some? {
      pos' := next;
      current, rest' := CutField(line, field + 1, next, stored.value, s);
    }
  }

  lemma {:induction false} Starting(buffer: string, s: string)
    requires Unread(buffer, s, 0)
    ensures Between(buffer, s, FIELD_ID, 0, BLANK)
  {
  }

  lemma {:induction false} CutShort(buffer: string, s: string, field: nat, pos: nat, rest: nat, entry: Entry)
    requires field <= FIELD_SUPER_OPTIONS && AtField(buffer, s, field, pos, None, rest, entry)
    ensures ReadAs(buffer, s, None)
  {
  }

  lemma {:induction false} Complete(buffer: string, s: string, pos: nat, current: Option<nat>, rest: nat, entry: Entry)
    requires AtField(buffer, s, FIELD_SUPER_OPTIONS + 1, pos, current, rest, entry)
    ensures ReadAs(buffer, s, Some(entry))
  {
    forall f | IsString(f)
      ensures Position(entry, f) <= |s| && HoldsText(buffer, Position(entry, f), Value(s, entry, f, {}))
    {
      assert Kept(buffer, s, entry, f, pos);
    }
  }

  /** The loop. */
  method ReadFields(line: array<char>, ghost s: string) returns (parsed: Option<Entry>)
    requires Unread(line[..], s, 0)
    modifies line
    ensures ReadAs(line[..], s, parsed)
    ensures forall k | |s| < k < line.Length :: line[k] == old(line[k])
  {
    ghost var pos := 0;
    var field, entry := 0, BLANK;
    Starting(line[..], s);
    var current, rest := CutField(line, field, 0, entry, s);
    while current.Some? && field <= FIELD_SUPER_OPTIONS
      invariant AtField(line[..], s, field, pos, current, rest, entry)
      invariant forall k | |s| < k < line.Length :: line[k] == old(line[k])
      decreases FIELD_SUPER_OPTIONS + 1 - field
    {
      var stored;
      stored, current, rest, pos := TakeAndCut(line, field, current.value, rest, entry, pos, s);
      if stored.None? {
        return None;
      }
      field, entry := field + 1, stored.value;
    }
    if field <= FIELD_SUPER_OPTIONS {
      CutShort(line[..], s, field, pos, rest, entry);
      return None;
    }
    Complete(line[..], s, pos, current, rest, entry);
    return Some(entry);
  }

  lemma {:induction false} EscapedFields()
    ensures ESCAPED_FIELDS == {} + {FIELD_ROOT} + {FIELD_SOURCE} + {FIELD_MOUNT_POINT}
  {
  }

  method UnescapeStrings(line: array<char>, e: Entry, ghost s: string)
    requires NUL !in s && |s| < line.Length
    requires Stored(line[..], s, e, {}) && Apart(s, e, FIELD_SUPER_OPTIONS + 1)
    modifies line
    ensures Stored(line[..], s, e, ESCAPED_FIELDS)
    ensures forall k | |s| < k < line.Length :: line[k] == old(line[k])
  {
    UnescapeString(line, e.root, FIELD_ROOT, e, {}, s);
    UnescapeString(line, e.source, FIELD_SOURCE, e, {} + {FIELD_ROOT}, s);
    UnescapeString(line, e.mountPoint, FIELD_MOUNT_POINT, e, {} + {FIELD_ROOT} + {FIELD_SOURCE}, s);
    EscapedFields();
  }

  /** MountParseMountInfoLine: the result is that of the reference parser, and each of the entry's
      strings stands terminated in the buffer with its value. Nothing behind the line is touched. */
  method ParseMountInfoLine(line: array<char>) returns (parsed: Option<Entry>)
    requires Terminated(line[..], NUL)
    modifies line
    ensures parsed == ParseLine(old(CString(line[..], NUL)))
    ensures parsed.Some? ==> Stored(line[..], old(CString(line[..], NUL)), parsed.value, ESCAPED_FIELDS)
    ensures forall k | |old(CString(line[..], NUL))| < k < line.Length :: line[k] == old(line[k])
  {
    ghost var s := CString(line[..], NUL);
    assert s[0..] == s;
    parsed := ReadFields(line, s);
    if parsed.Some? {
      UnescapeStrings(line, parsed.value, s);
    }
  }

  /** The value of a string field before it was printed. */
  ghost function Original(m: Mount, field: int): (text: string)
    requires IsString(field)
  {
    if field == FIELD_ROOT then m.root
    else if field == FIELD_MOUNT_POINT then m.mountPoint
    else if field == FIELD_MOUNT_OPTIONS then m.mountOptions
    else if field == FIELD_FILE_SYSTEM_TYPE then m.fileSystemType
    else if field == FIELD_SOURCE then m.source
    else m.superOptions
  }

  lemma {:induction false} ValueIsOriginal(m: Mount, s: string, e: Entry, field: int)
    requires IsString(field) && FieldAgrees(m, s, e, field)
    ensures Position(e, field) <= |s| && Value(s, e, field, ESCAPED_FIELDS) == Original(m, field)
  {
  }

  /** The strings in the buffer are the ones that were printed. */
  lemma {:induction false} StoredValuesArePrinted(m: Mount, newline: bool, buffer: string, e: Entry)
    requires Printable(m) && ParseLine(PrintLine(m, newline)) == Some(e)
    requires Stored(buffer, PrintLine(m, newline), e, ESCAPED_FIELDS)
    ensures e.id == m.id && e.parentId == m.parentId && MajorOf(e.device) == m.major && MinorOf(e.device) == m.minor
    ensures forall f | IsString(f) :: HoldsText(buffer, Position(e, f), Original(m, f))
  {
    var line := PrintLine(m, newline);
    ParsingUndoesPrinting(m, newline);
    assert FieldAgrees(m, line, e, FIELD_ID) && FieldAgrees(m, line, e, FIELD_PARENT_ID)
           && FieldAgrees(m, line, e, FIELD_DEVICE);
    forall f | IsString(f)
      ensures HoldsText(buffer, Position(e, f), Original(m, f))
    {
      assert FieldAgrees(m, line, e, f);
      ValueIsOriginal(m, line, e, f);
    }
  }
}
