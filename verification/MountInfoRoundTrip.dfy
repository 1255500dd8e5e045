/** Parsing undoes printing for mountinfo lines. */
module MountInfoRoundTrip {
  import opened Wrappers
  import opened MountInfo

  /** What the kernel prints a line about. */
  datatype Mount = Mount(id: nat, parentId: nat, major: nat, minor: nat, root: string, mountPoint: string,
                         mountOptions: string, optional: seq<string>, fileSystemType: string, source: string,
                         superOptions: string)

  ghost predicate IsWord(text: string) {
    text != [] && ' ' !in text
  }

  /** No field is empty, those that are not escaped need no escaping, and the numbers fit an int. */
  ghost predicate Printable(m: Mount) {
    && m.id <= INT_MAX && m.parentId <= INT_MAX && m.major <= INT_MAX && m.minor <= INT_MAX
    && m.root != [] && m.mountPoint != [] && m.source != []
    && IsWord(m.mountOptions) && IsWord(m.fileSystemType)
    && (forall o | o in m.optional :: IsWord(o) && o != "-")
    && m.superOptions != [] && '\n' !in m.superOptions
  }

  function Decimal(n: nat): (digits: string) {
    var last := ['0' + (n % 10) as char];
    if n < 10 then last else Decimal(n / 10) + last
  }

  function FieldText(m: Mount, field: nat): (text: string) {
    if field == FIELD_ID then Decimal(m.id)
    else if field == FIELD_PARENT_ID then Decimal(m.parentId)
    else if field == FIELD_DEVICE then Decimal(m.major) + ":" + Decimal(m.minor)
    else if field == FIELD_ROOT then Escape(m.root)
    else if field == FIELD_MOUNT_POINT then Escape(m.mountPoint)
    else if field == FIELD_MOUNT_OPTIONS then m.mountOptions
    else if field == FIELD_FILE_SYSTEM_TYPE then m.fileSystemType
    else Escape(m.source)
  }

  function PrintOptional(optional: seq<string>, rest: string): (text: string) {
    if optional == [] then "-" + " " + rest else optional[0] + " " + PrintOptional(optional[1..], rest)
  }

  /** The line from one field on; a line may or may not end in a newline. */
  function PrintFrom(m: Mount, field: nat, newline: bool): (text: string)
    decreases FIELD_SUPER_OPTIONS - field
  {
    if field >= FIELD_SUPER_OPTIONS then m.superOptions + if newline then "\n" else ""
    else if field == FIELD_OPTIONAL_FIELDS then PrintOptional(m.optional, PrintFrom(m, field + 1, newline))
    else FieldText(m, field) + " " + PrintFrom(m, field + 1, newline)
  }

  function PrintLine(m: Mount, newline: bool): (line: string) {
    PrintFrom(m, FIELD_ID, newline)
  }

  // ---------------------------------------------------------------------------
  // What a parsed entry says

  /** The entry has the value of this field. */
  ghost predicate FieldAgrees(m: Mount, s: string, e: Entry, field: nat) {
    if field == FIELD_ID then e.id == m.id
    else if field == FIELD_PARENT_ID then e.parentId == m.parentId
    else if field == FIELD_DEVICE then MajorOf(e.device) == m.major && MinorOf(e.device) == m.minor
    else if field == FIELD_ROOT then e.root <= |s| && Unescape(TextAt(s, e.root, ' ')) == m.root
    else if field == FIELD_MOUNT_POINT then
      e.mountPoint <= |s| && Unescape(TextAt(s, e.mountPoint, ' ')) == m.mountPoint
    else if field == FIELD_MOUNT_OPTIONS then e.mountOptions <= |s| && TextAt(s, e.mountOptions, ' ') == m.mountOptions
    else if field == FIELD_FILE_SYSTEM_TYPE then
      e.fileSystemType <= |s| && TextAt(s, e.fileSystemType, ' ') == m.fileSystemType
    else if field == FIELD_SOURCE then e.source <= |s| && Unescape(TextAt(s, e.source, ' ')) == m.source
    else if field == FIELD_SUPER_OPTIONS then e.superOptions <= |s| && TextAt(s, e.superOptions, '\n') == m.superOptions
    else true
  }

  ghost predicate AgreesFrom(m: Mount, s: string, e: Entry, field: nat) {
    forall f | field <= f <= FIELD_SUPER_OPTIONS :: FieldAgrees(m, s, e, f)
  }

  // ---------------------------------------------------------------------------
  // Numbers

  ghost predicate AllDigits(s: string) {
    forall i | 0 <= i < |s| :: IsDigit(s[i])
  }

  lemma {:induction false} DigitsAppend(s: string, t: string, acc: int)
    requires AllDigits(s)
    ensures DigitsValue(s + t, acc) == DigitsValue(t, DigitsValue(s, acc))
  {
    if s == [] {
      assert s + t == t;
    } else {
      assert (s + t)[1..] == s[1..] + t;
      DigitsAppend(s[1..], t, 10 * acc + (s[0] as int - '0' as int));
    }
  }

  /** No value on the way through the digits is larger than this. */
  ghost predicate StaysBelow(digits: string, n: nat) {
    forall k | 0 <= k <= |digits| :: DigitsValue(digits[..k], 0) <= n
  }

  lemma {:induction false} DecimalReads(n: nat)
    ensures Decimal(n) != [] && AllDigits(Decimal(n)) && DigitsValue(Decimal(n), 0) == n
    ensures StaysBelow(Decimal(n), n)
  {
    var last := ['0' + (n % 10) as char];
    assert last[1..] == [];
    assert forall acc :: DigitsValue(last, acc) == 10 * acc + n % 10;
    if n >= 10 {
      DecimalReads(n / 10);
      DigitsAppend(Decimal(n / 10), last, 0);
      forall k | 0 <= k <= |Decimal(n)|
        ensures DigitsValue(Decimal(n)[..k], 0) <= n
      {
        if k < |Decimal(n)| {
          assert Decimal(n)[..k] == Decimal(n / 10)[..k];
        } else {
          assert Decimal(n)[..k] == Decimal(n);
        }
      }
    }
  }

  lemma {:induction false} AtoiDecimal(n: nat)
    ensures Atoi(Decimal(n)) == n && StaysBelow(Decimal(n), n)
    ensures ' ' !in Decimal(n) && ':' !in Decimal(n) && Decimal(n) != []
  {
    DecimalReads(n);
    assert IsDigit(Decimal(n)[0]);
  }

  lemma {:induction false} DigitsEnd(digits: string, rest: string, acc: int)
    requires AllDigits(digits) && (rest != [] ==> !IsDigit(rest[0]))
    ensures DigitsValue(digits + rest, acc) == DigitsValue(digits, acc)
  {
    DigitsAppend(digits, rest, acc);
    DigitsAppend(digits, [], acc);
    assert digits + [] == digits;
  }

  /** atoi on any text of its form: white space, perhaps a sign, a number, and whatever follows it. */
  lemma {:induction false} AtoiReads(space: string, sign: string, n: nat, rest: string)
    requires forall c | c in space :: c in " \t\n\U{0B}\U{0C}\r"
    requires sign == "" || sign == "+" || sign == "-"
    requires rest != [] ==> !('0' <= rest[0] <= '9')
    ensures Atoi(space + sign + Decimal(n) + rest) == (if sign == "-" then -1 else 1) * n
  {
    var text := space + sign + Decimal(n) + rest;
    if space != [] {
      assert text[0] == space[0] && space[0] in space;
      assert text[1..] == space[1..] + sign + Decimal(n) + rest;
      AtoiReads(space[1..], sign, n, rest);
    } else {
      DecimalReads(n);
      DigitsEnd(Decimal(n), rest, 0);
      assert IsDigit(Decimal(n)[0]);
      if sign == "" {
        assert text == Decimal(n) + rest;
      } else {
        assert text[0] == sign[0] && text[1..] == Decimal(n) + rest;
      }
    }
  }

  lemma {:induction false} FindNextIs(s: string, pos: nat, c: char, p: nat)
    requires pos <= p <= |s| && c !in s[pos..p] && (p < |s| ==> s[p] == c)
    ensures FindNext(s, pos, c) == p
    decreases p - pos
  {
  }

  lemma {:induction false} DeviceReads(m: Mount)
    ensures ParseDevice(FieldText(m, FIELD_DEVICE)) == Some(MakeDev(m.major, m.minor))
    ensures IsWord(FieldText(m, FIELD_DEVICE))
  {
    var major, minor := Decimal(m.major), Decimal(m.minor);
    var text := FieldText(m, FIELD_DEVICE);
    AtoiDecimal(m.major);
    AtoiDecimal(m.minor);
    assert text[..|major|] == major && text[|major|] == ':' && text[|major| + 1..] == minor;
    assert text[0..|major|] == major;
    FindNextIs(text, 0, ':', |major|);
  }

  // ---------------------------------------------------------------------------
  // Tokens of a printed line

  lemma {:induction false} WordIsToken(s: string, pos: nat, word: string, rest: string)
    requires pos <= |s| && s[pos..] == word + " " + rest && IsWord(word)
    ensures NextToken(s, pos, ' ') == Some(Token(pos, pos + |word|))
    ensures s[pos..pos + |word|] == word
    ensures s[After(s, Token(pos, pos + |word|))..] == rest
    ensures TextAt(s, pos, ' ') == word
  {
    var tail := s[pos..];
    assert s[pos..pos + |word|] == tail[..|word|] == word;
    assert s[pos + |word|] == tail[|word|] == ' ';
    assert s[pos + |word| + 1..] == tail[|word| + 1..] == rest;
    assert s[pos] == word[0];
    assert SkipOver(s, pos, ' ') == pos;
    FindNextIs(s, pos, ' ', pos + |word|);
  }

  lemma {:induction false} FieldTextIsWord(m: Mount, field: nat)
    requires Printable(m) && field < FIELD_SUPER_OPTIONS
    ensures IsWord(FieldText(m, field))
  {
    AtoiDecimal(m.id);
    AtoiDecimal(m.parentId);
    DeviceReads(m);
    EscapeHasNoSpace(m.root);
    EscapeHasNoSpace(m.mountPoint);
    EscapeHasNoSpace(m.source);
  }

  lemma {:induction false} SkipOptionalStep(s: string, token: Token)
    requires token.start < token.end <= |s| && s[token.start..token.end] != "-"
    requires NextToken(s, After(s, token), ' ').Some?
    ensures SkipOptional(s, token) == SkipOptional(s, NextToken(s, After(s, token), ' ').value)
  {
  }

  /** A search from here passes the hyphen and stops right before the rest. */
  ghost predicate SkipsTo(s: string, pos: nat, rest: string)
    requires pos <= |s|
  {
    var token := NextToken(s, pos, ' ');
    && token.Some?
    && var hyphen := SkipOptional(s, token.value);
       hyphen.Some? && s[After(s, hyphen.value)..] == rest
  }

  lemma {:induction false} SkipsOne(s: string, pos: nat, word: string, printed: string, rest: string)
    requires pos <= |s| && s[pos..] == word + " " + printed && IsWord(word) && word != "-"
    requires forall next | 0 <= next <= |s| && s[next..] == printed :: SkipsTo(s, next, rest)
    ensures SkipsTo(s, pos, rest)
  {
    WordIsToken(s, pos, word, printed);
    var first := Token(pos, pos + |word|);
    assert SkipsTo(s, After(s, first), rest);
    SkipOptionalStep(s, first);
  }

  /** The optional fields are skipped, however many there are. */
  lemma {:induction false} OptionalSkipped(s: string, pos: nat, optional: seq<string>, rest: string)
    requires pos <= |s| && s[pos..] == PrintOptional(optional, rest)
    requires forall o | o in optional :: IsWord(o) && o != "-"
    ensures SkipsTo(s, pos, rest)
    decreases |optional|
  {
    if optional == [] {
      WordIsToken(s, pos, "-", rest);
    } else {
      assert optional[0] in optional;
      var printed := PrintOptional(optional[1..], rest);
      forall next | 0 <= next <= |s| && s[next..] == printed
        ensures SkipsTo(s, next, rest)
      {
        OptionalSkipped(s, next, optional[1..], rest);
      }
      SkipsOne(s, pos, optional[0], printed, rest);
    }
  }

  lemma {:induction false} SuperOptionsRead(m: Mount, s: string, pos: nat, newline: bool)
    requires pos <= |s| && s[pos..] == PrintFrom(m, FIELD_SUPER_OPTIONS, newline)
    requires m.superOptions != [] && '\n' !in m.superOptions
    ensures NextToken(s, pos, '\n') == Some(Token(pos, pos + |m.superOptions|))
    ensures TextAt(s, pos, '\n') == m.superOptions
  {
    var tail, end := s[pos..], pos + |m.superOptions|;
    assert s[pos..end] == tail[..|m.superOptions|] == m.superOptions;
    assert end < |s| ==> s[end] == tail[|m.superOptions|] == '\n';
    assert s[pos] == m.superOptions[0];
    assert SkipOver(s, pos, '\n') == pos;
    FindNextIs(s, pos, '\n', end);
  }

  // ---------------------------------------------------------------------------
  // Field by field

  /** Two entries hold the same in this field. */
  ghost predicate SameField(a: Entry, b: Entry, field: nat) {
    if field == FIELD_ID then a.id == b.id
    else if field == FIELD_PARENT_ID then a.parentId == b.parentId
    else if field == FIELD_DEVICE then a.device == b.device
    else if field == FIELD_ROOT then a.root == b.root
    else if field == FIELD_MOUNT_POINT then a.mountPoint == b.mountPoint
    else if field == FIELD_MOUNT_OPTIONS then a.mountOptions == b.mountOptions
    else if field == FIELD_FILE_SYSTEM_TYPE then a.fileSystemType == b.fileSystemType
    else if field == FIELD_SOURCE then a.source == b.source
    else if field == FIELD_SUPER_OPTIONS then a.superOptions == b.superOptions
    else true
  }

  lemma {:induction false} RecordTouchesOne(entry: Entry, field: nat, start: nat, text: string, other: nat)
    requires Record(entry, field, start, text).Some? && other != field
    ensures SameField(Record(entry, field, start, text).value, entry, other)
  {
  }

  lemma {:induction false} LaterFieldsKeepEarlier(s: string, field: nat, pos: nat, entry: Entry, earlier: nat)
    requires pos <= |s|
    requires ParseFrom(s, field, pos, entry).Some? && earlier < field
    ensures SameField(ParseFrom(s, field, pos, entry).value, entry, earlier)
    decreases FIELD_SUPER_OPTIONS + 1 - field
  {
    if field <= FIELD_SUPER_OPTIONS {
      var token := FieldToken(s, pos, field).value;
      var recorded := Record(entry, field, token.start, s[token.start..token.end]).value;
      RecordTouchesOne(entry, field, token.start, s[token.start..token.end], earlier);
      ParseStep(s, field, pos, entry, token, recorded);
      LaterFieldsKeepEarlier(s, field + 1, After(s, token), recorded, earlier);
    }
  }

  /** Recording a printed field stores its value. */
  lemma {:induction false} RecordAgrees(m: Mount, s: string, entry: Entry, field: nat, pos: nat)
    requires Printable(m) && field < FIELD_SUPER_OPTIONS && field != FIELD_OPTIONAL_FIELDS
    requires pos <= |s| && TextAt(s, pos, ' ') == FieldText(m, field)
    ensures Record(entry, field, pos, FieldText(m, field)).Some?
    ensures FieldAgrees(m, s, Record(entry, field, pos, FieldText(m, field)).value, field)
  {
    AtoiDecimal(m.id);
    AtoiDecimal(m.parentId);
    DeviceReads(m);
    MakeDevKeepsBoth(m.major, m.minor);
    UnescapeUndoesEscape(m.root);
    UnescapeUndoesEscape(m.mountPoint);
    UnescapeUndoesEscape(m.source);
  }

  lemma {:induction false} AgreementCarries(m: Mount, s: string, a: Entry, b: Entry, field: nat)
    requires SameField(a, b, field) && FieldAgrees(m, s, b, field)
    ensures FieldAgrees(m, s, a, field)
  {
  }

  lemma {:induction false} ParseStep(s: string, field: nat, pos: nat, entry: Entry, token: Token, recorded: Entry)
    requires pos <= |s|
    requires field <= FIELD_SUPER_OPTIONS && FieldToken(s, pos, field) == Some(token)
    requires Record(entry, field, token.start, s[token.start..token.end]) == Some(recorded)
    ensures ParseFrom(s, field, pos, entry) == ParseFrom(s, field + 1, After(s, token), recorded)
  {
  }

  lemma {:induction false} ParseOptional(m: Mount, s: string, pos: nat, entry: Entry, rest: string) returns (next: nat)
    requires Printable(m) && pos <= |s| && s[pos..] == PrintOptional(m.optional, rest)
    ensures next <= |s| && s[next..] == rest
    ensures ParseFrom(s, FIELD_OPTIONAL_FIELDS, pos, entry) == ParseFrom(s, FIELD_OPTIONAL_FIELDS + 1, next, entry)
  {
    OptionalSkipped(s, pos, m.optional, rest);
    var hyphen := FieldToken(s, pos, FIELD_OPTIONAL_FIELDS).value;
    ParseStep(s, FIELD_OPTIONAL_FIELDS, pos, entry, hyphen, entry);
    next := After(s, hyphen);
  }

  lemma {:induction false} ParseWord(m: Mount, s: string, field: nat, pos: nat, entry: Entry, rest: string)
    returns (next: nat, recorded: Entry)
    requires Printable(m) && field < FIELD_SUPER_OPTIONS && field != FIELD_OPTIONAL_FIELDS
    requires pos <= |s| && s[pos..] == FieldText(m, field) + " " + rest
    ensures next <= |s| && s[next..] == rest
    ensures FieldAgrees(m, s, recorded, field)
    ensures ParseFrom(s, field, pos, entry) == ParseFrom(s, field + 1, next, recorded)
  {
    var text := FieldText(m, field);
    FieldTextIsWord(m, field);
    WordIsToken(s, pos, text, rest);
    RecordAgrees(m, s, entry, field, pos);
    var token := Token(pos, pos + |text|);
    assert FieldToken(s, pos, field) == Some(token);
    next, recorded := After(s, token), Record(entry, field, pos, text).value;
    ParseStep(s, field, pos, entry, token, recorded);
  }

  /** The first of the remaining fields, then the rest. */
  lemma {:induction false} ParseFirst(m: Mount, s: string, field: nat, pos: nat, entry: Entry, newline: bool)
    returns (next: nat, recorded: Entry)
    requires Printable(m) && field < FIELD_SUPER_OPTIONS && pos <= |s| && s[pos..] == PrintFrom(m, field, newline)
    ensures next <= |s| && s[next..] == PrintFrom(m, field + 1, newline)
    ensures FieldAgrees(m, s, recorded, field)
    ensures ParseFrom(s, field, pos, entry) == ParseFrom(s, field + 1, next, recorded)
  {
    if field == FIELD_OPTIONAL_FIELDS {
      next := ParseOptional(m, s, pos, entry, PrintFrom(m, field + 1, newline));
      recorded := entry;
    } else {
      next, recorded := ParseWord(m, s, field, pos, entry, PrintFrom(m, field + 1, newline));
    }
  }

  lemma {:induction false} ParsePrinted(m: Mount, s: string, field: nat, pos: nat, entry: Entry, newline: bool)
    requires Printable(m) && field <= FIELD_SUPER_OPTIONS && pos <= |s| && s[pos..] == PrintFrom(m, field, newline)
    ensures ParseFrom(s, field, pos, entry).Some?
    ensures AgreesFrom(m, s, ParseFrom(s, field, pos, entry).value, field)
    decreases FIELD_SUPER_OPTIONS - field
  {
    if field == FIELD_SUPER_OPTIONS {
      SuperOptionsRead(m, s, pos, newline);
    } else {
      var next, recorded := ParseFirst(m, s, field, pos, entry, newline);
      ParsePrinted(m, s, field + 1, next, recorded, newline);
      var parsed := ParseFrom(s, field, pos, entry).value;
      LaterFieldsKeepEarlier(s, field + 1, next, recorded, field);
      AgreementCarries(m, s, parsed, recorded, field);
    }
  }

  /** For any number of optional fields and any non-empty values, with or without a final newline,
      the parsed entry has the values that were printed. */
  lemma {:induction false} ParsingUndoesPrinting(m: Mount, newline: bool)
    requires Printable(m)
    ensures var line := PrintLine(m, newline);
            ParseLine(line).Some? && AgreesFrom(m, line, ParseLine(line).value, FIELD_ID)
  {
    var line := PrintLine(m, newline);
    assert line[0..] == line;
    ParsePrinted(m, line, FIELD_ID, 0, BLANK, newline);
  }
}
