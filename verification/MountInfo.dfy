/**
  Lines of /proc/self/mountinfo (section 3.5 of the Linux kernel's filesystems/proc
  documentation): how they are taken apart, and that this undoes how they are put together.
 */
module MountInfo {
  import opened Wrappers

  // ---------------------------------------------------------------------------
  // strtok_r

  datatype Token = Token(start: nat, end: nat)

  function SkipOver(s: string, pos: nat, c: char): (p: nat)
    requires pos <= |s|
    ensures pos <= p <= |s| && (p < |s| ==> s[p] != c)
    decreases |s| - pos
  {
    if pos < |s| && s[pos] == c then SkipOver(s, pos + 1, c) else pos
  }

  function FindNext(s: string, pos: nat, c: char): (p: nat)
    requires pos <= |s|
    ensures pos <= p <= |s| && (p < |s| ==> s[p] == c) && c !in s[pos..p]
    decreases |s| - pos
  {
    if pos < |s| && s[pos] != c then
      var p := FindNext(s, pos + 1, c);
      assert s[pos..p] == [s[pos]] + s[pos + 1..p];
      p
    else pos
  }

  /** The next token from a position on; None once the text is used up. */
  function NextToken(s: string, pos: nat, c: char): (token: Option<Token>)
    requires pos <= |s|
    ensures token.Some? ==> pos <= token.value.start < token.value.end <= |s|
    ensures token.Some? ==>
              && c !in s[token.value.start..token.value.end]
              && (token.value.end < |s| ==> s[token.value.end] == c)
  {
    var start := SkipOver(s, pos, c);
    if start == |s| then None else Some(Token(start, FindNext(s, start, c)))
  }

  /** Where the search for the token after this one starts. */
  function After(s: string, token: Token): (pos: nat)
    requires token.end <= |s|
    ensures pos <= |s|
  {
    if token.end < |s| then token.end + 1 else |s|
  }

  /** The text from a position up to a separator. */
  function TextAt(s: string, start: nat, c: char): (text: string)
    requires start <= |s|
  {
    s[start..FindNext(s, start, c)]
  }

  // ---------------------------------------------------------------------------
  // Fields

  const FIELD_ID := 0
  const FIELD_PARENT_ID := 1
  const FIELD_DEVICE := 2
  const FIELD_ROOT := 3
  const FIELD_MOUNT_POINT := 4
  const FIELD_MOUNT_OPTIONS := 5
  const FIELD_OPTIONAL_FIELDS := 6
  const FIELD_FILE_SYSTEM_TYPE := 7
  const FIELD_SOURCE := 8
  const FIELD_SUPER_OPTIONS := 9

  const UINT_RANGE := 0x1_0000_0000
  const INT_MAX := 0x7fff_ffff

  /** Conversion of an int to an unsigned int. */
  function Unsigned(n: int): (u: nat) {
    if n >= 0 then n else n % UINT_RANGE
  }

  /** makedev: from the lowest bits on, eight bits of the minor number, twelve of the major number, the
      other bits of the minor number and those of the major number. */
  function MakeDev(major: int, minor: int): (device: nat) {
    var a, b := Unsigned(major), Unsigned(minor);
    Packed(b % 0x100, a % 0x1000, b / 0x100, a / 0x1000)
  }

  function Packed(minorLow: nat, majorLow: nat, minorHigh: nat, majorHigh: nat): (device: nat) {
    minorLow + 0x100 * (majorLow + 0x1000 * (minorHigh + 0x100_0000 * majorHigh))
  }

  function MajorOf(device: nat): (major: nat) {
    device / 0x100 % 0x1000 + 0x1000 * (device / 0x100 / 0x1000 / 0x100_0000)
  }

  function MinorOf(device: nat): (minor: nat) {
    device % 0x100 + 0x100 * (device / 0x100 / 0x1000 % 0x100_0000)
  }

  lemma {:induction false} LowBits(low: nat, width: nat, high: nat)
    requires width == 0x100 || width == 0x1000 || width == 0x100_0000
    requires low < width
    ensures (low + width * high) / width == high && (low + width * high) % width == low
  {
  }

  lemma {:induction false} PackedKeepsAll(minorLow: nat, majorLow: nat, minorHigh: nat, majorHigh: nat)
    requires minorLow < 0x100 && majorLow < 0x1000 && minorHigh < 0x100_0000
    ensures var device := Packed(minorLow, majorLow, minorHigh, majorHigh);
            MajorOf(device) == majorLow + 0x1000 * majorHigh && MinorOf(device) == minorLow + 0x100 * minorHigh
  {
    var upper := minorHigh + 0x100_0000 * majorHigh;
    LowBits(minorLow, 0x100, majorLow + 0x1000 * upper);
    LowBits(majorLow, 0x1000, upper);
    LowBits(minorHigh, 0x100_0000, majorHigh);
  }

  lemma {:induction false} Parts(n: nat, width: nat)
    requires width == 0x100 || width == 0x1000
    ensures n % width + width * (n / width) == n && (n < UINT_RANGE ==> n / 0x100 < 0x100_0000)
  {
  }

  lemma {:induction false} MakeDevKeepsBoth(major: nat, minor: nat)
    requires major < UINT_RANGE && minor < UINT_RANGE
    ensures var device := MakeDev(major, minor); MajorOf(device) == major && MinorOf(device) == minor
  {
    Parts(major, 0x1000);
    Parts(minor, 0x100);
    PackedKeepsAll(minor % 0x100, major % 0x1000, minor / 0x100, major / 0x1000);
  }

  /** Numbers that fit the old sixteen-bit device have its layout, and an int that is negative counts from
      the top of the unsigned range. */
  lemma {:induction false} MakeDevLayout(major: int, minor: int)
    ensures 0 <= major < 0x1000 && 0 <= minor < 0x100 ==> MakeDev(major, minor) == 0x100 * major + minor
    ensures -0x8000_0000 <= major < 0 ==> MakeDev(major, minor) == MakeDev(major + 0x1_0000_0000, minor)
    ensures -0x8000_0000 <= minor < 0 ==> MakeDev(major, minor) == MakeDev(major, minor + 0x1_0000_0000)
  {
  }

  /** The strings are positions in the line. */
  datatype Entry = Entry(id: int, parentId: int, device: nat, root: nat, mountPoint: nat,
                         mountOptions: nat, fileSystemType: nat, source: nat, superOptions: nat)

  const BLANK := Entry(0, 0, 0, 0, 0, 0, 0, 0, 0)

  predicate IsDigit(c: char) {
    '0' <= c <= '9'
  }

  predicate IsSpace(c: char) {
    c == ' ' || c == '\t' || c == '\n' || c == '\r' || c as int == 11 || c as int == 12
  }

  function DigitsValue(s: string, acc: int): (value: int) {
    if s != [] && IsDigit(s[0]) then DigitsValue(s[1..], 10 * acc + (s[0] as int - '0' as int)) else acc
  }

  function Atoi(s: string): (value: int) {
    if s == [] then 0
    else if IsSpace(s[0]) then Atoi(s[1..])
    else if s[0] == '-' then -DigitsValue(s[1..], 0)
    else if s[0] == '+' then DigitsValue(s[1..], 0)
    else DigitsValue(s, 0)
  }

  function ParseDevice(text: string): (device: Option<nat>) {
    var separator := FindNext(text, 0, ':');
    if separator == |text| then None else Some(MakeDev(Atoi(text[..separator]), Atoi(text[separator + 1..])))
  }

  /** The last field may hold spaces, but ends at a newline. */
  function Separator(field: int): (c: char) {
    if field < FIELD_SUPER_OPTIONS then ' ' else '\n'
  }

  function NextField(s: string, pos: nat, field: int): (token: Option<Token>)
    requires pos <= |s|
    ensures token.Some? ==> pos <= token.value.start < token.value.end <= |s|
  {
    NextToken(s, pos, Separator(field))
  }

  /** Stores one field; None for a device that is not of the form major:minor. */
  function Record(entry: Entry, field: int, start: nat, text: string): (recorded: Option<Entry>) {
    if field == FIELD_ID then Some(entry.(id := Atoi(text)))
    else if field == FIELD_PARENT_ID then Some(entry.(parentId := Atoi(text)))
    else if field == FIELD_DEVICE then
      var device := ParseDevice(text);
      if device.None? then None else Some(entry.(device := device.value))
    else if field == FIELD_ROOT then Some(entry.(root := start))
    else if field == FIELD_MOUNT_POINT then Some(entry.(mountPoint := start))
    else if field == FIELD_MOUNT_OPTIONS then Some(entry.(mountOptions := start))
    else if field == FIELD_FILE_SYSTEM_TYPE then Some(entry.(fileSystemType := start))
    else if field == FIELD_SOURCE then Some(entry.(source := start))
    else if field == FIELD_SUPER_OPTIONS then Some(entry.(superOptions := start))
    else Some(entry)
  }

  /** The hyphen that ends the optional fields, from the given token on. */
  function SkipOptional(s: string, token: Token): (hyphen: Option<Token>)
    requires token.start < token.end <= |s|
    ensures hyphen.Some? ==> token.start <= hyphen.value.start < hyphen.value.end <= |s|
    decreases |s| - token.start
  {
    if s[token.start..token.end] == "-" then Some(token)
    else
      var next := NextToken(s, After(s, token), ' ');
      if next.None? then None else SkipOptional(s, next.value)
  }

  /** The token that a field's case works on: for the optional fields, the hyphen behind them. */
  function FieldToken(s: string, pos: nat, field: int): (token: Option<Token>)
    requires pos <= |s|
    ensures token.Some? ==> pos <= token.value.start < token.value.end <= |s|
  {
    var token := NextField(s, pos, field);
    if token.Some? && field == FIELD_OPTIONAL_FIELDS then SkipOptional(s, token.value) else token
  }

  /** The fields from one on, with those before it already in the entry. */
  function ParseFrom(s: string, field: nat, pos: nat, entry: Entry): (parsed: Option<Entry>)
    requires pos <= |s|
    decreases FIELD_SUPER_OPTIONS + 1 - field
  {
    if field > FIELD_SUPER_OPTIONS then Some(entry)
    else
      var token := FieldToken(s, pos, field);
      if token.None? then None
      else
        var recorded := Record(entry, field, token.value.start, s[token.value.start..token.value.end]);
        if recorded.None? then None else ParseFrom(s, field + 1, After(s, token.value), recorded.value)
  }

  function ParseLine(s: string): (parsed: Option<Entry>) {
    ParseFrom(s, FIELD_ID, 0, BLANK)
  }

  // ---------------------------------------------------------------------------
  // Octal escapes

  predicate IsOctal(c: char) {
    '0' <= c <= '7'
  }

  function Digit(c: char): (d: int)
    requires IsOctal(c)
    ensures 0 <= d < 8
  {
    c as int - '0' as int
  }

  predicate StartsOctal(s: string) {
    |s| >= 3 && IsOctal(s[0]) && IsOctal(s[1]) && IsOctal(s[2])
  }

  /** Three octal digits, kept in eight bits. */
  function OctalValue(s: string): (c: char)
    requires StartsOctal(s)
  {
    ((64 * Digit(s[0]) + 8 * Digit(s[1]) + Digit(s[2])) % 0x100) as char
  }

  /** One pass from left to right. */
  function Unescape(s: string): (text: string) {
    if s == [] then []
    else if s[0] == '\\' && StartsOctal(s[1..]) then [OctalValue(s[1..])] + Unescape(s[4..])
    else [s[0]] + Unescape(s[1..])
  }

  function EscapeChar(c: char): (escaped: string) {
    if c == ' ' then "\\040"
    else if c == '\t' then "\\011"
    else if c == '\n' then "\\012"
    else if c == '\\' then "\\134"
    else [c]
  }

  /** How the kernel writes a path or a source. */
  function Escape(text: string): (escaped: string) {
    if text == [] then [] else EscapeChar(text[0]) + Escape(text[1..])
  }

  /** Every character of eight bits, written as a backslash and three octal digits, reads back; a backslash
      in front of anything else stays. */
  lemma {:induction false} OctalReads(value: nat, rest: string)
    requires value < 0x100
    ensures var digits := ['0' + (value / 64) as char, '0' + (value / 8 % 8) as char, '0' + (value % 8) as char];
            Unescape(['\\'] + digits + rest) == [value as char] + Unescape(rest)
    ensures !StartsOctal(rest) ==> Unescape(['\\'] + rest) == ['\\'] + Unescape(rest)
  {
    var digits := ['0' + (value / 64) as char, '0' + (value / 8 % 8) as char, '0' + (value % 8) as char];
    var text := ['\\'] + digits + rest;
    assert text[1] == digits[0] && text[2] == digits[1] && text[3] == digits[2] && text[4..] == rest;
    assert (['\\'] + rest)[1..] == rest;
  }

  lemma {:induction false} EscapedCharReads(c: char)
    requires c == ' ' || c == '\t' || c == '\n' || c == '\\'
    ensures var e := EscapeChar(c);
            |e| == 4 && e[0] == '\\' && StartsOctal(e[1..]) && OctalValue(e[1..]) == c
  {
  }

  lemma {:induction false} UnescapeUndoesEscape(text: string)
    ensures Unescape(Escape(text)) == text
  {
    if text != [] {
      var c, rest := text[0], Escape(text[1..]);
      UnescapeUndoesEscape(text[1..]);
      var e := Escape(text);
      if EscapeChar(c) == [c] {
        assert e[0] == c && e[1..] == rest;
      } else {
        EscapedCharReads(c);
        assert e[1..][..3] == EscapeChar(c)[1..] && e[4..] == rest;
        assert OctalValue(e[1..]) == OctalValue(EscapeChar(c)[1..]);
      }
      assert text == [c] + text[1..];
    }
  }

  lemma {:induction false} EscapeHasNoSpace(text: string)
    ensures ' ' !in Escape(text) && '\n' !in Escape(text)
    ensures text != [] ==> Escape(text) != []
  {
    if text != [] {
      EscapeHasNoSpace(text[1..]);
      assert ' ' !in EscapeChar(text[0]) && '\n' !in EscapeChar(text[0]);
    }
  }
}
