/** Mount option strings: which options become flags, and what is left for the file system. */
module MountFlags {
  import opened Wrappers
  import opened Segments

  // ---------------------------------------------------------------------------
  // The option table

  type Flags = bv32

  const MS_RDONLY: Flags := 0x1
  const MS_NOSUID: Flags := 0x2
  const MS_NODEV: Flags := 0x4
  const MS_NOEXEC: Flags := 0x8
  const MS_SYNCHRONOUS: Flags := 0x10
  const MS_REMOUNT: Flags := 0x20
  const MS_MANDLOCK: Flags := 0x40
  const MS_DIRSYNC: Flags := 0x80
  const MS_NOATIME: Flags := 0x400
  const MS_NODIRATIME: Flags := 0x800
  const MS_SILENT: Flags := 0x8000
  const MS_RELATIME: Flags := 0x20_0000
  const MS_I_VERSION: Flags := 0x80_0000
  const MS_STRICTATIME: Flags := 0x100_0000
  const MS_LAZYTIME: Flags := 0x200_0000

  datatype Kind = Set | Remove | SetNoFail | SetOptionalValue

  datatype Flag = Flag(name: string, mountFlags: Flags, kind: Kind)

  function WithInverse(name: string, inverse: string, flags: Flags): (entries: seq<Flag>) {
    [Flag(name, flags, Set), Flag(inverse, flags, Remove)]
  }

  const FIRST_OPTIONS: seq<Flag> :=
    WithInverse("sync", "async", MS_SYNCHRONOUS)
    + WithInverse("noatime", "atime", MS_NOATIME)
    + [Flag("defaults", 0, Set)]
    + WithInverse("nodev", "dev", MS_NODEV)

  const SECOND_OPTIONS: seq<Flag> :=
    WithInverse("nodiratime", "diratime", MS_NODIRATIME)
    + [Flag("dirsync", MS_DIRSYNC, Set)]
    + WithInverse("noexec", "exec", MS_NOEXEC)
    + [Flag("group", MS_NOSUID | MS_NODEV, Set), Flag("nogroup", 0, Set)]

  const THIRD_OPTIONS: seq<Flag> :=
    WithInverse("iversion", "noiversion", MS_I_VERSION)
    + WithInverse("mand", "nomand", MS_MANDLOCK)
    + [Flag("_netdev", 0, Set), Flag("nofail", 0, SetNoFail)]
    + WithInverse("relatime", "norelatime", MS_RELATIME)

  const FOURTH_OPTIONS: seq<Flag> :=
    WithInverse("strictatime", "nostrictatime", MS_STRICTATIME)
    + WithInverse("lazytime", "nolazytime", MS_LAZYTIME)
    + WithInverse("nosuid", "suid", MS_NOSUID)
    + WithInverse("silent", "loud", MS_SILENT)

  const LAST_OPTIONS: seq<Flag> :=
    [Flag("owner", MS_NODEV | MS_NOSUID, Set), Flag("noowner", 0, Set), Flag("remount", MS_REMOUNT, Set)]
    + WithInverse("ro", "rw", MS_RDONLY)
    + [Flag("user", MS_NOEXEC | MS_NODEV | MS_NOSUID, SetOptionalValue), Flag("nouser", 0, Set),
       Flag("users", MS_NOEXEC | MS_NODEV | MS_NOSUID, Set), Flag("nousers", 0, Set)]

  const TABLE: seq<Flag> := FIRST_OPTIONS + SECOND_OPTIONS + THIRD_OPTIONS + FOURTH_OPTIONS + LAST_OPTIONS

  /** The part of an option in front of its value. */
  function NameOf(option: string): (name: string) {
    Split(option, '=')[0]
  }

  ghost predicate Matches(flag: Flag, option: string) {
    flag.name == NameOf(option) && ('=' in option ==> flag.kind == SetOptionalValue)
  }

  /** The first entry with the name; one that takes no value is passed over if there is one. */
  function FindIn(table: seq<Flag>, name: string, hasValue: bool): (flag: Option<Flag>)
    ensures flag.Some? ==> flag.value in table
  {
    if table == [] then None
    else if (!hasValue || table[0].kind == SetOptionalValue) && name == table[0].name then Some(table[0])
    else FindIn(table[1..], name, hasValue)
  }

  function FindOption(table: seq<Flag>, option: string): (flag: Option<Flag>) {
    FindIn(table, NameOf(option), '=' in option)
  }

  // ---------------------------------------------------------------------------
  // Parsing, with any table

  datatype ParsedOptions = ParsedOptions(stringOptions: string, mountFlags: Flags, noFail: bool)

  const NOTHING := ParsedOptions("", 0, false)

  function Tokens(options: string): (tokens: seq<string>) {
    NonEmpty(Split(options, ','))
  }

  function Changed(flags: Flags, flag: Flag): (changed: Flags) {
    if flag.kind == Remove then flags & !flag.mountFlags else flags | flag.mountFlags
  }

  function Apply(table: seq<Flag>, result: ParsedOptions, option: string): (next: ParsedOptions) {
    var flag := FindOption(table, option);
    if flag.None? then
      result.(stringOptions := (if result.stringOptions == "" then "" else result.stringOptions + ",") + option)
    else
      result.(mountFlags := Changed(result.mountFlags, flag.value),
              noFail := result.noFail || flag.value.kind == SetNoFail)
  }

  function ApplyAll(table: seq<Flag>, tokens: seq<string>): (result: ParsedOptions) {
    if tokens == [] then NOTHING else Apply(table, ApplyAll(table, tokens[..|tokens| - 1]), tokens[|tokens| - 1])
  }

  function Parse(table: seq<Flag>, options: string): (result: ParsedOptions) {
    ApplyAll(table, Tokens(options))
  }

  // ---------------------------------------------------------------------------
  // The code

  /** NextToken: up to the first separator; the view moves behind it. */
  method NextToken(view: string, separator: char) returns (token: string, rest: string)
    ensures separator !in token
    ensures view == if separator in view then token + [separator] + rest else token
    ensures separator !in view ==> rest == ""
  {
    var pos := 0;
    while pos < |view| && view[pos] != separator
      invariant pos <= |view| && separator !in view[..pos]
    {
      assert view[..pos + 1] == view[..pos] + [view[pos]];
      pos := pos + 1;
    }
    token := view[..pos];
    if pos == |view| {
      assert view[..pos] == view;
      rest := "";
    } else {
      assert view[pos] in view;
      rest := view[pos + 1..];
    }
  }

  /** Taking one token off the view takes it off the list of tokens. */
  lemma {:induction false} TokensOf(view: string, token: string, rest: string)
    requires ',' !in token
    requires view == if ',' in view then token + [','] + rest else token
    requires ',' !in view ==> rest == ""
    ensures Tokens(view) == if token == "" then Tokens(rest) else [token] + Tokens(rest)
  {
    SplitPlain(token, ',');
    assert NonEmpty([token]) == if token == "" then [] else [token];
    if ',' in view {
      SplitAtSeparator(token, ',', rest);
      NonEmptyConcat([token], Split(rest, ','));
      assert [] + Tokens(rest) == Tokens(rest);
    } else {
      assert Tokens("") == [];
    }
  }

  lemma {:induction false} OneMore(table: seq<Flag>, done: seq<string>, option: string, rest: seq<string>)
    ensures ApplyAll(table, done + [option]) == Apply(table, ApplyAll(table, done), option)
    ensures done + ([option] + rest) == (done + [option]) + rest
  {
    assert (done + [option])[..|done|] == done;
  }

  /** The loop over the options. */
  method ParseFlags(table: seq<Flag>, options: string) returns (result: ParsedOptions)
    ensures result == Parse(table, options)
  {
    var view := options;
    result := NOTHING;
    ghost var done: seq<string> := [];
    while view != ""
      invariant Tokens(options) == done + Tokens(view)
      invariant result == ApplyAll(table, done)
      decreases |view|
    {
      var option, rest := NextToken(view, ',');
      TokensOf(view, option, rest);
      view := rest;
      if option != "" {
        OneMore(table, done, option, Tokens(rest));
        result := Apply(table, result, option);
        done := done + [option];
      }
    }
    assert Tokens("") == [] && done + [] == done;
  }

  method MountParseFlags(options: string) returns (result: ParsedOptions)
    ensures result == Parse(TABLE, options)
  {
    result := ParseFlags(TABLE, options);
  }

  // ---------------------------------------------------------------------------
  // Which options are flags

  /** Found exactly if some entry matches, and then the entry found does. */
  lemma {:induction false} FoundIffListed(table: seq<Flag>, option: string)
    ensures FindOption(table, option).Some? <==> exists f | f in table :: Matches(f, option)
    ensures FindOption(table, option).Some? ==> Matches(FindOption(table, option).value, option)
  {
    if table != [] {
      FoundIffListed(table[1..], option);
      if exists f | f in table :: Matches(f, option) {
        var f :| f in table && Matches(f, option);
        assert f == table[0] || f in table[1..];
      }
    }
  }

  ghost predicate TakesNoValue(table: seq<Flag>) {
    forall f | f in table :: f.kind != SetOptionalValue
  }

  lemma {:induction false} NoValuesFirst()
    ensures TakesNoValue(FIRST_OPTIONS)
  {
  }

  lemma {:induction false} NoValuesSecond()
    ensures TakesNoValue(SECOND_OPTIONS)
  {
  }

  lemma {:induction false} NoValuesThird()
    ensures TakesNoValue(THIRD_OPTIONS)
  {
  }

  lemma {:induction false} NoValuesFourth()
    ensures TakesNoValue(FOURTH_OPTIONS)
  {
  }

  lemma {:induction false} OneValueLast()
    ensures forall f | f in LAST_OPTIONS :: f.kind == SetOptionalValue <==> f.name == "user"
    ensures exists f :: f in LAST_OPTIONS && f.name == "user"
  {
    assert LAST_OPTIONS[5].name == "user";
  }

  /** An option with a value is a flag only if it is "user". */
  lemma {:induction false} OnlyUserTakesAValue(option: string)
    requires '=' in option
    ensures FindOption(TABLE, option).Some? <==> NameOf(option) == "user"
  {
    FoundIffListed(TABLE, option);
    NoValuesFirst();
    NoValuesSecond();
    NoValuesThird();
    NoValuesFourth();
    OneValueLast();
    if NameOf(option) == "user" {
      var f :| f in LAST_OPTIONS && f.name == "user";
      assert f in TABLE && Matches(f, option);
    }
  }

  // ---------------------------------------------------------------------------
  // Flags

  ghost predicate SingleBit(bit: Flags) {
    bit != 0 && bit & (bit - 1) == 0
  }

  ghost predicate Touches(table: seq<Flag>, option: string, bit: Flags) {
    var flag := FindOption(table, option);
    flag.Some? && flag.value.mountFlags & bit != 0
  }

  ghost predicate IsSetter(table: seq<Flag>, option: string) {
    var flag := FindOption(table, option);
    flag.Some? && flag.value.kind != Remove
  }

  /** Some setter touches the bit, and no option behind it does. */
  ghost predicate LastTouchSets(table: seq<Flag>, tokens: seq<string>, bit: Flags) {
    exists i | 0 <= i < |tokens| ::
      && Touches(table, tokens[i], bit) && IsSetter(table, tokens[i])
      && forall j | i < j < |tokens| :: !Touches(table, tokens[j], bit)
  }

  lemma {:induction false} SetBit(flags: Flags, more: Flags, bit: Flags)
    ensures (flags | more) & bit != 0 <==> flags & bit != 0 || more & bit != 0
  {
  }

  lemma {:induction false} ClearBit(flags: Flags, less: Flags, bit: Flags)
    requires SingleBit(bit)
    ensures (flags & !less) & bit != 0 <==> flags & bit != 0 && less & bit == 0
  {
  }

  /** There are some bits, and they were added to the flags and cleared from them. */
  predicate AddedAndCleared(bits: Flags, flags: Flags, added: Flags, cleared: Flags) {
    bits != 0 && added == flags | bits && cleared == flags & !bits && cleared & bits == 0
  }

  lemma {:induction false} ClearedBits(bits: Flags, flags: Flags)
    requires bits != 0
    ensures AddedAndCleared(bits, flags, flags | bits, flags & !bits)
  {
  }

  lemma {:induction false} ChangedBothWays(sets: Flag, removes: Flag, flags: Flags)
    requires sets.kind == Set && removes.kind == Remove && sets.mountFlags == removes.mountFlags
    ensures Changed(flags, sets) == flags | sets.mountFlags && Changed(flags, removes) == flags & !sets.mountFlags
  {
  }

  lemma {:induction false} ChangedPair(sets: Flag, removes: Flag, flags: Flags)
    requires sets.kind == Set && removes.kind == Remove && sets.mountFlags == removes.mountFlags != 0
    ensures AddedAndCleared(sets.mountFlags, flags, Changed(flags, sets), Changed(flags, removes))
  {
    ChangedBothWays(sets, removes, flags);
    ClearedBits(sets.mountFlags, flags);
  }

  lemma {:induction false} LastTouchStep(table: seq<Flag>, tokens: seq<string>, option: string, bit: Flags)
    ensures LastTouchSets(table, tokens + [option], bit) <==>
            if Touches(table, option, bit) then IsSetter(table, option) else LastTouchSets(table, tokens, bit)
  {
    var all := tokens + [option];
    assert all[|tokens|] == option;
    if !Touches(table, option, bit) && LastTouchSets(table, tokens, bit) {
      var i :| 0 <= i < |tokens| && Touches(table, tokens[i], bit) && IsSetter(table, tokens[i])
        && forall j | i < j < |tokens| :: !Touches(table, tokens[j], bit);
      assert all[i] == tokens[i];
    }
    if !Touches(table, option, bit) && LastTouchSets(table, all, bit) {
      var i :| 0 <= i < |all| && Touches(table, all[i], bit) && IsSetter(table, all[i])
        && forall j | i < j < |all| :: !Touches(table, all[j], bit);
      assert tokens[i] == all[i];
      assert forall j | i < j < |tokens| :: tokens[j] == all[j];
    }
  }

  lemma {:induction false} ApplyBit(table: seq<Flag>, result: ParsedOptions, option: string, bit: Flags)
    requires SingleBit(bit)
    ensures Apply(table, result, option).mountFlags & bit != 0 <==>
            if Touches(table, option, bit) then IsSetter(table, option) else result.mountFlags & bit != 0
  {
    var flag := FindOption(table, option);
    if flag.Some? {
      SetBit(result.mountFlags, flag.value.mountFlags, bit);
      ClearBit(result.mountFlags, flag.value.mountFlags, bit);
    }
  }

  /** A bit of the flags is set exactly if the last recognised option that touches it sets it. */
  lemma {:induction false} BitIsLastTouch(table: seq<Flag>, tokens: seq<string>, bit: Flags)
    requires SingleBit(bit)
    ensures ApplyAll(table, tokens).mountFlags & bit != 0 <==> LastTouchSets(table, tokens, bit)
    decreases |tokens|
  {
    if tokens != [] {
      var before, option := tokens[..|tokens| - 1], tokens[|tokens| - 1];
      BitIsLastTouch(table, before, bit);
      LastTouchStep(table, before, option, bit);
      assert before + [option] == tokens;
      ApplyBit(table, ApplyAll(table, before), option, bit);
    }
  }

  lemma {:induction false} NoFailIffAsked(table: seq<Flag>, tokens: seq<string>)
    ensures ApplyAll(table, tokens).noFail <==>
            exists option | option in tokens ::
              FindOption(table, option).Some? && FindOption(table, option).value.kind == SetNoFail
    decreases |tokens|
  {
    if tokens != [] {
      var before, option := tokens[..|tokens| - 1], tokens[|tokens| - 1];
      NoFailIffAsked(table, before);
      assert tokens == before + [option];
    }
  }

  // ---------------------------------------------------------------------------
  // String options

  function Unrecognised(table: seq<Flag>, tokens: seq<string>): (rest: seq<string>) {
    if tokens == [] then []
    else Unrecognised(table, tokens[..|tokens| - 1])
         + if FindOption(table, tokens[|tokens| - 1]).None? then [tokens[|tokens| - 1]] else []
  }

  lemma {:induction false} JoinOneMore(pieces: seq<string>, piece: string, sep: char)
    ensures Join(pieces + [piece], sep) == (if pieces == [] then "" else Join(pieces, sep) + [sep]) + piece
  {
    if pieces != [] {
      assert (pieces + [piece])[1..] == pieces[1..] + [piece];
      JoinOneMore(pieces[1..], piece, sep);
      if |pieces| > 1 {
        assert pieces[0] + [sep] + ((Join(pieces[1..], sep) + [sep]) + piece) ==
               (pieces[0] + [sep] + Join(pieces[1..], sep)) + [sep] + piece;
      }
    }
  }

  ghost predicate AllTokens(tokens: seq<string>) {
    forall t | t in tokens :: t != "" && ',' !in t
  }

  lemma {:induction false} JoinIsEmpty(pieces: seq<string>)
    requires AllTokens(pieces)
    ensures Join(pieces, ',') == "" <==> pieces == []
  {
    if pieces != [] {
      assert pieces[0] in pieces;
    }
  }

  lemma {:induction false} UnrecognisedAreTokens(table: seq<Flag>, tokens: seq<string>)
    ensures forall t | t in Unrecognised(table, tokens) :: t in tokens && FindOption(table, t).None?
    decreases |tokens|
  {
    if tokens != [] {
      UnrecognisedAreTokens(table, tokens[..|tokens| - 1]);
    }
  }

  /** The string options are the unrecognised options, in order. */
  lemma {:induction false} StringOptionsAreTheRest(table: seq<Flag>, tokens: seq<string>)
    requires AllTokens(tokens)
    ensures ApplyAll(table, tokens).stringOptions == Join(Unrecognised(table, tokens), ',')
    decreases |tokens|
  {
    if tokens != [] {
      var before, option := tokens[..|tokens| - 1], tokens[|tokens| - 1];
      assert forall t | t in before :: t in tokens;
      assert option in tokens;
      StringOptionsAreTheRest(table, before);
      UnrecognisedAreTokens(table, before);
      JoinIsEmpty(Unrecognised(table, before));
      JoinOneMore(Unrecognised(table, before), option, ',');
      assert Unrecognised(table, before) + [] == Unrecognised(table, before);
    }
  }

  lemma {:induction false} TokensAreTokens(options: string)
    ensures AllTokens(Tokens(options))
  {
    SplitPiecesPlain(options, ',');
    NonEmptyMembers(Split(options, ','));
  }

  lemma {:induction false} NonEmptyMembers(pieces: seq<string>)
    ensures forall t | t in NonEmpty(pieces) :: t != "" && t in pieces
  {
    if pieces != [] {
      NonEmptyMembers(pieces[1..]);
    }
  }

  lemma {:induction false} NonEmptyIsAll(pieces: seq<string>)
    requires forall t | t in pieces :: t != ""
    ensures NonEmpty(pieces) == pieces
  {
    if pieces != [] {
      assert pieces[0] in pieces && forall t | t in pieces[1..] :: t in pieces;
      NonEmptyIsAll(pieces[1..]);
    }
  }

  lemma {:induction false} UnrecognisedIsAll(table: seq<Flag>, tokens: seq<string>)
    requires forall t | t in tokens :: FindOption(table, t).None?
    ensures Unrecognised(table, tokens) == tokens
    ensures ApplyAll(table, tokens).mountFlags == 0 && !ApplyAll(table, tokens).noFail
    decreases |tokens|
  {
    if tokens != [] {
      assert tokens[|tokens| - 1] in tokens;
      UnrecognisedIsAll(table, tokens[..|tokens| - 1]);
    }
  }

  lemma {:induction false} TokensOfJoin(tokens: seq<string>)
    requires AllTokens(tokens)
    ensures Tokens(Join(tokens, ',')) == tokens
  {
    if tokens == [] {
      assert Tokens("") == [];
    } else {
      SplitJoin(tokens, ',');
      NonEmptyIsAll(tokens);
    }
  }

  /** For every option string: each flag bit, the string options and nofail say what they should. */
  lemma {:induction false} ParseMeans(table: seq<Flag>, options: string, bit: Flags)
    requires SingleBit(bit)
    ensures var result, tokens := Parse(table, options), Tokens(options);
            && (result.mountFlags & bit != 0 <==> LastTouchSets(table, tokens, bit))
            && result.stringOptions == Join(Unrecognised(table, tokens), ',')
            && (result.noFail <==> exists option | option in tokens ::
                  FindOption(table, option).Some? && FindOption(table, option).value.kind == SetNoFail)
  {
    BitIsLastTouch(table, Tokens(options), bit);
    TokensAreTokens(options);
    StringOptionsAreTheRest(table, Tokens(options));
    NoFailIffAsked(table, Tokens(options));
  }

  /** Parsing the string options again finds no flags in them and gives them back unchanged. */
  lemma {:induction false} ReparsingChangesNothing(table: seq<Flag>, options: string)
    ensures var rest := Parse(table, options).stringOptions;
            Parse(table, rest) == ParsedOptions(rest, 0, false)
  {
    var tokens := Tokens(options);
    var unrecognised := Unrecognised(table, tokens);
    TokensAreTokens(options);
    StringOptionsAreTheRest(table, tokens);
    UnrecognisedAreTokens(table, tokens);
    TokensOfJoin(unrecognised);
    UnrecognisedIsAll(table, unrecognised);
    StringOptionsAreTheRest(table, unrecognised);
  }
}
