/** What each mount option means, as the result of parsing it. */
module MountOptions {
  import opened Wrappers
  import opened Segments
  import opened MountFlags

  /** Each option, and the flags it leaves set when it stands alone. */
  const ALONE: seq<(string, Flags)> := [
    ("sync", 0x10), ("async", 0), ("noatime", 0x400), ("atime", 0), ("defaults", 0), ("nodev", 0x4), ("dev", 0),
    ("nodiratime", 0x800), ("diratime", 0), ("dirsync", 0x80), ("noexec", 0x8), ("exec", 0), ("group", 0x6),
    ("nogroup", 0), ("iversion", 0x80_0000), ("noiversion", 0), ("mand", 0x40), ("nomand", 0), ("_netdev", 0),
    ("nofail", 0), ("relatime", 0x20_0000), ("norelatime", 0), ("strictatime", 0x100_0000), ("nostrictatime", 0),
    ("lazytime", 0x200_0000), ("nolazytime", 0), ("nosuid", 0x2), ("suid", 0), ("silent", 0x8000), ("loud", 0),
    ("owner", 0x6), ("noowner", 0), ("remount", 0x20), ("ro", 0x1), ("rw", 0), ("user", 0xe), ("nouser", 0),
    ("users", 0xe), ("nousers", 0)]

  /** The options that come with an inverse. */
  const PAIRS: seq<(string, string)> := [
    ("sync", "async"), ("noatime", "atime"), ("nodev", "dev"), ("nodiratime", "diratime"), ("noexec", "exec"),
    ("iversion", "noiversion"), ("mand", "nomand"), ("relatime", "norelatime"), ("strictatime", "nostrictatime"),
    ("lazytime", "nolazytime"), ("nosuid", "suid"), ("silent", "loud"), ("ro", "rw")]

  // ---------------------------------------------------------------------------
  // The entries of the table

  ghost predicate Word(name: string) {
    name != "" && ',' !in name && '=' !in name
  }

  ghost function Leaves(flag: Flag): (flags: Flags) {
    if flag.kind == Remove then 0 else flag.mountFlags
  }

  ghost predicate IsEntry(flag: Flag, k: nat) {
    && k < |ALONE| && flag.name == ALONE[k].0 && Leaves(flag) == ALONE[k].1
    && (flag.kind == SetNoFail <==> k == 19) && (flag.kind == SetOptionalValue <==> k == 35)
  }

  /** The entries are those of the list from k on. */
  ghost predicate Lists(entries: seq<Flag>, k: nat) {
    forall i | 0 <= i < |entries| :: IsEntry(entries[i], k + i)
  }

  lemma {:induction false} FirstEntries()
    ensures |FIRST_OPTIONS| == 7 && Lists(FIRST_OPTIONS, 0)
  {
  }

  lemma {:induction false} SecondEntries()
    ensures |SECOND_OPTIONS| == 7 && Lists(SECOND_OPTIONS, 7)
  {
  }

  lemma {:induction false} ThirdEntries()
    ensures |THIRD_OPTIONS| == 8 && Lists(THIRD_OPTIONS, 14)
  {
  }

  lemma {:induction false} FourthEntries()
    ensures |FOURTH_OPTIONS| == 8 && Lists(FOURTH_OPTIONS, 22)
  {
  }

  lemma {:induction false} LastEntries()
    ensures |LAST_OPTIONS| == 9 && Lists(LAST_OPTIONS, 30)
  {
  }

  lemma {:induction false} ListsConcat(a: seq<Flag>, b: seq<Flag>, k: nat)
    requires Lists(a, k) && Lists(b, k + |a|)
    ensures Lists(a + b, k)
  {
    forall i | |a| <= i < |a + b| ensures IsEntry((a + b)[i], k + i) {
      assert IsEntry(b[i - |a|], k + |a| + (i - |a|));
    }
  }

  lemma {:induction false} TableEntries()
    ensures |TABLE| == |ALONE| == 39 && Lists(TABLE, 0)
  {
    FirstEntries();
    SecondEntries();
    ThirdEntries();
    FourthEntries();
    LastEntries();
    ListsConcat(FIRST_OPTIONS, SECOND_OPTIONS, 0);
    ListsConcat(FIRST_OPTIONS + SECOND_OPTIONS, THIRD_OPTIONS, 0);
    ListsConcat(FIRST_OPTIONS + SECOND_OPTIONS + THIRD_OPTIONS, FOURTH_OPTIONS, 0);
    ListsConcat(FIRST_OPTIONS + SECOND_OPTIONS + THIRD_OPTIONS + FOURTH_OPTIONS, LAST_OPTIONS, 0);
  }

  lemma {:induction false} LowNamesDiffer()
    ensures forall i, j | 0 <= i < j < 20 :: ALONE[i].0 != ALONE[j].0
  {
  }

  lemma {:induction false} MiddleNamesDiffer()
    ensures forall i, j | 0 <= i < 20 <= j < 30 :: ALONE[i].0 != ALONE[j].0
  {
  }

  lemma {:induction false} HighNamesDiffer()
    ensures forall i, j | 0 <= i < 20 && 30 <= j < 39 :: ALONE[i].0 != ALONE[j].0
  {
  }

  lemma {:induction false} LastNamesDiffer()
    ensures forall i, j | 20 <= i < j < 39 :: ALONE[i].0 != ALONE[j].0
  {
  }

  lemma {:induction false} NamesDiffer(i: nat, j: nat)
    requires i < j < 39
    ensures ALONE[i].0 != ALONE[j].0
  {
    LowNamesDiffer();
    MiddleNamesDiffer();
    HighNamesDiffer();
    LastNamesDiffer();
  }

  lemma {:induction false} LowNamesAreWords()
    ensures forall k | 0 <= k < 13 :: Word(ALONE[k].0)
  {
  }

  lemma {:induction false} MiddleNamesAreWords()
    ensures forall k | 13 <= k < 26 :: Word(ALONE[k].0)
  {
  }

  lemma {:induction false} HighNamesAreWords()
    ensures forall k | 26 <= k < 39 :: Word(ALONE[k].0)
  {
  }

  // ---------------------------------------------------------------------------
  // Single options

  lemma {:induction false} FindFirst(table: seq<Flag>, k: nat, name: string, hasValue: bool)
    requires k < |table| && table[k].name == name && (hasValue ==> table[k].kind == SetOptionalValue)
    requires forall j | 0 <= j < k :: table[j].name != name
    ensures FindIn(table, name, hasValue) == Some(table[k])
    decreases k
  {
    if k > 0 {
      FindFirst(table[1..], k - 1, name, hasValue);
    }
  }

  lemma {:induction false} FoundAt(k: nat, hasValue: bool)
    requires k < |ALONE| && (hasValue ==> k == 35)
    ensures |TABLE| == |ALONE| && IsEntry(TABLE[k], k) && FindIn(TABLE, ALONE[k].0, hasValue) == Some(TABLE[k])
  {
    TableEntries();
    assert IsEntry(TABLE[k], k);
    forall j | 0 <= j < k ensures TABLE[j].name != ALONE[k].0 {
      assert IsEntry(TABLE[j], j);
      NamesDiffer(j, k);
    }
    FindFirst(TABLE, k, ALONE[k].0, hasValue);
  }

  lemma {:induction false} NamesAreWords(k: nat)
    requires k < |ALONE|
    ensures Word(ALONE[k].0)
  {
    LowNamesAreWords();
    MiddleNamesAreWords();
    HighNamesAreWords();
  }

  lemma {:induction false} FindWord(table: seq<Flag>, word: string)
    requires Word(word)
    ensures FindOption(table, word) == FindIn(table, word, false) && Tokens(word) == [word]
  {
    SplitPlain(word, '=');
    SplitPlain(word, ',');
    assert NonEmpty([word]) == [word];
  }

  /** One more option at the end of the string is applied to the result for the string before it. */
  lemma {:induction false} ParseOneMore(table: seq<Flag>, before: string, option: string)
    requires option != "" && ',' !in option
    ensures Parse(table, before + "," + option) == Apply(table, Parse(table, before), option)
  {
    SplitAtSeparator(before, ',', option);
    SplitPlain(option, ',');
    NonEmptyConcat(Split(before, ','), [option]);
    assert NonEmpty([option]) == [option];
    OneMore(table, Tokens(before), option, []);
  }

  lemma {:induction false} FlagsFromNothing(flags: Flags)
    ensures 0 | flags == flags && 0 & !flags == 0
  {
  }

  lemma {:induction false} ChangedFromNothing(flag: Flag)
    ensures Changed(0, flag) == Leaves(flag)
  {
    FlagsFromNothing(flag.mountFlags);
  }

  lemma {:induction false} ApplyToNothing(table: seq<Flag>, option: string, flag: Flag)
    requires FindOption(table, option) == Some(flag)
    ensures Apply(table, MountFlags.NOTHING, option) ==
            ParsedOptions("", Changed(0, flag), flag.kind == SetNoFail)
  {
  }

  /** What an entry of any table does when its name stands alone, and behind other options. */
  lemma {:induction false} EntryAlone(table: seq<Flag>, flag: Flag)
    requires Word(flag.name) && FindIn(table, flag.name, false) == Some(flag)
    ensures Parse(table, flag.name) == ParsedOptions("", Leaves(flag), flag.kind == SetNoFail)
  {
    FindWord(table, flag.name);
    OneMore(table, [], flag.name, []);
    assert [] + [flag.name] == [flag.name];
    ApplyToNothing(table, flag.name, flag);
    ChangedFromNothing(flag);
  }

  lemma {:induction false} EntryBehind(table: seq<Flag>, flag: Flag, before: string)
    requires Word(flag.name) && FindIn(table, flag.name, false) == Some(flag)
    ensures Parse(table, before + "," + flag.name).mountFlags == Changed(Parse(table, before).mountFlags, flag)
  {
    FindWord(table, flag.name);
    ParseOneMore(table, before, flag.name);
  }

  lemma {:induction false} OnlyNofail(k: nat)
    requires k < |ALONE|
    ensures ALONE[k].0 == "nofail" <==> k == 19
  {
    if k != 19 {
      NamesDiffer(if k < 19 then k else 19, if k < 19 then 19 else k);
    }
  }

  /** An option alone leaves the flags listed for it, no string options, and NoFail only for "nofail". */
  lemma {:induction false} AloneLeaves(k: nat)
    requires k < |ALONE|
    ensures Parse(TABLE, ALONE[k].0) == ParsedOptions("", ALONE[k].1, ALONE[k].0 == "nofail")
  {
    FoundAt(k, false);
    NamesAreWords(k);
    OnlyNofail(k);
    EntryAlone(TABLE, TABLE[k]);
  }

  /** An option is a flag exactly if its name is listed and, if it has a value, is "user". */
  lemma {:induction false} RecognisedIff(option: string)
    ensures FindOption(TABLE, option).Some? <==>
            && (exists k | 0 <= k < |ALONE| :: NameOf(option) == ALONE[k].0)
            && ('=' in option ==> NameOf(option) == "user")
  {
    FoundIffListed(TABLE, option);
    TableEntries();
    if k :| 0 <= k < |ALONE| && NameOf(option) == ALONE[k].0 {
      FoundAt(k, false);
    }
    if '=' in option {
      OnlyUserTakesAValue(option);
      assert ALONE[35].0 == "user";
    } else if FindOption(TABLE, option).Some? {
      var i :| 0 <= i < |TABLE| && Matches(TABLE[i], option);
      assert IsEntry(TABLE[i], i);
    }
  }

  lemma {:induction false} SameEntry(table: seq<Flag>, before: string, option: string, word: string)
    requires option != "" && ',' !in option && Word(word) && FindOption(table, option) == FindIn(table, word, false)
    requires FindOption(table, option).Some?
    ensures Parse(table, before + "," + option) == Parse(table, before + "," + word)
  {
    FindWord(table, word);
    ParseOneMore(table, before, option);
    ParseOneMore(table, before, word);
  }

  /** "user" means the same with a value as without. */
  lemma {:induction false} UserWithValue(before: string, option: string)
    requires ',' !in option && '=' in option && NameOf(option) == "user"
    ensures Parse(TABLE, before + "," + option) == Parse(TABLE, before + "," + "user")
  {
    FoundAt(35, true);
    FoundAt(35, false);
    NamesAreWords(35);
    SameEntry(TABLE, before, option, "user");
  }

  // ---------------------------------------------------------------------------
  // Inverses

  ghost predicate IsPair(table: seq<Flag>, i: int, pair: (string, string)) {
    && 0 <= i < |table| - 1
    && table[i].name == pair.0 && table[i].kind == Set && table[i].mountFlags != 0
    && table[i + 1] == Flag(pair.1, table[i].mountFlags, Remove)
  }

  ghost predicate HasPair(table: seq<Flag>, pair: (string, string)) {
    exists i :: IsPair(table, i, pair)
  }

  lemma {:induction false} HasPairConcat(a: seq<Flag>, b: seq<Flag>, pair: (string, string))
    ensures HasPair(a, pair) || HasPair(b, pair) ==> HasPair(a + b, pair)
  {
    if i :| IsPair(a, i, pair) {
      assert IsPair(a + b, i, pair);
    }
    if i :| IsPair(b, i, pair) {
      assert IsPair(a + b, |a| + i, pair);
    }
  }

  lemma {:induction false} FirstPairs()
    ensures forall p | 0 <= p < 3 :: HasPair(FIRST_OPTIONS, PAIRS[p])
  {
    assert IsPair(FIRST_OPTIONS, 0, PAIRS[0]) && IsPair(FIRST_OPTIONS, 2, PAIRS[1]);
    assert IsPair(FIRST_OPTIONS, 5, PAIRS[2]);
  }

  lemma {:induction false} SecondPairs()
    ensures forall p | 3 <= p < 5 :: HasPair(SECOND_OPTIONS, PAIRS[p])
  {
    assert IsPair(SECOND_OPTIONS, 0, PAIRS[3]) && IsPair(SECOND_OPTIONS, 3, PAIRS[4]);
  }

  lemma {:induction false} ThirdPairs()
    ensures forall p | 5 <= p < 8 :: HasPair(THIRD_OPTIONS, PAIRS[p])
  {
    assert IsPair(THIRD_OPTIONS, 0, PAIRS[5]) && IsPair(THIRD_OPTIONS, 2, PAIRS[6]);
    assert IsPair(THIRD_OPTIONS, 6, PAIRS[7]);
  }

  lemma {:induction false} FourthPairs()
    ensures forall p | 8 <= p < 12 :: HasPair(FOURTH_OPTIONS, PAIRS[p])
  {
    assert IsPair(FOURTH_OPTIONS, 0, PAIRS[8]) && IsPair(FOURTH_OPTIONS, 2, PAIRS[9]);
    assert IsPair(FOURTH_OPTIONS, 4, PAIRS[10]) && IsPair(FOURTH_OPTIONS, 6, PAIRS[11]);
  }

  lemma {:induction false} LastPair()
    ensures HasPair(LAST_OPTIONS, PAIRS[12])
  {
    assert IsPair(LAST_OPTIONS, 3, PAIRS[12]);
  }

  lemma {:induction false} TablePairs(p: nat)
    requires p < |PAIRS|
    ensures HasPair(TABLE, PAIRS[p])
  {
    FirstPairs();
    SecondPairs();
    ThirdPairs();
    FourthPairs();
    LastPair();
    HasPairConcat(FIRST_OPTIONS, SECOND_OPTIONS, PAIRS[p]);
    HasPairConcat(FIRST_OPTIONS + SECOND_OPTIONS, THIRD_OPTIONS, PAIRS[p]);
    HasPairConcat(FIRST_OPTIONS + SECOND_OPTIONS + THIRD_OPTIONS, FOURTH_OPTIONS, PAIRS[p]);
    HasPairConcat(FIRST_OPTIONS + SECOND_OPTIONS + THIRD_OPTIONS + FOURTH_OPTIONS, LAST_OPTIONS, PAIRS[p]);
  }

  /** Behind any options, the name adds the flags that it leaves alone, of which there are some, and the
      inverse clears exactly these. */
  ghost predicate Undoes(table: seq<Flag>, name: string, inverse: string, before: string) {
    AddedAndCleared(Parse(table, name).mountFlags, Parse(table, before).mountFlags,
                    Parse(table, before + "," + name).mountFlags, Parse(table, before + "," + inverse).mountFlags)
  }

  lemma {:induction false} PairUndoes(table: seq<Flag>, name: string, inverse: string, flags: Flags, before: string)
    requires Word(name) && FindIn(table, name, false) == Some(Flag(name, flags, Set)) && flags != 0
    requires Word(inverse) && FindIn(table, inverse, false) == Some(Flag(inverse, flags, Remove))
    ensures Undoes(table, name, inverse, before)
  {
    EntryAlone(table, Flag(name, flags, Set));
    EntryBehind(table, Flag(name, flags, Set), before);
    EntryBehind(table, Flag(inverse, flags, Remove), before);
    ChangedPair(Flag(name, flags, Set), Flag(inverse, flags, Remove), Parse(table, before).mountFlags);
  }

  /** So it is for every option with an inverse. */
  lemma {:induction false} InverseUndoes(p: nat, before: string)
    requires p < |PAIRS|
    ensures Undoes(TABLE, PAIRS[p].0, PAIRS[p].1, before)
  {
    TableEntries();
    TablePairs(p);
    var i :| IsPair(TABLE, i, PAIRS[p]);
    FoundAt(i, false);
    FoundAt(i + 1, false);
    NamesAreWords(i);
    NamesAreWords(i + 1);
    PairUndoes(TABLE, PAIRS[p].0, PAIRS[p].1, TABLE[i].mountFlags, before);
  }
}
