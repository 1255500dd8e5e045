/** Which lines of mountinfo parse. */
module MountInfoLines {
  import opened Wrappers
  import opened Segments
  import opened Sequences
  import opened MountInfo

  /** The words of a text, however many spaces stand between them. */
  ghost function WordsOf(text: string): (words: seq<string>) {
    NonEmpty(Split(text, ' '))
  }

  /** The words in front of a field: one for each of the first six; then the optional ones and, as number k,
      the first hyphen from the seventh on; then one for each. The device is the third. */
  ghost predicate Shape(words: seq<string>, field: nat, k: nat) {
    && (|words| > 2 ==> ':' in words[2])
    && if field <= 6 then |words| == field
       else k >= 6 && |words| == k + field - 6 && words[k] == "-" && forall j | 6 <= j < k :: words[j] != "-"
  }

  ghost predicate NotAll(text: string, c: char) {
    exists i :: 0 <= i < |text| && text[i] != c
  }

  /** A space divides the line: the words in front of it are those of the first nine fields, the last of them
      right in front of it, and what is behind it is not newlines only. */
  ghost predicate DividedAt(line: string, f: nat, k: nat) {
    && 0 < f < |line| && line[f] == ' ' && line[f - 1] != ' '
    && Shape(WordsOf(line[..f]), FIELD_SUPER_OPTIONS, k) && NotAll(line[f + 1..], '\n')
  }

  // ---------------------------------------------------------------------------
  // Words and tokens

  lemma {:induction false} WordsConcat(left: string, right: string)
    ensures WordsOf(left + " " + right) == WordsOf(left) + WordsOf(right)
  {
    SplitAtSeparator(left, ' ', right);
    assert left + " " + right == left + [' '] + right;
    NonEmptyConcat(Split(left, ' '), Split(right, ' '));
  }

  lemma {:induction false} WordAlone(word: string)
    requires ' ' !in word && word != []
    ensures WordsOf(word) == [word]
  {
    SplitPlain(word, ' ');
    assert NonEmpty([word]) == [word];
  }

  lemma {:induction false} NoWords()
    ensures WordsOf("") == []
  {
    assert Split("", ' ') == [""];
    assert [""][1..] == [];
  }

  lemma {:induction false} SkippedAreSpaces(s: string, pos: nat, c: char)
    requires pos <= |s|
    ensures forall i | pos <= i < SkipOver(s, pos, c) :: s[i] == c
    decreases |s| - pos
  {
    if pos < |s| && s[pos] == c {
      SkippedAreSpaces(s, pos + 1, c);
    }
  }

  /** Spaces in front of a word do not matter. */
  lemma {:induction false} PaddedWord(text: string, start: nat)
    requires start < |text| && (forall i | 0 <= i < start :: text[i] == ' ') && ' ' !in text[start..]
    ensures WordsOf(text) == [text[start..]]
    decreases start
  {
    if start == 0 {
      assert text[0..] == text;
      WordAlone(text);
    } else {
      assert text == "" + " " + text[1..] && text[1..][start - 1..] == text[start..];
      WordsConcat("", text[1..]);
      NoWords();
      PaddedWord(text[1..], start - 1);
    }
  }

  lemma {:induction false} OnlySpaces(text: string)
    requires forall i | 0 <= i < |text| :: text[i] == ' '
    ensures WordsOf(text) == []
    decreases |text|
  {
    NoWords();
    if text != [] {
      assert text == "" + " " + text[1..];
      WordsConcat("", text[1..]);
      OnlySpaces(text[1..]);
    }
  }

  lemma {:induction false} LastIsInWord(text: string)
    requires text != [] && text[|text| - 1] != ' '
    ensures WordsOf(text) != []
    decreases |text|
  {
    if text[0] == ' ' {
      LastIsInWord(text[1..]);
      assert Split(text, ' ')[1..] == Split(text[1..], ' ');
    }
  }

  lemma {:induction false} HasText(text: string)
    requires WordsOf(text) != []
    ensures |text| > 0
  {
    NoWords();
  }

  lemma {:induction false} FoundBy(s: string, pos: nat, c: char, f: nat)
    requires pos <= f < |s| && s[f] == c
    ensures FindNext(s, pos, c) <= f
    decreases f - pos
  {
    if s[pos] != c {
      FoundBy(s, pos + 1, c, f);
    }
  }

  /** Up to the separator in front of `pos`, the line holds exactly these words. */
  ghost predicate Consumed(s: string, pos: nat, words: seq<string>) {
    if words == [] then pos == 0
    else 2 <= pos <= |s| && s[pos - 1] == ' ' && s[pos - 2] != ' ' && WordsOf(s[..pos - 1]) == words
  }

  /** The words up to a later place are those consumed and those from pos on. */
  lemma {:induction false} WordsFrom(s: string, pos: nat, end: nat, words: seq<string>)
    requires pos <= end <= |s| && Consumed(s, pos, words)
    ensures WordsOf(s[..end]) == words + WordsOf(s[pos..end])
  {
    if words == [] {
      assert s[pos..end] == s[..end];
    } else {
      assert s[..end] == s[..pos - 1] + " " + s[pos..end];
      WordsConcat(s[..pos - 1], s[pos..end]);
    }
  }

  lemma {:induction false} TokenText(s: string, pos: nat, token: Token)
    requires pos <= |s| && NextToken(s, pos, ' ') == Some(token)
    ensures WordsOf(s[pos..token.end]) == [s[token.start..token.end]] && s[token.end - 1] != ' '
  {
    var text, start := s[pos..token.end], token.start - pos;
    SkippedAreSpaces(s, pos, ' ');
    assert text[start..] == s[token.start..token.end];
    PaddedWord(text, start);
    assert s[token.end - 1] in s[token.start..token.end];
  }

  lemma {:induction false} TokenIsWord(s: string, pos: nat, words: seq<string>, token: Token)
    requires pos <= |s| && Consumed(s, pos, words) && NextToken(s, pos, ' ') == Some(token)
    ensures WordsOf(s[..token.end]) == words + [s[token.start..token.end]]
    ensures token.end < |s| ==> Consumed(s, token.end + 1, words + [s[token.start..token.end]])
  {
    WordsFrom(s, pos, token.end, words);
    TokenText(s, pos, token);
  }

  /** With words left in front of the space at f, the next token is the first of them. */
  lemma {:induction false} WordIsNext(s: string, pos: nat, f: nat, words: seq<string>, more: seq<string>)
    returns (token: Token)
    requires pos <= f < |s| && f > 0 && s[f] == ' ' && s[f - 1] != ' '
    requires Consumed(s, pos, words) && WordsOf(s[..f]) == words + more && more != []
    ensures NextToken(s, pos, ' ') == Some(token) && token.end <= f
    ensures s[token.start..token.end] == more[0] && Consumed(s, token.end + 1, words + [more[0]])
    ensures token.end == f <==> |more| == 1
  {
    WordsFrom(s, pos, f, words);
    SameFront(words, more, WordsOf(s[pos..f]));
    HasText(s[pos..f]);
    SkippedAreSpaces(s, pos, ' ');
    token := NextToken(s, pos, ' ').value;
    FoundBy(s, token.start, ' ', f);
    TokenIsWord(s, pos, words, token);
    var word := s[token.start..token.end];
    if token.end == f {
      SameFront(words, more, [word]);
    } else {
      TokenIsFirst(s, token.end, f, words, word, more);
    }
  }

  lemma {:induction false} TokenIsFirst(s: string, end: nat, f: nat, words: seq<string>, word: string,
                                        more: seq<string>)
    requires end < f < |s| && s[end] == ' ' && s[f - 1] != ' '
    requires WordsOf(s[..end]) == words + [word] && WordsOf(s[..f]) == words + more
    ensures |more| > 1 && more[0] == word
  {
    var rest := s[end + 1..f];
    WordsAfter(s, end, f);
    Associative(words, [word], WordsOf(rest));
    SameFront(words, more, [word] + WordsOf(rest));
  }

  lemma {:induction false} WordsAfter(s: string, end: nat, f: nat)
    requires end < f < |s| && s[end] == ' ' && s[f - 1] != ' '
    ensures WordsOf(s[..f]) == WordsOf(s[..end]) + WordsOf(s[end + 1..f]) && WordsOf(s[end + 1..f]) != []
  {
    var rest := s[end + 1..f];
    assert s[..f] == s[..end] + " " + rest;
    WordsConcat(s[..end], rest);
    assert rest[|rest| - 1] == s[f - 1];
    LastIsInWord(rest);
  }

  // ---------------------------------------------------------------------------
  // Fields

  lemma {:induction false} RecordsIff(entry: Entry, field: nat, start: nat, text: string)
    ensures Record(entry, field, start, text).Some? <==> field != FIELD_DEVICE || ':' in text
  {
    if field == FIELD_DEVICE {
      var p := FindNext(text, 0, ':');
      assert p == |text| ==> text[0..p] == text;
      assert p < |text| ==> text[p] in text;
    }
  }

  lemma {:induction false} SkipsOnly(s: string, pos: nat, c: char)
    requires pos <= |s|
    ensures NextToken(s, pos, c).Some? <==> NotAll(s[pos..], c)
  {
    SkippedAreSpaces(s, pos, c);
    var p := SkipOver(s, pos, c);
    if p < |s| {
      assert s[pos..][p - pos] != c;
    }
  }

  /** The field that is looked for at pos is there, and the search for the next one starts at `next`. */
  ghost predicate FieldAt(s: string, field: nat, pos: nat, next: nat) {
    && pos <= |s| && FieldToken(s, pos, field).Some?
    && var token := FieldToken(s, pos, field).value;
       && next == After(s, token)
       && (field == FIELD_DEVICE ==> ':' in s[token.start..token.end])
  }

  /** The fields from one on stand one behind the other, from the first of the places on. */
  ghost predicate Chain(s: string, field: nat, places: seq<nat>) {
    && |places| > 0 && field + |places| == FIELD_SUPER_OPTIONS + 2 && places[0] <= |s|
    && forall i | 0 <= i < |places| - 1 :: FieldAt(s, field + i, places[i], places[i + 1])
  }

  lemma {:induction false} ParseNext(s: string, field: nat, pos: nat, entry: Entry, token: Token, recorded: Entry)
    requires field <= FIELD_SUPER_OPTIONS && pos <= |s| && FieldToken(s, pos, field) == Some(token)
    requires Record(entry, field, token.start, s[token.start..token.end]) == Some(recorded)
    ensures ParseFrom(s, field, pos, entry) == ParseFrom(s, field + 1, After(s, token), recorded)
  {
  }

  lemma {:induction false} ParsedIsChain(s: string, field: nat, pos: nat, entry: Entry) returns (places: seq<nat>)
    requires field <= FIELD_SUPER_OPTIONS + 1 && pos <= |s| && ParseFrom(s, field, pos, entry).Some?
    ensures Chain(s, field, places) && places[0] == pos
    decreases FIELD_SUPER_OPTIONS + 1 - field
  {
    places := [pos];
    if field <= FIELD_SUPER_OPTIONS {
      var token := FieldToken(s, pos, field).value;
      var text := s[token.start..token.end];
      RecordsIff(entry, field, token.start, text);
      var recorded := Record(entry, field, token.start, text).value;
      ParseNext(s, field, pos, entry, token, recorded);
      var later := ParsedIsChain(s, field + 1, After(s, token), recorded);
      places := [pos] + later;
      ChainFront(s, field, pos, later);
    }
  }

  lemma {:induction false} ChainFront(s: string, field: nat, pos: nat, later: seq<nat>)
    requires Chain(s, field + 1, later) && FieldAt(s, field, pos, later[0])
    ensures Chain(s, field, [pos] + later)
  {
    var places := [pos] + later;
    forall i | 0 <= i < |places| - 1 ensures FieldAt(s, field + i, places[i], places[i + 1]) {
      assert i > 0 ==> FieldAt(s, field + 1 + (i - 1), later[i - 1], later[i - 1 + 1]);
    }
  }

  lemma {:induction false} ChainTail(s: string, field: nat, places: seq<nat>)
    requires Chain(s, field, places) && |places| > 1
    ensures FieldAt(s, field, places[0], places[1]) && Chain(s, field + 1, places[1..])
  {
    assert FieldAt(s, field + 0, places[0], places[0 + 1]);
    forall i | 0 <= i < |places| - 2 ensures FieldAt(s, field + 1 + i, places[1..][i], places[1..][i + 1]) {
      assert FieldAt(s, field + (i + 1), places[i + 1], places[i + 1 + 1]);
    }
  }

  lemma {:induction false} ChainIsParsed(s: string, field: nat, places: seq<nat>, entry: Entry)
    requires Chain(s, field, places)
    ensures ParseFrom(s, field, places[0], entry).Some?
    decreases |places|
  {
    if |places| > 1 {
      ChainTail(s, field, places);
      var token := FieldToken(s, places[0], field).value;
      var text := s[token.start..token.end];
      RecordsIff(entry, field, token.start, text);
      var recorded := Record(entry, field, token.start, text).value;
      ParseNext(s, field, places[0], entry, token, recorded);
      ChainIsParsed(s, field + 1, places[1..], recorded);
    }
  }

  /** Nothing is found at the end of the line. */
  lemma {:induction false} FieldIsInside(s: string, field: nat, pos: nat, next: nat)
    requires FieldAt(s, field, pos, next)
    ensures pos < |s|
  {
  }

  lemma {:induction false} LastFieldIff(s: string, pos: nat)
    requires pos <= |s|
    ensures FieldToken(s, pos, FIELD_SUPER_OPTIONS).Some? <==> NotAll(s[pos..], '\n')
  {
    SkipsOnly(s, pos, '\n');
  }

  /** From pos on, the optional fields end at this hyphen. */
  ghost predicate SkipsTo(s: string, pos: nat, hyphen: Token) {
    pos <= |s| && NextToken(s, pos, ' ').Some? && SkipOptional(s, NextToken(s, pos, ' ').value) == Some(hyphen)
  }

  lemma {:induction false} SkipStep(s: string, pos: nat, token: Token, hyphen: Token)
    requires pos <= |s| && NextToken(s, pos, ' ') == Some(token) && token.end < |s|
    ensures SkipsTo(s, pos, hyphen) <==>
            if s[token.start..token.end] == "-" then hyphen == token else SkipsTo(s, token.end + 1, hyphen)
  {
  }

  /** Words of which none from the seventh on is a hyphen. */
  ghost predicate NoHyphen(words: seq<string>) {
    |words| >= 6 && ':' in words[2] && forall j | 6 <= j < |words| :: words[j] != "-"
  }

  lemma {:induction false} HyphenShapes(words: seq<string>)
    requires NoHyphen(words)
    ensures Shape(words + ["-"], 7, |words|)
  {
  }

  lemma {:induction false} MoreWords(words: seq<string>, word: string)
    requires NoHyphen(words) && word != "-"
    ensures NoHyphen(words + [word])
  {
  }

  /** The optional fields do not end in the last word of the line, unless that is the hyphen. */
  lemma {:induction false} SkipGoesOn(s: string, pos: nat, token: Token, hyphen: Token)
    requires SkipsTo(s, pos, hyphen) && NextToken(s, pos, ' ') == Some(token) && hyphen.end < |s|
    ensures token.end < |s|
  {
  }

  /** Skipping optional fields consumes words up to the first hyphen. */
  lemma {:induction false} SkipConsumes(s: string, pos: nat, words: seq<string>, hyphen: Token) returns (k: nat)
    requires pos <= |s| && Consumed(s, pos, words) && NoHyphen(words) && SkipsTo(s, pos, hyphen)
    requires hyphen.end < |s|
    ensures Consumed(s, hyphen.end + 1, WordsOf(s[..hyphen.end])) && Shape(WordsOf(s[..hyphen.end]), 7, k)
    decreases |s| - pos
  {
    var token := NextToken(s, pos, ' ').value;
    var word := s[token.start..token.end];
    SkipGoesOn(s, pos, token, hyphen);
    SkipStep(s, pos, token, hyphen);
    TokenIsWord(s, pos, words, token);
    if word == "-" {
      HyphenShapes(words);
      k := |words|;
    } else {
      MoreWords(words, word);
      k := SkipConsumes(s, token.end + 1, words + [word], hyphen);
    }
  }

  /** The words in front of the field have been consumed. */
  ghost predicate Reached(s: string, field: nat, pos: nat, k: nat) {
    && pos <= |s|
    && if pos == 0 then field == 0 && Shape([], field, k)
       else Consumed(s, pos, WordsOf(s[..pos - 1])) && WordsOf(s[..pos - 1]) != []
            && Shape(WordsOf(s[..pos - 1]), field, k)
  }

  ghost function WordsBefore(s: string, pos: nat): (words: seq<string>)
    requires pos <= |s|
  {
    if pos == 0 then [] else WordsOf(s[..pos - 1])
  }

  /** Reading one field consumes its words, unless it ends the line. */
  lemma {:induction false} FieldConsumes(s: string, field: nat, pos: nat, next: nat, k: nat) returns (k': nat)
    requires field < FIELD_SUPER_OPTIONS && Reached(s, field, pos, k) && FieldAt(s, field, pos, next) && next < |s|
    ensures Reached(s, field + 1, next, k')
  {
    var words, token := WordsBefore(s, pos), FieldToken(s, pos, field).value;
    k' := k;
    if field == FIELD_OPTIONAL_FIELDS {
      k' := SkipConsumes(s, pos, words, token);
    } else {
      TokenIsWord(s, pos, words, token);
    }
    assert s[..token.end + 1 - 1] == s[..token.end];
  }

  lemma {:induction false} ChainAt(s: string, places: seq<nat>, field: nat)
    requires Chain(s, FIELD_ID, places) && field <= FIELD_SUPER_OPTIONS
    ensures FieldAt(s, field, places[field], places[field + 1]) && places[field] < |s|
  {
    assert FieldAt(s, FIELD_ID + field, places[field], places[field + 1]);
    FieldIsInside(s, field, places[field], places[field + 1]);
  }

  lemma {:induction false} ChainReaches(s: string, places: seq<nat>, field: nat) returns (k: nat)
    requires Chain(s, FIELD_ID, places) && places[0] == 0 && field <= FIELD_SUPER_OPTIONS
    ensures Reached(s, field, places[field], k)
  {
    k := 0;
    if field > 0 {
      var before := ChainReaches(s, places, field - 1);
      ChainAt(s, places, field - 1);
      ChainAt(s, places, field);
      k := FieldConsumes(s, field - 1, places[field - 1], places[field], before);
    }
  }

  lemma {:induction false} EndIsDivided(s: string, pos: nat, next: nat, k: nat)
    requires Reached(s, FIELD_SUPER_OPTIONS, pos, k) && FieldAt(s, FIELD_SUPER_OPTIONS, pos, next)
    ensures pos > 0 && DividedAt(s, pos - 1, k)
  {
    LastFieldIff(s, pos);
  }

  /** The words in front of the space at f are these. */
  ghost predicate InFront(s: string, f: nat, all: seq<string>) {
    0 < f < |s| && s[f] == ' ' && s[f - 1] != ' ' && WordsOf(s[..f]) == all
  }

  /** Of these words, those before number n are consumed. */
  ghost predicate OnTheWay(s: string, f: nat, all: seq<string>, n: nat, pos: nat) {
    n <= |all| && if n == |all| then pos == f + 1 else pos <= f <= |s| && Consumed(s, pos, all[..n])
  }

  lemma {:induction false} NextOnTheWay(s: string, f: nat, all: seq<string>, n: nat, pos: nat) returns (token: Token)
    requires InFront(s, f, all) && OnTheWay(s, f, all, n, pos) && n < |all|
    ensures NextToken(s, pos, ' ') == Some(token) && token.end < |s|
    ensures s[token.start..token.end] == all[n] && OnTheWay(s, f, all, n + 1, token.end + 1)
  {
    assert all[..n] + all[n..] == all && all[..n] + [all[n]] == all[..n + 1];
    token := WordIsNext(s, pos, f, all[..n], all[n..]);
  }

  ghost predicate FirstHyphen(all: seq<string>, n: nat, k: nat) {
    n <= k < |all| && all[k] == "-" && forall j | n <= j < k :: all[j] != "-"
  }

  lemma {:induction false} SkipOnTheWay(s: string, f: nat, all: seq<string>, k: nat, n: nat, pos: nat)
    returns (hyphen: Token)
    requires InFront(s, f, all) && OnTheWay(s, f, all, n, pos) && FirstHyphen(all, n, k)
    ensures SkipsTo(s, pos, hyphen) && hyphen.end < |s| && OnTheWay(s, f, all, k + 1, hyphen.end + 1)
    decreases k - n
  {
    hyphen := NextOnTheWay(s, f, all, n, pos);
    var token := hyphen;
    if n < k {
      hyphen := SkipOnTheWay(s, f, all, k, n + 1, token.end + 1);
    }
    SkipStep(s, pos, token, hyphen);
  }

  /** Where the words of a field start. */
  function FirstWord(field: nat, k: nat): (n: nat) {
    if field <= 6 then field else k + field - 6
  }

  lemma {:induction false} FieldOnTheWay(s: string, f: nat, all: seq<string>, k: nat, field: nat, pos: nat)
    returns (next: nat)
    requires field < FIELD_SUPER_OPTIONS && InFront(s, f, all) && Shape(all, FIELD_SUPER_OPTIONS, k)
    requires OnTheWay(s, f, all, FirstWord(field, k), pos)
    ensures FieldAt(s, field, pos, next) && OnTheWay(s, f, all, FirstWord(field + 1, k), next) && next <= |s|
  {
    if field == FIELD_OPTIONAL_FIELDS {
      var hyphen := SkipOnTheWay(s, f, all, k, 6, pos);
      next := hyphen.end + 1;
    } else {
      var token := NextOnTheWay(s, f, all, FirstWord(field, k), pos);
      next := token.end + 1;
    }
  }

  lemma {:induction false} EndOnTheWay(s: string, f: nat, k: nat) returns (next: nat)
    requires DividedAt(s, f, k)
    ensures FieldAt(s, FIELD_SUPER_OPTIONS, f + 1, next) && next <= |s|
  {
    LastFieldIff(s, f + 1);
    next := After(s, FieldToken(s, f + 1, FIELD_SUPER_OPTIONS).value);
  }

  /** The fields of a divided line stand one behind the other. */
  lemma {:induction false} DividedIsChain(s: string, f: nat, all: seq<string>, k: nat, field: nat, pos: nat)
    returns (places: seq<nat>)
    requires field <= FIELD_SUPER_OPTIONS && InFront(s, f, all) && DividedAt(s, f, k) && pos <= |s|
    requires OnTheWay(s, f, all, FirstWord(field, k), pos)
    ensures Chain(s, field, places) && places[0] == pos
    decreases FIELD_SUPER_OPTIONS - field
  {
    var next, later;
    if field == FIELD_SUPER_OPTIONS {
      next := EndOnTheWay(s, f, k);
      later := [next];
    } else {
      next := FieldOnTheWay(s, f, all, k, field, pos);
      later := DividedIsChain(s, f, all, k, field + 1, next);
    }
    places := [pos] + later;
    ChainFront(s, field, pos, later);
  }

  /** A line parses exactly if it is divided: nothing else is accepted, and nothing else rejected. */
  lemma {:induction false} ParsesIff(line: string)
    ensures ParseLine(line).Some? <==> exists f, k :: DividedAt(line, f, k)
  {
    if ParseLine(line).Some? {
      var places := ParsedIsChain(line, FIELD_ID, 0, BLANK);
      var k := ChainReaches(line, places, FIELD_SUPER_OPTIONS);
      ChainAt(line, places, FIELD_SUPER_OPTIONS);
      EndIsDivided(line, places[9], places[10], k);
    }
    if f: nat, k: nat :| DividedAt(line, f, k) {
      var all := WordsOf(line[..f]);
      assert all[..0] == [];
      var places := DividedIsChain(line, f, all, k, FIELD_ID, 0);
      ChainIsParsed(line, FIELD_ID, places, BLANK);
    }
  }
}
