/**
  What CollapsePath guarantees about every path it accepts, and exactly when it agrees
  with linux_real_path.
 */
module PathAgreement {
  import opened Segments
  import opened CollapsePath

  // ---------------------------------------------------------------------------
  // When a run of segments climbs above its start

  /** How many more ".." than other segments there are among the first n. */
  function Climb(segments: seq<string>, n: nat): (climb: int)
    requires n <= |segments|
  {
    if n == 0 then 0
    else (if IsDotDot(segments[0]) then 1 else -1) + Climb(segments[1..], n - 1)
  }

  /** Some prefix climbs at least the given height. */
  ghost predicate ClimbsTo(segments: seq<string>, height: int) {
    exists n | 0 <= n <= |segments| :: Climb(segments, n) >= height
  }

  /** Some prefix holds more ".." than other segments. */
  ghost predicate Overdrawn(segments: seq<string>) {
    ClimbsTo(segments, 1)
  }

  lemma {:induction false} ClimbStep(segments: seq<string>, height: int)
    requires segments != [] && height > 0
    ensures ClimbsTo(segments, height) <==>
            if IsDotDot(segments[0]) then height == 1 || ClimbsTo(segments[1..], height - 1)
            else ClimbsTo(segments[1..], height + 1)
  {
    var rest := segments[1..];
    var step := if IsDotDot(segments[0]) then 1 else -1;
    if ClimbsTo(rest, height - step) {
      var n :| 0 <= n <= |rest| && Climb(rest, n) >= height - step;
      assert Climb(segments, n + 1) == step + Climb(rest, n);
    }
    if ClimbsTo(segments, height) {
      var n :| 0 <= n <= |segments| && Climb(segments, n) >= height;
      assert Climb(segments, n) == step + Climb(rest, n - 1);
    }
    if height == 1 && step == 1 {
      assert Climb(segments, 1) == 1 + Climb(rest, 0);
    }
  }

  lemma {:induction false} DebtIsLargestClimb(segments: seq<string>, owed: nat)
    requires owed > 0
    ensures Sweep(segments).debt >= owed <==> ClimbsTo(segments, owed)
  {
    if segments != [] {
      ClimbStep(segments, owed);
      if IsDotDot(segments[0]) {
        if owed > 1 {
          DebtIsLargestClimb(segments[1..], owed - 1);
        }
      } else {
        DebtIsLargestClimb(segments[1..], owed + 1);
      }
    }
  }

  /** CollapsePath fails exactly on a path that climbs above its first piece. */
  lemma {:induction false} FailsIffOverdrawn(path: string, sep: char)
    ensures Collapse(path, sep).Invalid? <==> Overdrawn(Split(path, sep)[1..])
  {
    DebtIsLargestClimb(Split(path, sep)[1..], 1);
  }

  // ---------------------------------------------------------------------------
  // The collapsed path is a normal form

  ghost predicate IsName(segment: string, sep: char) {
    !IsDotDot(segment) && !IsNoise(segment) && Plain(segment, sep)
  }

  ghost predicate AllNames(segments: seq<string>, sep: char) {
    forall segment | segment in segments :: IsName(segment, sep)
  }

  lemma {:induction false} KeptAreNames(segments: seq<string>, sep: char)
    requires forall segment | segment in segments :: Plain(segment, sep)
    ensures AllNames(Sweep(segments).kept, sep)
  {
    if segments != [] {
      KeptAreNames(segments[1..], sep);
      assert segments[0] in segments;
    }
  }

  function Tail(endsInName: bool): (pieces: seq<string>) {
    if endsInName then [] else [""]
  }

  lemma {:induction false} SplitRender(kept: seq<string>, endsInName: bool, sep: char)
    requires endsInName ==> kept != []
    requires AllNames(kept, sep)
    ensures Split(Render(kept, endsInName, sep), sep) == kept + Tail(endsInName)
  {
    if kept != [] {
      assert kept[0] in kept;
      SplitPlain(kept[0], sep);
      if !(|kept| == 1 && endsInName) {
        SplitRender(kept[1..], endsInName, sep);
        SplitAtSeparator(kept[0], sep, Render(kept[1..], endsInName, sep));
        assert [kept[0]] + (kept[1..] + Tail(endsInName)) == kept + Tail(endsInName);
      } else {
        assert kept + Tail(endsInName) == [kept[0]];
      }
    }
  }

  lemma {:induction false} SweepNames(kept: seq<string>, endsInName: bool, sep: char)
    requires endsInName ==> kept != []
    requires AllNames(kept, sep)
    ensures Sweep(kept + Tail(endsInName)) == Swept(0, kept, endsInName)
  {
    var segments := kept + Tail(endsInName);
    if kept == [] {
      assert segments == [""];
    } else {
      assert kept[0] in kept && segments[0] == kept[0];
      assert segments[1..] == kept[1..] + Tail(endsInName);
      if |kept| == 1 && endsInName {
        assert segments[1..] == [];
      } else {
        SweepNames(kept[1..], endsInName, sep);
      }
      assert [kept[0]] + kept[1..] == kept;
    }
  }

  /** The pieces of a successful result: the untouched head, then names only, then at most
      one empty piece after a trailing separator. */
  lemma {:induction false} CollapsedPieces(path: string, sep: char)
    requires Collapse(path, sep).Collapsed?
    ensures var pieces := Split(Collapse(path, sep).path, sep);
            && |pieces| == 1 <==> |Split(path, sep)| == 1
    ensures var before := Split(path, sep);
            var after := Split(Collapse(path, sep).path, sep);
            var swept := Sweep(before[1..]);
            |before| > 1 ==> after == [before[0]] + swept.kept + Tail(swept.endsInName) && AllNames(swept.kept, sep)
  {
    var before := Split(path, sep);
    if |before| > 1 {
      var swept := Sweep(before[1..]);
      SplitPiecesPlain(path, sep);
      KeptAreNames(before[1..], sep);
      SplitRender(swept.kept, swept.endsInName, sep);
      SplitPlain(before[0], sep);
      SplitAtSeparator(before[0], sep, Render(swept.kept, swept.endsInName, sep));
    }
  }

  /** No ".", ".." or interior empty segment survives after the first separator. */
  lemma {:induction false} NoDotSegmentsLeft(path: string, sep: char, i: nat)
    requires Collapse(path, sep).Collapsed?
    requires 0 < i < |Split(Collapse(path, sep).path, sep)|
    ensures var pieces := Split(Collapse(path, sep).path, sep);
            IsName(pieces[i], sep) || (i == |pieces| - 1 && pieces[i] == "")
  {
    CollapsedPieces(path, sep);
    var swept := Sweep(Split(path, sep)[1..]);
    var pieces := Split(Collapse(path, sep).path, sep);
    if i - 1 < |swept.kept| {
      assert pieces[i] == swept.kept[i - 1];
    }
  }

  lemma {:induction false} CollapseIsIdempotent(path: string, sep: char)
    requires Collapse(path, sep).Collapsed?
    ensures Collapse(Collapse(path, sep).path, sep) == Collapse(path, sep)
  {
    CollapsedPieces(path, sep);
    var before := Split(path, sep);
    if |before| > 1 {
      var swept := Sweep(before[1..]);
      SweepNames(swept.kept, swept.endsInName, sep);
      var after := Split(Collapse(path, sep).path, sep);
      assert after[1..] == swept.kept + Tail(swept.endsInName);
    }
  }

  // ---------------------------------------------------------------------------
  // The forward normaliser

  /** The stack linux_real_path holds after the components, from the stack it had before them. */
  function Forward(components: seq<string>, stack: seq<string>): (result: seq<string>)
  {
    if components == [] then stack
    else if IsNoise(components[0]) then Forward(components[1..], stack)
    else if IsDotDot(components[0]) then
      Forward(components[1..], if stack == [] then [] else stack[..|stack| - 1])
    else Forward(components[1..], stack + [components[0]])
  }

  /** Some ".." finds the stack empty, starting from the given depth. */
  predicate Underflows(components: seq<string>, depth: nat) {
    components != [] &&
    if IsNoise(components[0]) then Underflows(components[1..], depth)
    else if IsDotDot(components[0]) then depth == 0 || Underflows(components[1..], depth - 1)
    else Underflows(components[1..], depth + 1)
  }

  function RealPath(path: string): (realPath: string) {
    var joined := Join(Forward(Split(path, '/'), []), '/');
    if path != [] && path[0] == '/' then ['/'] + joined else joined
  }

  method LinuxRealPath(path: string) returns (realPath: string)
    ensures realPath == RealPath(path)
  {
    var components := Split(path, '/');
    var result: seq<string> := [];
    for i := 0 to |components|
      invariant Forward(components[i..], result) == Forward(components, [])
    {
      var e := components[i];
      assert components[i..][1..] == components[i + 1..];
      if e == "." || e == "" {
        continue;
      } else if e == ".." {
        if result != [] {
          result := result[..|result| - 1];
        }
        continue;
      }
      result := result + [e];
    }
    realPath := Join(result, '/');
    if path != [] && path[0] == '/' {
      realPath := ['/'] + realPath;
    }
  }

  lemma {:induction false} ForwardKeepsNames(components: seq<string>, stack: seq<string>, sep: char)
    requires AllNames(stack, sep) && forall c | c in components :: Plain(c, sep)
    ensures AllNames(Forward(components, stack), sep)
  {
    if components != [] {
      var c := components[0];
      assert c in components;
      ForwardKeepsNames(components[1..],
                        if IsNoise(c) then stack
                        else if IsDotDot(c) then (if stack == [] then [] else stack[..|stack| - 1])
                        else stack + [c], sep);
    }
  }

  lemma {:induction false} ForwardOverNames(names: seq<string>, stack: seq<string>, sep: char)
    requires AllNames(names, sep)
    ensures Forward(names, stack) == stack + names
  {
    if names != [] {
      assert names[0] in names;
      ForwardOverNames(names[1..], stack + [names[0]], sep);
      assert stack + [names[0]] + names[1..] == stack + names;
    }
  }

  lemma {:induction false} ForwardSkipsNoise(components: seq<string>)
    requires components != [] && IsNoise(components[0])
    ensures Forward(components, []) == Forward(components[1..], [])
  {
  }

  /** The pieces of a path made of names. */
  lemma {:induction false} SplitNames(names: seq<string>, absolute: bool)
    requires AllNames(names, '/')
    ensures var path := (if absolute then "/" else "") + Join(names, '/');
            && Forward(Split(path, '/'), []) == names
            && (Absolute(path) <==> absolute)
  {
    var joined := Join(names, '/');
    if names == [] {
      assert Split(joined, '/') == [""];
    } else {
      assert names[0] in names;
      SplitJoin(names, '/');
    }
    assert [""][1..] == [];
    ForwardOverNames(names, [], '/');
    if absolute {
      SplitAtSeparator("", '/', joined);
      assert "" + ['/'] + joined == "/" + joined;
      assert ([""] + Split(joined, '/'))[1..] == Split(joined, '/');
      ForwardSkipsNoise([""] + Split(joined, '/'));
    } else {
      assert "" + joined == joined;
    }
  }

  /** The forward normaliser keeps a path absolute or relative, leaves names only, and changes nothing when it
      is applied again. */
  lemma {:induction false} RealPathIsNormal(path: string)
    ensures Absolute(RealPath(path)) <==> Absolute(path)
    ensures AllNames(Forward(Split(RealPath(path), '/'), []), '/')
    ensures RealPath(RealPath(path)) == RealPath(path)
  {
    var names := Forward(Split(path, '/'), []);
    SplitPiecesPlain(path, '/');
    ForwardKeepsNames(Split(path, '/'), [], '/');
    SplitNames(names, Absolute(path));
    assert RealPath(path) == (if Absolute(path) then "/" else "") + Join(names, '/');
  }

  /** The backward sweep that would match the forward stack: noise never pays a debt. */
  function FairSweep(segments: seq<string>): (swept: (nat, seq<string>)) {
    if segments == [] then (0, [])
    else
      var later := FairSweep(segments[1..]);
      if IsDotDot(segments[0]) then (later.0 + 1, later.1)
      else if IsNoise(segments[0]) then later
      else if later.0 > 0 then (later.0 - 1, later.1)
      else (0, [segments[0]] + later.1)
  }

  lemma {:induction false} ForwardIsFairSweep(segments: seq<string>, stack: seq<string>)
    ensures var (debt, kept) := FairSweep(segments);
            && Forward(segments, stack) == stack[..if debt < |stack| then |stack| - debt else 0] + kept
            && (Underflows(segments, |stack|) <==> debt > |stack|)
  {
    var (debt, kept) := FairSweep(segments);
    if segments == [] {
      assert stack[..|stack|] == stack;
    } else {
      var rest := segments[1..];
      var (debt', kept') := FairSweep(rest);
      if IsDotDot(segments[0]) {
        var popped := if stack == [] then [] else stack[..|stack| - 1];
        ForwardIsFairSweep(rest, popped);
      } else if IsNoise(segments[0]) {
        ForwardIsFairSweep(rest, stack);
      } else {
        var pushed := stack + [segments[0]];
        ForwardIsFairSweep(rest, pushed);
        if debt' == 0 {
          assert pushed[..|pushed|] + kept' == stack[..|stack|] + kept;
        }
      }
    }
  }

  // ---------------------------------------------------------------------------
  // Where the two normalisers agree

  /** Some "." or empty segment stands where a ".." further right will take it for a name. */
  ghost predicate Swallows(segments: seq<string>) {
    exists i | 0 <= i < |segments| :: IsNoise(segments[i]) && Overdrawn(segments[i + 1..])
  }

  lemma {:induction false} SwallowStep(segments: seq<string>)
    requires segments != []
    ensures Swallows(segments) <==>
            Swallows(segments[1..]) || (IsNoise(segments[0]) && Sweep(segments[1..]).debt > 0)
  {
    var rest := segments[1..];
    DebtIsLargestClimb(rest, 1);
    if Swallows(rest) {
      var i :| 0 <= i < |rest| && IsNoise(rest[i]) && Overdrawn(rest[i + 1..]);
      assert segments[i + 1] == rest[i] && segments[i + 2..] == rest[i + 1..];
    }
    if Swallows(segments) {
      var i :| 0 <= i < |segments| && IsNoise(segments[i]) && Overdrawn(segments[i + 1..]);
      if i > 0 {
        assert segments[i] == rest[i - 1] && segments[i + 1..] == rest[i..];
      }
    }
  }

  ghost predicate Balanced(swept: Swept, fair: (nat, seq<string>), swallows: bool) {
    && swept.debt <= fair.0
    && |swept.kept| - swept.debt >= |fair.1| - fair.0
    && (swallows ==> |swept.kept| - swept.debt > |fair.1| - fair.0)
    && (!swallows ==> swept.debt == fair.0 && swept.kept == fair.1)
  }

  lemma {:induction false} BalanceStep(segments: seq<string>, swallowed: bool, swallows: bool)
    requires segments != [] && Balanced(Sweep(segments[1..]), FairSweep(segments[1..]), swallowed)
    requires swallows <==> swallowed || (IsNoise(segments[0]) && Sweep(segments[1..]).debt > 0)
    ensures Balanced(Sweep(segments), FairSweep(segments), swallows)
  {
  }

  /** Each swallowed segment leaves one name too many or one debt too few. */
  lemma {:induction false} SweepBalance(segments: seq<string>)
    ensures Balanced(Sweep(segments), FairSweep(segments), Swallows(segments))
  {
    if segments != [] {
      SweepBalance(segments[1..]);
      SwallowStep(segments);
      BalanceStep(segments, Swallows(segments[1..]), Swallows(segments));
    }
  }

  lemma {:induction false} RenderIsJoin(kept: seq<string>, endsInName: bool, sep: char)
    requires endsInName ==> kept != []
    ensures Render(kept, endsInName, sep) == Join(kept, sep) + (if kept == [] || endsInName then [] else [sep])
  {
    if |kept| > 1 {
      RenderIsJoin(kept[1..], endsInName, sep);
    }
  }

  ghost predicate SameUpToTrailing(path: string, other: string) {
    path == other || path == other + ['/']
  }

  /** Both reject, or both accept and name the same file. */
  ghost predicate Agree(path: string) {
    && (Collapse(path, '/').Invalid? <==> Underflows(Split(path, '/')[1..], 0))
    && (Collapse(path, '/').Collapsed? ==> SameUpToTrailing(Collapse(path, '/').path, RealPath(path)))
  }

  ghost predicate Absolute(path: string) {
    path != [] && path[0] == '/'
  }

  lemma {:induction false} AbsoluteShape(path: string)
    requires Absolute(path)
    ensures |Split(path, '/')| > 1 && Split(path, '/')[0] == ""
    ensures RealPath(path) == ['/'] + Join(FairSweep(Split(path, '/')[1..]).1, '/')
    ensures Underflows(Split(path, '/')[1..], 0) <==> FairSweep(Split(path, '/')[1..]).0 > 0
  {
    var pieces := Split(path, '/');
    assert pieces == [""] + Split(path[1..], '/');
    ForwardIsFairSweep(pieces[1..], []);
    var empty: seq<string> := [];
    assert empty[..0] + FairSweep(pieces[1..]).1 == FairSweep(pieces[1..]).1;
  }

  lemma {:induction false} PiecesDiffer(kept: seq<string>, endsInName: bool, fewer: seq<string>)
    requires AllNames(kept, '/') && |kept| > |fewer|
    ensures var pieces := if fewer == [] then [""] else fewer;
            kept + Tail(endsInName) != pieces && kept + Tail(endsInName) != pieces + [""]
  {
    var pieces := if fewer == [] then [""] else fewer;
    var all := kept + Tail(endsInName);
    assert kept[0] in kept && all[0] == kept[0];
    assert kept[|kept| - 1] in kept && all[|kept| - 1] == kept[|kept| - 1];
    if fewer != [] && |all| == |pieces + [""]| {
      assert endsInName && (pieces + [""])[|kept| - 1] == "";
    }
  }

  lemma {:induction false} SplitTrailing(path: string)
    ensures Split(path + ['/'], '/') == Split(path, '/') + [""]
  {
    SplitAtSeparator(path, '/', []);
    assert path + ['/'] + [] == path + ['/'];
  }

  /** Paths that keep different numbers of names are different, trailing separator or not. */
  lemma {:induction false} MoreNamesDiffer(kept: seq<string>, endsInName: bool, fewer: seq<string>)
    requires endsInName ==> kept != []
    requires AllNames(kept, '/') && AllNames(fewer, '/')
    requires |kept| > |fewer|
    ensures !SameUpToTrailing(['/'] + Render(kept, endsInName, '/'), ['/'] + Join(fewer, '/'))
  {
    var text, joined := Render(kept, endsInName, '/'), Join(fewer, '/');
    SplitRender(kept, endsInName, '/');
    if fewer != [] {
      SplitJoin(fewer, '/');
    }
    SplitTrailing(joined);
    PiecesDiffer(kept, endsInName, fewer);
    assert (['/'] + text)[1..] == text && (['/'] + joined)[1..] == joined;
    assert (['/'] + joined + ['/'])[1..] == joined + ['/'];
  }

  lemma {:induction false} FairNames(segments: seq<string>, sep: char)
    requires forall segment | segment in segments :: Plain(segment, sep)
    ensures AllNames(FairSweep(segments).1, sep)
  {
    if segments != [] {
      FairNames(segments[1..], sep);
      assert segments[0] in segments;
    }
  }

  /** On absolute paths the two agree exactly when no "." or empty segment is swallowed by a
      later "..", unless the path climbs above the root, which both reject. */
  lemma {:induction false} AgreementIsExact(path: string)
    requires Absolute(path)
    ensures Agree(path) <==> !Swallows(Split(path, '/')[1..]) || Overdrawn(Split(path, '/')[1..])
  {
    var segments := Split(path, '/')[1..];
    var swept := Sweep(segments);
    var (debt, kept) := FairSweep(segments);
    AbsoluteShape(path);
    FailsIffOverdrawn(path, '/');
    SweepBalance(segments);
    assert Collapse(path, '/').Collapsed? ==>
        Collapse(path, '/').path == ['/'] + Render(swept.kept, swept.endsInName, '/');
    if !Swallows(segments) {
      RenderIsJoin(kept, swept.endsInName, '/');
    } else if !Overdrawn(segments) && debt == 0 {
      SplitPiecesPlain(path, '/');
      KeptAreNames(segments, '/');
      FairNames(segments, '/');
      MoreNamesDiffer(swept.kept, swept.endsInName, kept);
    }
  }

  lemma {:induction false} SwallowedDotSegments(segments: seq<string>)
    requires segments == ["a", ".", ".."]
    ensures Sweep(segments) == Swept(0, ["a"], false) && Swallows(segments)
  {
    var later := segments[1..];
    assert later[1..] == [".."] && segments[2..] == [".."];
    assert Sweep(later[1..]).debt == 1;
    assert Sweep(later) == Swept(0, [], false);
    DebtIsLargestClimb(segments[2..], 1);
    assert IsNoise(segments[1]);
  }

  lemma {:induction false} SwallowedDotPieces(path: string)
    requires path == "/a/./.."
    ensures Split(path, '/') == ["", "a", ".", ".."]
  {
    var pieces := ["", "a", ".", ".."];
    assert pieces[1..][1..] == [".", ".."] && pieces[1..][1..][1..] == [".."];
    assert Join(pieces, '/') == path;
    SplitJoin(pieces, '/');
  }

  /** The promise fails on a short path: the "." pays for the "..", so the name stays. */
  lemma {:induction false} SwallowedDotExample(path: string)
    requires path == "/a/./.."
    ensures Collapse(path, '/') == Collapsed("/a/") && !Agree(path)
  {
    SwallowedDotPieces(path);
    SwallowedDotSegments(Split(path, '/')[1..]);
    AgreementIsExact(path);
    FailsIffOverdrawn(path, '/');
  }
}
