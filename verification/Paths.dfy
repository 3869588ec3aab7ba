/** Client-supplied paths: how they are cleaned before they touch the file system,
    and what the cleaned path means. Unix rules: `/` separates components. */
module Paths {
  import opened Options

  datatype PathError = NullByte | AbsolutePath | Traversal | EmptyPath

  datatype Result = Accepted(names: seq<string>) | Rejected(error: PathError)

  // ---- Components -----------------------------------------------------------------

  /** The pieces between separators. */
  function SplitOn(raw: string, separators: set<char>): (r: seq<string>)
    ensures |r| > 0
    ensures forall i, c | 0 <= i < |r| && c in separators :: c !in r[i]
    ensures forall i, c | 0 <= i < |r| && c in r[i] :: c in raw
  {
    if raw == [] then [[]]
    else
      assert raw == [raw[0]] + raw[1..];
      var r := SplitOn(raw[1..], separators);
      if raw[0] in separators then [[]] + r else [[raw[0]] + r[0]] + r[1..]
  }

  /** Empty pieces and `.` do not move. */
  function Moves(pieces: seq<string>): (r: seq<string>)
    ensures forall i | 0 <= i < |r| :: r[i] != "" && r[i] != "." && r[i] in pieces
  {
    if pieces == [] then []
    else (if pieces[0] == "" || pieces[0] == "." then [] else [pieces[0]]) + Moves(pieces[1..])
  }

  /** The components of a relative path that move: names and `..`. */
  function Components(raw: string): seq<string> {
    Moves(SplitOn(raw, {'/'}))
  }

  predicate IsAbsolute(raw: string) {
    raw != [] && raw[0] == '/'
  }

  // ---- The sanitiser ---------------------------------------------------------------

  /** The stack walk over the components; `None` when `..` finds the stack empty. */
  function Walk(stack: seq<string>, comps: seq<string>): Option<seq<string>>
    decreases |comps|
  {
    if comps == [] then Some(stack)
    else if comps[0] != ".." then Walk(stack + [comps[0]], comps[1..])
    else if stack == [] then None
    else Walk(stack[..|stack| - 1], comps[1..])
  }

  function Sanitized(raw: string): Result {
    if '\0' in raw then Rejected(NullByte)
    else if IsAbsolute(raw) then Rejected(AbsolutePath)
    else
      match Walk([], Components(raw))
      case None => Rejected(Traversal)
      case Some(names) => if names == [] then Rejected(EmptyPath) else Accepted(names)
  }

  method SanitizeRemotePath(raw: string) returns (r: Result)
    ensures r == Sanitized(raw)
  {
    if '\0' in raw {
      return Rejected(NullByte);
    }
    if IsAbsolute(raw) {
      return Rejected(AbsolutePath);
    }
    var comps := Components(raw);
    var sanitized: seq<string> := [];
    ghost var walk := Walk([], comps);
    assert comps[0..] == comps;
    for i := 0 to |comps|
      invariant walk == Walk(sanitized, comps[i..])
    {
      var component := comps[i];
      WalkStep(sanitized, comps, i);
      if component != ".." {
        sanitized := sanitized + [component];
      } else {
        if sanitized == [] {
          return Rejected(Traversal);
        }
        sanitized := sanitized[..|sanitized| - 1];
      }
    }
    if sanitized == [] {
      return Rejected(EmptyPath);
    }
    return Accepted(sanitized);
  }

  lemma WalkStep(stack: seq<string>, comps: seq<string>, i: nat)
    requires i < |comps|
    ensures Walk(stack, comps[i..]) ==
            if comps[i] != ".." then Walk(stack + [comps[i]], comps[i + 1..])
            else if stack == [] then None
            else Walk(stack[..|stack| - 1], comps[i + 1..])
  {
    assert comps[i..][1..] == comps[i + 1..];
  }

  // ---- Lexical resolution, the reference -------------------------------------------------

  /** Where a walk from `dir` ends up; `..` at the root stays there. */
  function Resolve(dir: seq<string>, comps: seq<string>): seq<string>
    decreases |comps|
  {
    if comps == [] then dir
    else if comps[0] != ".." then Resolve(dir + [comps[0]], comps[1..])
    else Resolve(if dir == [] then [] else dir[..|dir| - 1], comps[1..])
  }

  /** Names minus `..`s. */
  function Depth(comps: seq<string>): int {
    if comps == [] then 0
    else Depth(comps[..|comps| - 1]) + if comps[|comps| - 1] == ".." then -1 else 1
  }

  /** Some prefix has more `..` than names. */
  ghost predicate Dips(comps: seq<string>) {
    exists k :: 0 <= k <= |comps| && Depth(comps[..k]) < 0
  }

  lemma {:induction false} DepthOfConcat(a: seq<string>, b: seq<string>)
    ensures Depth(a + b) == Depth(a) + Depth(b)
    decreases |b|
  {
    if b == [] {
      assert a + b == a;
    } else {
      var c := b[..|b| - 1];
      assert (a + b)[..|a + b| - 1] == a + c;
      DepthOfConcat(a, c);
    }
  }

  lemma DepthOfHead(comps: seq<string>, k: nat)
    requires 0 < k <= |comps|
    ensures Depth(comps[..k]) == (if comps[0] == ".." then -1 else 1) + Depth(comps[1..][..k - 1])
  {
    assert comps[..k] == [comps[0]] + comps[1..][..k - 1];
    DepthOfConcat([comps[0]], comps[1..][..k - 1]);
    assert [comps[0]][..0] == [];
  }

  /** Started `h` levels down, a walk survives exactly if no prefix dips below `-h`,
      and ends at its depth. */
  lemma {:induction false} WalkSurvives(stack: seq<string>, comps: seq<string>)
    ensures Walk(stack, comps).None? <==> exists k :: 0 <= k <= |comps| && |stack| + Depth(comps[..k]) < 0
    ensures Walk(stack, comps).Some? ==> |Walk(stack, comps).value| == |stack| + Depth(comps)
    decreases |comps|
  {
    if comps == [] {
      assert comps[..0] == [];
    } else {
      forall k | 0 < k <= |comps|
        ensures Depth(comps[..k]) == (if comps[0] == ".." then -1 else 1) + Depth(comps[1..][..k - 1])
      {
        DepthOfHead(comps, k);
      }
      assert comps[..0] == [] && comps[..|comps|] == comps && comps[1..][..|comps| - 1] == comps[1..];
      if comps[0] == ".." && stack == [] {
        assert comps[1..][..0] == [];
        assert Depth(comps[..1]) == -1;
      } else {
        var next := if comps[0] == ".." then stack[..|stack| - 1] else stack + [comps[0]];
        WalkSurvives(next, comps[1..]);
        if k :| 0 <= k <= |comps| && |stack| + Depth(comps[..k]) < 0 {
          assert k > 0 && |next| + Depth(comps[1..][..k - 1]) < 0;
        }
        if j :| 0 <= j <= |comps[1..]| && |next| + Depth(comps[1..][..j]) < 0 {
          assert comps[1..][..j + 1 - 1] == comps[1..][..j];
          assert |stack| + Depth(comps[..j + 1]) < 0;
        }
      }
    }
  }

  /** A surviving walk, replayed below any base, ends at base plus what it built and
      never leaves the base on the way. */
  lemma {:induction false} WalkStaysBelow(dir: seq<string>, stack: seq<string>, comps: seq<string>)
    requires Walk(stack, comps).Some?
    ensures Resolve(dir + stack, comps) == dir + Walk(stack, comps).value
    ensures forall k | 0 <= k <= |comps| :: dir <= Resolve(dir + stack, comps[..k])
    decreases |comps|
  {
    if comps != [] {
      var next := if comps[0] == ".." then stack[..|stack| - 1] else stack + [comps[0]];
      assert dir + next == if comps[0] == ".." then (dir + stack)[..|dir + stack| - 1] else dir + stack + [comps[0]];
      assert Resolve(dir + stack, comps) == Resolve(dir + next, comps[1..]);
      WalkStaysBelow(dir, next, comps[1..]);
      forall k | 0 <= k <= |comps|
        ensures dir <= Resolve(dir + stack, comps[..k])
      {
        if k > 0 {
          assert comps[..k][1..] == comps[1..][..k - 1];
          assert Resolve(dir + stack, comps[..k]) == Resolve(dir + next, comps[1..][..k - 1]);
        }
      }
    }
  }

  // ---- What the sanitiser guarantees ---------------------------------------------------------

  /** An accepted path means, below every directory, that directory followed by the
      cleaned names, and no part of the walk leaves it. */
  lemma AcceptedStaysBelow(raw: string, dir: seq<string>)
    requires Sanitized(raw).Accepted?
    ensures Resolve(dir, Components(raw)) == dir + Sanitized(raw).names
    ensures forall k | 0 <= k <= |Components(raw)| :: dir <= Resolve(dir, Components(raw)[..k])
  {
    WalkStaysBelow(dir, [], Components(raw));
    assert dir + [] == dir;
  }

  /** Rejection is exact, with its reason: of the paths that are neither absolute nor
      hold a NUL, just those that dip above their start or come out empty. */
  lemma RejectedExactly(raw: string)
    ensures Sanitized(raw) == Rejected(NullByte) <==> '\0' in raw
    ensures Sanitized(raw) == Rejected(AbsolutePath) <==> '\0' !in raw && IsAbsolute(raw)
    ensures '\0' !in raw && !IsAbsolute(raw) ==>
              && (Sanitized(raw) == Rejected(Traversal) <==> Dips(Components(raw)))
              && (Sanitized(raw) == Rejected(EmptyPath) <==> !Dips(Components(raw)) && Depth(Components(raw)) == 0)
              && (Sanitized(raw).Accepted? <==> !Dips(Components(raw)) && Depth(Components(raw)) > 0)
  {
    var comps := Components(raw);
    WalkSurvives([], comps);
    assert Dips(comps) <==> Walk([], comps).None?;
    assert Walk([], comps).Some? ==> |Walk([], comps).value| == Depth(comps);
  }

  /** A path name as a file system takes it. */
  predicate IsName(name: string) {
    name != "" && name != "." && name != ".." && '/' !in name && '\0' !in name
  }

  lemma {:induction false} WalkKeepsNames(stack: seq<string>, comps: seq<string>)
    requires Walk(stack, comps).Some?
    requires forall i | 0 <= i < |stack| :: IsName(stack[i])
    requires forall i | 0 <= i < |comps| :: comps[i] == ".." || IsName(comps[i])
    ensures forall i | 0 <= i < |Walk(stack, comps).value| :: IsName(Walk(stack, comps).value[i])
    decreases |comps|
  {
    if comps != [] {
      var next := if comps[0] == ".." then stack[..|stack| - 1] else stack + [comps[0]];
      WalkKeepsNames(next, comps[1..]);
    }
  }

  lemma ComponentsAreNames(raw: string)
    requires '\0' !in raw
    ensures forall i | 0 <= i < |Components(raw)| :: Components(raw)[i] == ".." || IsName(Components(raw)[i])
  {
    var pieces := SplitOn(raw, {'/'});
    var comps := Components(raw);
    forall i | 0 <= i < |comps|
      ensures comps[i] == ".." || IsName(comps[i])
    {
      var j :| 0 <= j < |pieces| && pieces[j] == comps[i];
      assert '/' in {'/'} && '/' !in pieces[j];
    }
  }

  /** What comes out is a list of plain names. */
  lemma AcceptedAreNames(raw: string)
    requires Sanitized(raw).Accepted?
    ensures forall i | 0 <= i < |Sanitized(raw).names| :: IsName(Sanitized(raw).names[i])
  {
    ComponentsAreNames(raw);
    WalkKeepsNames([], Components(raw));
  }

  /** The path as text again. */
  function Join(names: seq<string>): string
    requires names != []
  {
    if |names| == 1 then names[0] else names[0] + "/" + Join(names[1..])
  }

  lemma {:induction false} SplitName(name: string, rest: string)
    requires '/' !in name
    ensures SplitOn(name, {'/'}) == [name]
    ensures SplitOn(name + "/" + rest, {'/'}) == [name] + SplitOn(rest, {'/'})
  {
    var text := name + "/" + rest;
    if name == "" {
      assert text[1..] == rest;
    } else {
      assert text[1..] == name[1..] + "/" + rest;
      SplitName(name[1..], rest);
      assert [name[0]] + name[1..] == name;
    }
  }

  /** There is one way to cut a path at its slashes, and the pieces joined again give
      the path. */
  lemma {:induction false} JoinSplits(names: seq<string>)
    requires names != [] && forall i | 0 <= i < |names| :: '/' !in names[i]
    ensures SplitOn(Join(names), {'/'}) == names
  {
    assert '/' !in names[0];
    if |names| == 1 {
      SplitName(names[0], "");
    } else {
      var rest := Join(names[1..]);
      JoinSplits(names[1..]);
      SplitName(names[0], rest);
      assert Join(names) == names[0] + "/" + rest;
      assert [names[0]] + names[1..] == names;
    }
  }

  lemma {:induction false} SplitJoins(raw: string)
    ensures Join(SplitOn(raw, {'/'})) == raw
    ensures forall i | 0 <= i < |SplitOn(raw, {'/'})| :: '/' !in SplitOn(raw, {'/'})[i]
  {
    var pieces := SplitOn(raw, {'/'});
    assert '/' in {'/'};
    if raw != [] {
      var rest := SplitOn(raw[1..], {'/'});
      SplitJoins(raw[1..]);
      assert raw == [raw[0]] + raw[1..];
      if raw[0] == '/' {
        assert pieces[1..] == rest;
        assert Join(pieces) == "" + "/" + Join(rest);
      } else {
        assert pieces[1..] == rest[1..];
        JoinHead(raw[0], rest);
      }
    }
  }

  lemma JoinHead(c: char, pieces: seq<string>)
    requires pieces != []
    ensures Join([[c] + pieces[0]] + pieces[1..]) == [c] + Join(pieces)
  {
    var longer := [[c] + pieces[0]] + pieces[1..];
    if |pieces| > 1 {
      assert longer[1..] == pieces[1..];
      assert ([c] + pieces[0]) + "/" + Join(pieces[1..]) == [c] + (pieces[0] + "/" + Join(pieces[1..]));
    }
  }

  lemma {:induction false} JoinedNames(names: seq<string>)
    requires names != [] && forall i | 0 <= i < |names| :: IsName(names[i])
    ensures '\0' !in Join(names) && !IsAbsolute(Join(names))
  {
    if |names| > 1 {
      JoinedNames(names[1..]);
    }
  }

  lemma {:induction false} NamesMove(names: seq<string>)
    requires forall i | 0 <= i < |names| :: IsName(names[i])
    ensures Moves(names) == names
  {
    if names != [] {
      NamesMove(names[1..]);
    }
  }

  /** Cleaning is idempotent: the cleaned path, as text, is accepted unchanged. */
  lemma SanitizeIsIdempotent(raw: string)
    requires Sanitized(raw).Accepted?
    ensures Sanitized(Join(Sanitized(raw).names)) == Sanitized(raw)
  {
    var names := Sanitized(raw).names;
    AcceptedAreNames(raw);
    JoinSplits(names);
    JoinedNames(names);
    NamesMove(names);
    WalkWithoutDots([], names);
    assert [] + names == names;
  }

  // ---- Piece by piece, the way a file system reads the text -------------------------------------

  /** Where one piece leads; `..` at the root stays there. */
  function Stride(dir: seq<string>, piece: string): seq<string> {
    if piece == "" || piece == "." then dir
    else if piece == ".." then (if dir == [] then [] else dir[..|dir| - 1])
    else dir + [piece]
  }

  function Follow(dir: seq<string>, pieces: seq<string>): seq<string> {
    if pieces == [] then dir else Stride(Follow(dir, pieces[..|pieces| - 1]), pieces[|pieces| - 1])
  }

  /** Names minus `..`s among the pieces. */
  function Height(pieces: seq<string>): int {
    if pieces == [] then 0
    else
      var last := pieces[|pieces| - 1];
      Height(pieces[..|pieces| - 1]) + if last == "" || last == "." then 0 else if last == ".." then -1 else 1
  }

  /** At some piece more `..` than names have been read. */
  ghost predicate Sinks(pieces: seq<string>) {
    exists k :: 0 <= k <= |pieces| && Height(pieces[..k]) < 0
  }

  lemma {:induction false} MovesConcat(a: seq<string>, b: seq<string>)
    ensures Moves(a + b) == Moves(a) + Moves(b)
  {
    if a == [] {
      assert a + b == b;
    } else {
      assert (a + b)[1..] == a[1..] + b;
      MovesConcat(a[1..], b);
    }
  }

  lemma {:induction false} ResolveConcat(dir: seq<string>, a: seq<string>, b: seq<string>)
    ensures Resolve(dir, a + b) == Resolve(Resolve(dir, a), b)
    decreases |a|
  {
    if a == [] {
      assert a + b == b;
    } else {
      assert (a + b)[1..] == a[1..] + b;
      ResolveConcat(if a[0] != ".." then dir + [a[0]] else if dir == [] then [] else dir[..|dir| - 1], a[1..], b);
    }
  }

  lemma LastPiece(pieces: seq<string>)
    requires pieces != []
    ensures var init, last := pieces[..|pieces| - 1], pieces[|pieces| - 1];
            Moves(pieces) == Moves(init) + if last == "" || last == "." then [] else [last]
  {
    var init, last := pieces[..|pieces| - 1], pieces[|pieces| - 1];
    assert pieces == init + [last];
    MovesConcat(init, [last]);
    assert [last][1..] == [];
  }

  lemma {:induction false} FollowIsResolve(dir: seq<string>, pieces: seq<string>)
    ensures Follow(dir, pieces) == Resolve(dir, Moves(pieces))
  {
    if pieces != [] {
      var init, last := pieces[..|pieces| - 1], pieces[|pieces| - 1];
      FollowIsResolve(dir, init);
      LastPiece(pieces);
      if last != "" && last != "." {
        ResolveConcat(dir, Moves(init), [last]);
        assert [last][1..] == [];
      } else {
        assert Moves(init) + [] == Moves(init);
      }
    }
  }

  lemma DepthOfOne(x: string)
    ensures Depth([x]) == if x == ".." then -1 else 1
  {
    assert [x][..0] == [];
  }

  lemma {:induction false} HeightIsDepth(pieces: seq<string>)
    ensures Height(pieces) == Depth(Moves(pieces))
  {
    if pieces != [] {
      var init, last := pieces[..|pieces| - 1], pieces[|pieces| - 1];
      HeightIsDepth(init);
      LastPiece(pieces);
      DepthOfConcat(Moves(init), if last == "" || last == "." then [] else [last]);
      DepthOfOne(last);
    }
  }

  /** What the first pieces amount to is the first moves, and all first moves come so. */
  lemma PrefixOfMoves(pieces: seq<string>, k: nat)
    requires k <= |pieces|
    ensures Moves(pieces[..k]) <= Moves(pieces)
  {
    assert pieces == pieces[..k] + pieces[k..];
    MovesConcat(pieces[..k], pieces[k..]);
  }

  lemma {:induction false} MovesComeFromPieces(pieces: seq<string>, m: nat) returns (k: nat)
    requires m <= |Moves(pieces)|
    ensures k <= |pieces| && Moves(pieces[..k]) == Moves(pieces)[..m]
  {
    if m == |Moves(pieces)| {
      k := |pieces|;
      assert pieces[..k] == pieces;
    } else {
      var init := pieces[..|pieces| - 1];
      LastPiece(pieces);
      k := MovesComeFromPieces(init, m);
      assert init[..k] == pieces[..k];
    }
  }

  lemma SinksIsDips(pieces: seq<string>)
    ensures Sinks(pieces) <==> Dips(Moves(pieces))
  {
    if k :| 0 <= k <= |pieces| && Height(pieces[..k]) < 0 {
      HeightIsDepth(pieces[..k]);
      PrefixOfMoves(pieces, k);
      assert Moves(pieces)[..|Moves(pieces[..k])|] == Moves(pieces[..k]);
    }
    if m :| 0 <= m <= |Moves(pieces)| && Depth(Moves(pieces)[..m]) < 0 {
      var k := MovesComeFromPieces(pieces, m);
      HeightIsDepth(pieces[..k]);
    }
  }

  /** What the sanitiser makes of a text, told of its pieces between slashes: it refuses
      exactly a NUL, a leading slash, more `..` than names at some piece, and a path that
      names nothing; an accepted path leads from every directory down to the cleaned
      names and at no piece out of it. */
  lemma PathMeaning(raw: string, pieces: seq<string>, dir: seq<string>)
    requires pieces != [] && (forall i | 0 <= i < |pieces| :: '/' !in pieces[i]) && Join(pieces) == raw
    ensures Sanitized(raw) == Rejected(NullByte) <==> '\0' in raw
    ensures Sanitized(raw) == Rejected(AbsolutePath) <==> '\0' !in raw && |pieces| > 1 && pieces[0] == ""
    ensures '\0' !in raw && !(|pieces| > 1 && pieces[0] == "") ==>
              && (Sanitized(raw) == Rejected(Traversal) <==> Sinks(pieces))
              && (Sanitized(raw) == Rejected(EmptyPath) <==> !Sinks(pieces) && Height(pieces) == 0)
              && (Sanitized(raw).Accepted? <==> !Sinks(pieces) && Height(pieces) > 0)
    ensures Sanitized(raw).Accepted? ==>
              && Follow(dir, pieces) == dir + Sanitized(raw).names
              && forall k | 0 <= k <= |pieces| :: dir <= Follow(dir, pieces[..k])
  {
    JoinSplits(pieces);
    assert IsAbsolute(raw) <==> |pieces| > 1 && pieces[0] == "" by {
      assert |pieces| > 1 ==> raw == pieces[0] + "/" + Join(pieces[1..]);
      assert pieces[0] != "" ==> raw[0] == pieces[0][0];
    }
    RejectedExactly(raw);
    SinksIsDips(pieces);
    HeightIsDepth(pieces);
    if Sanitized(raw).Accepted? {
      AcceptedStaysBelow(raw, dir);
      FollowIsResolve(dir, pieces);
      forall k | 0 <= k <= |pieces|
        ensures dir <= Follow(dir, pieces[..k])
      {
        FollowIsResolve(dir, pieces[..k]);
        PrefixOfMoves(pieces, k);
        assert Moves(pieces)[..|Moves(pieces[..k])|] == Moves(pieces[..k]);
      }
    }
  }

  // ---- Pieces in the text ----------------------------------------------------------------------

  /** `x` stands at `i`, from one separator or end of the text to the next. */
  predicate PieceAt(raw: string, x: string, i: nat, separators: set<char>) {
    && i + |x| <= |raw| && raw[i..i + |x|] == x
    && (i == 0 || raw[i - 1] in separators)
    && (i + |x| == |raw| || raw[i + |x|] in separators)
  }

  lemma PieceShifts(raw: string, x: string, i: nat, separators: set<char>)
    requires raw != [] && (i > 0 || raw[0] in separators)
    ensures PieceAt(raw, x, i + 1, separators) <==> PieceAt(raw[1..], x, i, separators)
  {
    if i + |x| <= |raw| - 1 {
      assert raw[i + 1..i + 1 + |x|] == raw[1..][i..i + |x|];
    }
  }

  lemma HeadShifts(raw: string, x: string, separators: set<char>)
    requires raw != [] && raw[0] !in separators
    ensures PieceAt(raw, x, 0, separators) <==>
              x != [] && x[0] == raw[0] && PieceAt(raw[1..], x[1..], 0, separators)
  {
    if x != [] && |x| <= |raw| {
      assert raw[..|x|] == [raw[0]] + raw[1..][..|x| - 1];
      assert x == [x[0]] + x[1..];
    }
  }

  ghost predicate PieceLater(raw: string, x: string, separators: set<char>) {
    exists i: nat :: i > 0 && PieceAt(raw, x, i, separators)
  }

  lemma LaterShifts(raw: string, x: string, separators: set<char>)
    requires raw != []
    ensures PieceLater(raw, x, separators) <==>
              PieceLater(raw[1..], x, separators) || (raw[0] in separators && PieceAt(raw[1..], x, 0, separators))
  {
    if i: nat :| i > 0 && PieceAt(raw, x, i, separators) {
      PieceShifts(raw, x, i - 1, separators);
    }
    if i: nat :| i > 0 && PieceAt(raw[1..], x, i, separators) {
      PieceShifts(raw, x, i, separators);
    }
    if raw[0] in separators {
      PieceShifts(raw, x, 0, separators);
    }
  }

  lemma {:induction false} FirstPieceInText(raw: string, x: string, separators: set<char>)
    requires forall c | c in x :: c !in separators
    ensures SplitOn(raw, separators)[0] == x <==> PieceAt(raw, x, 0, separators)
  {
    if raw != [] {
      if raw[0] in separators {
        assert x != [] ==> x[0] in x;
      } else {
        HeadShifts(raw, x, separators);
        if x != [] {
          assert x == [x[0]] + x[1..];
          FirstPieceInText(raw[1..], x[1..], separators);
        }
      }
    }
  }

  /** Splitting finds exactly the pieces that stand in the text. */
  lemma {:induction false} LaterPiecesInText(raw: string, x: string, separators: set<char>)
    requires forall c | c in x :: c !in separators
    ensures x in SplitOn(raw, separators)[1..] <==> PieceLater(raw, x, separators)
  {
    if raw != [] {
      var rest := SplitOn(raw[1..], separators);
      LaterPiecesInText(raw[1..], x, separators);
      FirstPieceInText(raw[1..], x, separators);
      LaterShifts(raw, x, separators);
      assert rest == [rest[0]] + rest[1..];
      assert SplitOn(raw, separators)[1..] == if raw[0] in separators then rest else rest[1..];
    }
  }

  /** A `..` stands between separators of the text. */
  ghost predicate HasDotDot(raw: string, separators: set<char>) {
    exists i: nat :: PieceAt(raw, "..", i, separators)
  }

  lemma DotDotInText(raw: string, separators: set<char>)
    requires '.' !in separators
    ensures ".." in SplitOn(raw, separators) <==> HasDotDot(raw, separators)
  {
    var pieces := SplitOn(raw, separators);
    FirstPieceInText(raw, "..", separators);
    LaterPiecesInText(raw, "..", separators);
    assert pieces == [pieces[0]] + pieces[1..];
  }

  // ---- Entries of recursive uploads, and paths below the working directory ---------------------

  datatype EntryError = EntryEmpty | EntryAbsolute | EntryDriveLetter | EntryTraversal

  datatype EntryResult = EntryOk(path: string) | EntryErr(reason: EntryError)

  predicate IsLetter(c: char) {
    'a' <= c <= 'z' || 'A' <= c <= 'Z'
  }

  /** The check an entry path has to pass; a UNC prefix starts with a backslash and
      is already refused as absolute. */
  function SanitizedEntry(raw: string): EntryResult {
    if raw == "" then EntryErr(EntryEmpty)
    else if raw[0] == '/' || raw[0] == '\\' then EntryErr(EntryAbsolute)
    else if |raw| >= 2 && raw[1] == ':' && IsLetter(raw[0]) then EntryErr(EntryDriveLetter)
    else if ".." in SplitOn(raw, {'/', '\\'}) then EntryErr(EntryTraversal)
    else EntryOk(raw)
  }

  /** Each rejection of an entry is exact, with its reason read off the text, and what is
      not rejected is passed on as it is. */
  lemma EntryRejectedExactly(raw: string)
    ensures SanitizedEntry(raw) == EntryErr(EntryEmpty) <==> raw == ""
    ensures SanitizedEntry(raw) == EntryErr(EntryAbsolute) <==> "/" <= raw || "\\" <= raw
    ensures SanitizedEntry(raw) == EntryErr(EntryDriveLetter) <==>
              |raw| >= 2 && raw[1] == ':' && ('a' <= raw[0] <= 'z' || 'A' <= raw[0] <= 'Z')
    ensures SanitizedEntry(raw) == EntryErr(EntryTraversal) <==>
              && HasDotDot(raw, {'/', '\\'}) && !("/" <= raw) && !("\\" <= raw)
              && !(|raw| >= 2 && raw[1] == ':' && ('a' <= raw[0] <= 'z' || 'A' <= raw[0] <= 'Z'))
    ensures SanitizedEntry(raw).EntryOk? ==> SanitizedEntry(raw).path == raw
  {
    DotDotInText(raw, {'/', '\\'});
  }

  /** The relative branch of path resolution looks for `..` between slashes and
      between backslashes, one separator at a time. */
  predicate AllowedBelowCwd(raw: string) {
    ".." !in SplitOn(raw, {'/'}) && ".." !in SplitOn(raw, {'\\'})
  }

  lemma AllowedExactly(raw: string)
    ensures AllowedBelowCwd(raw) <==> !HasDotDot(raw, {'/'}) && !HasDotDot(raw, {'\\'})
  {
    DotDotInText(raw, {'/'});
    DotDotInText(raw, {'\\'});
  }

  lemma {:induction false} NoDotsNoPops(dir: seq<string>, comps: seq<string>)
    requires ".." !in comps
    ensures Resolve(dir, comps) == dir + comps
    decreases |comps|
  {
    if comps != [] {
      NoDotsNoPops(dir + [comps[0]], comps[1..]);
      assert dir + comps == dir + [comps[0]] + comps[1..];
    }
  }

  lemma {:induction false} MovesKeepDotDot(pieces: seq<string>)
    ensures ".." in Moves(pieces) <==> ".." in pieces
  {
    if pieces != [] {
      MovesKeepDotDot(pieces[1..]);
      assert ".." in pieces <==> pieces[0] == ".." || ".." in pieces[1..];
    }
  }

  /** Without `..` between the separators in force, a walk only goes down, at every
      prefix of it. */
  lemma NoDotDotStaysBelow(raw: string, separators: set<char>, dir: seq<string>, k: nat)
    requires ".." !in SplitOn(raw, separators) && k <= |Moves(SplitOn(raw, separators))|
    ensures dir <= Resolve(dir, Moves(SplitOn(raw, separators))[..k])
  {
    MovesKeepDotDot(SplitOn(raw, separators));
    NoDotsNoPops(dir, Moves(SplitOn(raw, separators))[..k]);
  }

  /** A `..` between slashes is also one when backslashes separate as well. */
  lemma {:induction false} DotDotBetweenSlashes(raw: string)
    ensures var slash, both := SplitOn(raw, {'/'}), SplitOn(raw, {'/', '\\'});
            && ('\\' !in slash[0] ==> both[0] == slash[0])
            && (".." in slash[1..] ==> ".." in both[1..])
  {
    if raw != [] {
      DotDotBetweenSlashes(raw[1..]);
      var slash, both := SplitOn(raw[1..], {'/'}), SplitOn(raw[1..], {'/', '\\'});
      assert slash == [slash[0]] + slash[1..] && both == [both[0]] + both[1..];
      if raw[0] == '/' {
        assert SplitOn(raw, {'/'})[1..] == slash && SplitOn(raw, {'/', '\\'})[1..] == both;
        assert ".." == ['.', '.'];
      } else if raw[0] == '\\' {
        assert SplitOn(raw, {'/'})[1..] == slash[1..] && SplitOn(raw, {'/', '\\'})[1..] == both;
      } else {
        assert SplitOn(raw, {'/'})[1..] == slash[1..] && SplitOn(raw, {'/', '\\'})[1..] == both[1..];
      }
    }
  }

  /** An accepted entry path is passed on unchanged and stays below the directory it
      is put in, whether backslashes separate or not. */
  lemma AcceptedEntryStaysBelow(raw: string, dir: seq<string>)
    requires SanitizedEntry(raw).EntryOk?
    ensures SanitizedEntry(raw).path == raw && !IsAbsolute(raw)
    ensures forall k | 0 <= k <= |Components(raw)| :: dir <= Resolve(dir, Components(raw)[..k])
    ensures var comps := Moves(SplitOn(raw, {'/', '\\'}));
            forall k | 0 <= k <= |comps| :: dir <= Resolve(dir, comps[..k])
  {
    DotDotBetweenSlashes(raw);
    var slash, both := SplitOn(raw, {'/'}), SplitOn(raw, {'/', '\\'});
    assert slash == [slash[0]] + slash[1..] && both == [both[0]] + both[1..];
    forall k: nat | k <= |Components(raw)|
      ensures dir <= Resolve(dir, Components(raw)[..k])
    {
      NoDotDotStaysBelow(raw, {'/'}, dir, k);
    }
    forall k: nat | k <= |Moves(both)|
      ensures dir <= Resolve(dir, Moves(both)[..k])
    {
      NoDotDotStaysBelow(raw, {'/', '\\'}, dir, k);
    }
  }

  /** A relative path let through below the working directory stays below it. */
  lemma AllowedStaysBelowCwd(raw: string, cwd: seq<string>, k: nat)
    requires AllowedBelowCwd(raw) && !IsAbsolute(raw) && k <= |Components(raw)|
    ensures cwd <= Resolve(cwd, Components(raw)[..k])
  {
    NoDotDotStaysBelow(raw, {'/'}, cwd, k);
  }

  /** The three checks line up: what passes as an entry, or below the working
      directory, is refused by the network sanitiser only for a NUL or for naming
      nothing. */
  lemma ChecksLineUp(raw: string)
    requires SanitizedEntry(raw).EntryOk? || (AllowedBelowCwd(raw) && !IsAbsolute(raw))
    ensures Sanitized(raw).Accepted? <==> '\0' !in raw && Components(raw) != []
    ensures Sanitized(raw).Accepted? ==> Sanitized(raw).names == Components(raw)
  {
    DotDotBetweenSlashes(raw);
    var slash, both := SplitOn(raw, {'/'}), SplitOn(raw, {'/', '\\'});
    assert slash == [slash[0]] + slash[1..] && both == [both[0]] + both[1..];
    assert ".." !in slash;
    MovesKeepDotDot(slash);
    WalkWithoutDots([], Components(raw));
    assert [] + Components(raw) == Components(raw);
  }

  lemma {:induction false} WalkWithoutDots(stack: seq<string>, comps: seq<string>)
    requires ".." !in comps
    ensures Walk(stack, comps) == Some(stack + comps)
    decreases |comps|
  {
    if comps == [] {
      assert stack + comps == stack;
    } else {
      WalkWithoutDots(stack + [comps[0]], comps[1..]);
      assert stack + comps == stack + [comps[0]] + comps[1..];
    }
  }
}
