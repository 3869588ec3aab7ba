/** Detection of the cursor-position query `ESC [ 6 n` in shell output, read in
    chunks of any size, with four states instead of a sliding window. */
module DsrDetector {
  import opened Bytes

  const QUERY: seq<byte> := [0x1B, 0x5B, 0x36, 0x6E]

  /** Queries are answered only during the first ten seconds (in nanoseconds). */
  const AUTOREPLY_WINDOW: nat := 10_000_000_000

  // ---- Naive search, the reference ----------------------------------------------

  /** The query ends just before position `e` of the stream. */
  predicate QueryEndsAt(s: seq<byte>, e: nat) {
    4 <= e <= |s| && s[e - 4..e] == QUERY
  }

  /** The positions at which queries end, found by looking at every position. */
  function Ends(s: seq<byte>): set<nat> {
    set e: nat | 0 <= e <= |s| && QueryEndsAt(s, e)
  }

  /** The first `k` bytes of the query end the stream. */
  predicate Matched(s: seq<byte>, k: nat) {
    k <= 3 && k <= |s| && s[|s| - k..] == QUERY[..k]
  }

  /** `k` is the length of the longest suffix that is a proper prefix of the query. */
  ghost predicate IsLongestMatch(s: seq<byte>, k: nat) {
    Matched(s, k) && forall j | k < j <= 3 :: !Matched(s, j)
  }

  // ---- The matcher ------------------------------------------------------------------

  function Next(state: nat, b: byte): nat {
    if b == 0x1B then 1
    else if state == 1 && b == 0x5B then 2
    else if state == 2 && b == 0x36 then 3
    else 0
  }

  predicate Hit(state: nat, b: byte) {
    state == 3 && b == 0x6E
  }

  function StateAfter(s: seq<byte>): (k: nat)
    ensures k <= 3
  {
    if s == [] then 0 else Next(StateAfter(s[..|s| - 1]), s[|s| - 1])
  }

  /** The reader's matcher and the replies it has sent. `seen` is the stream so far
      and `clock` the time since the reader started at each byte of it. */
  class DsrReader {
    var dsrState: nat
    var replies: nat
    ghost var seen: seq<byte>
    ghost var clock: seq<nat>

    ghost predicate Valid()
      reads this
    {
      && |clock| == |seen|
      && dsrState == StateAfter(seen)
      && replies == |Answered(seen, clock)|
    }

    constructor ()
      ensures Valid() && seen == [] && clock == []
    {
      dsrState, replies, seen, clock := 0, 0, [], [];
      new;
      assert Answered([], []) == {};
    }

    /** One byte of output, read at time `now` on the reader's clock. */
    method Step(b: byte, now: nat)
      requires Valid()
      modifies this
      ensures Valid() && seen == old(seen) + [b] && clock == old(clock) + [now]
    {
      DetectionIsExact(seen, b);
      RepliesGrow(seen, clock, b, now);
      if b == 0x1B {
        dsrState := 1;
      } else if dsrState == 1 && b == 0x5B {
        dsrState := 2;
      } else if dsrState == 2 && b == 0x36 {
        dsrState := 3;
      } else if dsrState == 3 && b == 0x6E {
        if now < AUTOREPLY_WINDOW {
          replies := replies + 1;
        }
        dsrState := 0;
      } else {
        dsrState := 0;
      }
      seen, clock := seen + [b], clock + [now];
    }

    /** One chunk of output; `elapsed[i]` is the reader's clock at its i-th byte. */
    method Feed(chunk: seq<byte>, elapsed: seq<nat>)
      requires Valid() && |elapsed| == |chunk|
      modifies this
      ensures Valid() && seen == old(seen) + chunk && clock == old(clock) + elapsed
    {
      for i := 0 to |chunk|
        invariant Valid()
        invariant seen == old(seen) + chunk[..i] && clock == old(clock) + elapsed[..i]
      {
        Step(chunk[i], elapsed[i]);
        assert chunk[..i + 1] == chunk[..i] + [chunk[i]] && elapsed[..i + 1] == elapsed[..i] + [elapsed[i]];
      }
      assert chunk[..|chunk|] == chunk && elapsed[..|chunk|] == elapsed;
    }
  }

  /** The queries whose last byte arrived inside the window. */
  function Answered(s: seq<byte>, clock: seq<nat>): set<nat>
    requires |clock| == |s|
  {
    set e: nat | 0 < e <= |s| && QueryEndsAt(s, e) && clock[e - 1] < AUTOREPLY_WINDOW
  }

  /** What is searched for is ESC [ 6 n, and the window is ten seconds. */
  lemma QueryIsCursorReport(s: seq<byte>, clock: seq<nat>, e: nat)
    requires |clock| == |s|
    ensures e in Answered(s, clock) <==>
              && 4 <= e <= |s| && clock[e - 1] < 10_000_000_000
              && s[e - 4] == 0x1B && s[e - 3] == 0x5B && s[e - 2] == 0x36 && s[e - 1] == 0x6E
  {
    if 4 <= e <= |s| {
      var t := s[e - 4..e];
      assert t == [s[e - 4], s[e - 3], s[e - 2], s[e - 1]];
      if t == QUERY {
        assert t[0] == QUERY[0] && t[1] == QUERY[1] && t[2] == QUERY[2] && t[3] == QUERY[3];
      }
    }
  }

  // ---- The matcher equals the search ---------------------------------------------------

  lemma MatchGrows(p: seq<byte>, b: byte, k: nat, j: nat)
    requires IsLongestMatch(p, k) && 0 < j <= 3
    ensures Matched(p + [b], j) <==> (j == 1 || k == j - 1) && b == QUERY[j - 1]
  {
    MatchExtends(p, b, j);
    if j > 1 {
      LongestIsUnique(p, k);
    }
  }

  lemma LongestMatchStep(p: seq<byte>, b: byte, k: nat)
    requires IsLongestMatch(p, k)
    ensures IsLongestMatch(p + [b], Next(k, b))
  {
    var s, n := p + [b], Next(k, b);
    assert Matched(s, n) by {
      if n > 0 {
        MatchGrows(p, b, k, n);
      }
    }
    forall j | n < j <= 3
      ensures !Matched(s, j)
    {
      MatchGrows(p, b, k, j);
    }
  }

  /** However the stream was cut into chunks, the state is the longest match. */
  lemma {:induction false} StateIsLongestMatch(s: seq<byte>)
    ensures IsLongestMatch(s, StateAfter(s))
  {
    if s != [] {
      var p, b := s[..|s| - 1], s[|s| - 1];
      StateIsLongestMatch(p);
      LongestMatchStep(p, b, StateAfter(p));
      assert s == p + [b];
    }
  }

  lemma MatchExtends(p: seq<byte>, b: byte, k: nat)
    requires 0 < k <= 3
    ensures Matched(p + [b], k) <==> Matched(p, k - 1) && b == QUERY[k - 1]
  {
    var s := p + [b];
    assert QUERY[..k] == QUERY[..k - 1] + [QUERY[k - 1]];
    if k <= |s| {
      assert s[|s| - k..] == p[|p| - (k - 1)..] + [b];
    }
  }

  /** Distinct query bytes: the suffix cannot match at two lengths above zero. */
  lemma LongestIsUnique(s: seq<byte>, k: nat)
    requires IsLongestMatch(s, k)
    ensures forall j | 0 < j <= 3 && Matched(s, j) :: j == k
  {
    forall j | 0 < j <= 3 && Matched(s, j)
      ensures j == k
    {
      assert s[|s| - j..][j - 1] == s[|s| - 1] == QUERY[j - 1];
      if k > 0 {
        assert s[|s| - k..][k - 1] == s[|s| - 1] == QUERY[k - 1];
      }
    }
  }

  /** The matcher fires on a byte exactly when naive search finds the query there. */
  lemma DetectionIsExact(p: seq<byte>, b: byte)
    ensures Hit(StateAfter(p), b) <==> QueryEndsAt(p + [b], |p| + 1)
    ensures StateAfter(p + [b]) == Next(StateAfter(p), b)
  {
    var s := p + [b];
    assert s[..|s| - 1] == p;
    StateIsLongestMatch(p);
    LongestIsUnique(p, StateAfter(p));
    QueryIsMatchPlusByte(p, b);
  }

  lemma QueryIsMatchPlusByte(p: seq<byte>, b: byte)
    ensures QueryEndsAt(p + [b], |p| + 1) <==> Matched(p, 3) && b == QUERY[3]
  {
    assert QUERY == QUERY[..3] + [QUERY[3]];
    if |p| >= 3 {
      var s := p + [b];
      assert s[|p| - 3..|p| + 1] == p[|p| - 3..] + [b];
    }
  }

  lemma EndsStay(p: seq<byte>, b: byte, e: nat)
    requires e <= |p|
    ensures QueryEndsAt(p + [b], e) <==> QueryEndsAt(p, e)
  {
    if 4 <= e {
      assert (p + [b])[e - 4..e] == p[e - 4..e];
    }
  }

  lemma AnsweredGrows(p: seq<byte>, clock: seq<nat>, b: byte, t: nat)
    requires |clock| == |p|
    ensures Answered(p + [b], clock + [t]) ==
            Answered(p, clock) + if QueryEndsAt(p + [b], |p| + 1) && t < AUTOREPLY_WINDOW then {|p| + 1} else {}
  {
    var s, c := p + [b], clock + [t];
    forall e: nat | 0 < e <= |p|
      ensures QueryEndsAt(s, e) && c[e - 1] < AUTOREPLY_WINDOW <==> QueryEndsAt(p, e) && clock[e - 1] < AUTOREPLY_WINDOW
    {
      EndsStay(p, b, e);
    }
  }

  /** One byte more: the reply count goes up exactly when a query ends in the window. */
  lemma RepliesGrow(p: seq<byte>, clock: seq<nat>, b: byte, t: nat)
    requires |clock| == |p|
    ensures |Answered(p + [b], clock + [t])| ==
            |Answered(p, clock)| + if Hit(StateAfter(p), b) && t < AUTOREPLY_WINDOW then 1 else 0
  {
    DetectionIsExact(p, b);
    AnsweredGrows(p, clock, b, t);
  }

  /** While the window lasts every query in the stream is answered, once. */
  lemma EveryEarlyQueryIsAnswered(s: seq<byte>, clock: seq<nat>)
    requires |clock| == |s| && forall i | 0 <= i < |s| :: clock[i] < AUTOREPLY_WINDOW
    ensures Answered(s, clock) == Ends(s)
  {
    assert forall e: nat | e in Ends(s) :: e > 0;
  }
}
