/** The single-password authenticator. A check tests the lock, verifies the
    password off the executor, and only then records the verdict, so other checks
    run between its two halves. */
module PasswordAuths {
  import opened Options
  import opened RateLimiter

  /** How verifying a password against the stored hash ends. */
  datatype Verdict = Correct | Wrong | Broken

  /** Failure counter, clock, and the checks between lock test and record. */
  datatype State = State(limiter: Limiter, inFlight: nat)

  datatype Event = Begin(now: nat) | Finish(verdict: Verdict, now: nat)

  predicate Enabled(s: State, e: Event) {
    e.Finish? ==> s.inFlight > 0
  }

  function Step(s: State, e: Event): State
    requires Enabled(s, e)
  {
    match e
    case Begin(now) =>
      State(Tested(s.limiter, now), if Blocks(s.limiter, now) then s.inFlight else s.inFlight + 1)
    case Finish(Correct, _) => State(Cleared(s.limiter), s.inFlight - 1)
    case Finish(Wrong, now) => State(Recorded(s.limiter, now), s.inFlight - 1)
    case Finish(Broken, _) => s.(inFlight := s.inFlight - 1)
  }

  /** The authenticator object; clones share it. `inFlight` counts the checks that
      are awaiting their verdict. */
  class PasswordAuth {
    var failedAttempts: nat
    var lastFailure: Option<nat>
    var inFlight: nat

    ghost function Abs(): State
      reads this
    {
      State(Limiter(failedAttempts, lastFailure), inFlight)
    }

    constructor ()
      ensures Abs() == State(Limiter(0, None), 0)
    {
      failedAttempts, lastFailure, inFlight := 0, None, 0;
    }

    method IsLockedOut(now: nat) returns (locked: bool)
      modifies this`failedAttempts
      ensures locked == Blocks(old(Abs()).limiter, now)
      ensures Abs() == old(Abs()).(limiter := Tested(old(Abs()).limiter, now))
    {
      if failedAttempts < MAX_FAILURES {
        return false;
      }
      if lastFailure.None? {
        return true;
      }
      if now - lastFailure.value > LOCKOUT_WINDOW {
        failedAttempts := 0;
        return false;
      }
      return true;
    }

    /** The half of a check before the await. */
    method BeginCheck(now: nat) returns (admitted: bool)
      modifies this
      ensures admitted == !Blocks(old(Abs()).limiter, now)
      ensures Abs() == Step(old(Abs()), Begin(now))
    {
      var locked := IsLockedOut(now);
      if locked {
        return false;
      }
      inFlight := inFlight + 1;
      return true;
    }

    /** The half after the await; `None` stands for the error reply. */
    method FinishCheck(verdict: Verdict, now: nat) returns (reply: Option<bool>)
      requires inFlight > 0
      modifies this
      ensures Abs() == Step(old(Abs()), Finish(verdict, now))
      ensures reply == if verdict.Broken? then None else Some(verdict.Correct?)
    {
      inFlight := inFlight - 1;
      match verdict {
        case Broken => return None;
        case Correct =>
          failedAttempts := 0;
          return Some(true);
        case Wrong =>
          lastFailure := Some(now);
          failedAttempts := failedAttempts + 1;
          return Some(false);
      }
    }
  }

  ghost predicate IsRun(ss: seq<State>, es: seq<Event>) {
    && |ss| == |es| + 1
    && forall i | 0 <= i < |es| :: StepAt(ss, es, i)
  }

  ghost predicate StepAt(ss: seq<State>, es: seq<Event>, i: nat)
    requires |ss| == |es| + 1 && i < |es|
  {
    Enabled(ss[i], es[i]) && ss[i + 1] == Step(ss[i], es[i])
  }

  ghost predicate AtMostInFlight(ss: seq<State>, c: nat) {
    forall i | 0 <= i < |ss| :: ss[i].inFlight <= c
  }

  const Fresh := State(Limiter(0, None), 0)

  /** The burst bound: with at most c checks in flight at any time, the counter
      stays within c + 2, and once it is full the checks still in flight fit into
      what is left. */
  lemma {:induction false} BurstBound(ss: seq<State>, es: seq<Event>, c: nat, n: nat)
    requires IsRun(ss, es) && n <= |es| && ss[0] == Fresh && AtMostInFlight(ss, c)
    ensures ss[n].limiter.fails <= c + 2
    ensures ss[n].limiter.fails >= MAX_FAILURES ==> ss[n].limiter.fails + ss[n].inFlight <= c + 2
  {
    if n > 0 {
      BurstBound(ss, es, c, n - 1);
      assert StepAt(ss, es, n - 1);
      assert ss[n - 1].inFlight <= c && ss[n].inFlight <= c;
    }
  }

  /** Two failures, then c checks let in together, all wrong. */
  function Burst(c: nat): seq<Event> {
    [Begin(0), Finish(Wrong, 0), Begin(0), Finish(Wrong, 0)]
    + seq(c, _ => Begin(0)) + seq(c, _ => Finish(Wrong, 0))
  }

  function BurstState(c: nat, i: nat): State
    requires c > 0 && i <= 4 + 2 * c
  {
    if i == 0 then Fresh
    else if i < 4 then State(Limiter(i / 2, if i == 1 then None else Some(0)), i % 2)
    else if i <= 4 + c then State(Limiter(2, Some(0)), i - 4)
    else State(Limiter(2 + (i - 4 - c), Some(0)), 4 + 2 * c - i)
  }

  /** The burst bound is exact: every c allows a run that reaches c + 2. */
  lemma BurstBoundIsTight(c: nat)
    requires c > 0
    ensures exists ss: seq<State>, es: seq<Event> ::
              IsRun(ss, es) && ss[0] == Fresh && AtMostInFlight(ss, c) && ss[|es|].limiter.fails == c + 2
  {
    var es := Burst(c);
    var ss := seq(5 + 2 * c, i requires 0 <= i < 5 + 2 * c => BurstState(c, i));
    forall i | 0 <= i < |es|
      ensures StepAt(ss, es, i)
    {
      assert es[i] == if i < 4 then (if i % 2 == 0 then Begin(0) else Finish(Wrong, 0))
                      else if i < 4 + c then Begin(0) else Finish(Wrong, 0);
    }
    assert IsRun(ss, es);
    assert AtMostInFlight(ss, c);
    assert ss[|es|].limiter.fails == c + 2;
  }

  // ---- What the counter counts ---------------------------------------------------------

  /** The event at `i` starts the count afresh: a right password, or a check begun more
      than sixty seconds after the last failure while the counter is full. */
  ghost predicate ResetsAt(ss: seq<State>, es: seq<Event>, i: nat)
    requires IsRun(ss, es) && i < |es|
  {
    match es[i]
    case Finish(verdict, _) => verdict == Correct
    case Begin(now) =>
      ss[i].limiter.fails >= 3 && ss[i].limiter.last.Some? && now > ss[i].limiter.last.value + 60_000_000_000
  }

  /** Wrong passwords found from position `lo` up to `hi`. */
  function Wrongs(es: seq<Event>, lo: nat, hi: nat): nat
    requires hi <= |es|
    decreases hi
  {
    if hi <= lo then 0
    else Wrongs(es, lo, hi - 1) + if es[hi - 1].Finish? && es[hi - 1].verdict == Wrong then 1 else 0
  }

  /** When the last wrong password before position `n` was found. */
  function LastWrong(es: seq<Event>, n: nat): Option<nat>
    requires n <= |es|
  {
    if n == 0 then None
    else if es[n - 1].Finish? && es[n - 1].verdict == Wrong then Some(es[n - 1].now)
    else LastWrong(es, n - 1)
  }

  /** Over every run the counter is the number of wrong passwords found since the count
      was last started afresh, and the clock shows the last of all. */
  lemma {:induction false} CounterIsWrongsSinceReset(ss: seq<State>, es: seq<Event>, n: nat) returns (r: nat)
    requires IsRun(ss, es) && n <= |es| && ss[0] == State(Limiter(0, None), 0)
    ensures r <= n && (r > 0 ==> ResetsAt(ss, es, r - 1)) && forall i | r <= i < n :: !ResetsAt(ss, es, i)
    ensures ss[n].limiter.fails == Wrongs(es, r, n)
    ensures ss[n].limiter.last == LastWrong(es, n)
  {
    if n == 0 {
      r := 0;
    } else {
      r := CounterIsWrongsSinceReset(ss, es, n - 1);
      assert StepAt(ss, es, n - 1);
      if ResetsAt(ss, es, n - 1) {
        r := n;
      }
    }
  }

  /** A right password opens the door: until three more wrong ones are found, whoever
      calls is let in. */
  lemma {:induction false} SuccessUnlocks(ss: seq<State>, es: seq<Event>, i: nat, j: nat)
    requires IsRun(ss, es) && i < j <= |es| && es[i].Finish? && es[i].verdict == Correct
    ensures ss[j].limiter.fails <= Wrongs(es, i + 1, j)
    ensures Wrongs(es, i + 1, j) < 3 && j < |es| && es[j].Begin? ==> ss[j + 1].inFlight == ss[j].inFlight + 1
    decreases j
  {
    assert StepAt(ss, es, j - 1);
    if j > i + 1 {
      SuccessUnlocks(ss, es, i, j - 1);
    }
    if j < |es| {
      assert StepAt(ss, es, j);
    }
  }

  ghost predicate ClockMonotone(es: seq<Event>) {
    forall i, j | 0 <= i < j < |es| :: es[i].now <= es[j].now
  }

  predicate Records(e: Event) {
    e.Finish? && e.verdict.Wrong?
  }

  ghost predicate Holds(s: State, atLeast: nat, since: nat) {
    s.limiter.fails >= atLeast && s.limiter.last.Some? && s.limiter.last.value >= since
  }

  /** Inside one window of a failure, nothing but a success lowers the counter. */
  lemma {:induction false} CounterClimbs(ss: seq<State>, es: seq<Event>, lo: nat, hi: nat, c: nat, since: nat)
    requires IsRun(ss, es) && lo <= hi <= |es| && Holds(ss[lo], c, since)
    requires forall i | lo <= i < hi ::
               since <= es[i].now <= since + LOCKOUT_WINDOW && !(es[i].Finish? && es[i].verdict.Correct?)
    ensures Holds(ss[hi], c, since)
    decreases hi - lo
  {
    if lo < hi {
      CounterClimbs(ss, es, lo, hi - 1, c, since);
      assert StepAt(ss, es, hi - 1);
    }
  }

  /** Positions of recorded failures, in order. */
  ghost predicate FailureList(es: seq<Event>, f: seq<nat>) {
    && (forall k | 0 <= k < |f| :: f[k] < |es| && Records(es[f[k]]))
    && (forall k, l | 0 <= k < l < |f| :: f[k] < f[l])
  }

  ghost predicate NoSuccess(es: seq<Event>, lo: nat, hi: nat) {
    forall i | lo <= i <= hi && i < |es| :: !(es[i].Finish? && es[i].verdict.Correct?)
  }

  lemma {:induction false} WindowCounts(ss: seq<State>, es: seq<Event>, f: seq<nat>, k: nat)
    requires IsRun(ss, es) && ClockMonotone(es) && FailureList(es, f) && k < |f| && NoSuccess(es, f[0], f[k])
    requires es[f[k]].now <= es[f[0]].now + LOCKOUT_WINDOW
    ensures Holds(ss[f[k] + 1], k + 1, es[f[0]].now)
  {
    if k > 0 {
      WindowCounts(ss, es, f, k - 1);
      CounterClimbs(ss, es, f[k - 1] + 1, f[k], k, es[f[0]].now);
    }
    assert StepAt(ss, es, f[k]);
  }

  /** The rate bound of overlapping checks: with at most c in flight, n failures
      recorded with no success between them take at least 60 * q seconds for every q
      with (c + 2) * q <= n - 1; for checks made one at a time the divisor is three. */
  lemma {:induction false} RateBound(ss: seq<State>, es: seq<Event>, c: nat, f: seq<nat>, q: nat)
    requires IsRun(ss, es) && ss[0] == Fresh && AtMostInFlight(ss, c)
    requires ClockMonotone(es) && FailureList(es, f) && (c + 2) * q < |f| && NoSuccess(es, f[0], f[|f| - 1])
    ensures es[f[|f| - 1]].now - es[f[0]].now >= LOCKOUT_WINDOW * q
    decreases q
  {
    if q == 0 {
      assert |f| > 1 ==> es[f[0]].now <= es[f[|f| - 1]].now;
    } else {
      var g := c + 2;
      assert g * q == g + g * (q - 1);
      if es[f[g]].now <= es[f[0]].now + LOCKOUT_WINDOW {
        WindowCounts(ss, es, f, g);
        BurstBound(ss, es, c, f[g] + 1);
        assert false;
      }
      RateBound(ss, es, c, f[g..], q - 1);
    }
  }
}
