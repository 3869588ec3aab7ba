/** How fast failures can be recorded by the authenticators that share a monitor. */
module AuthRates {
  import opened Options
  import opened RateLimiter
  import opened UnifiedPolicy
  import opened AuthRuns
  import opened AuthTheorems

  ghost predicate ClockMonotone(es: seq<Event>) {
    forall i, j | 0 <= i < j < |es| && IsCall(es[i]) && IsCall(es[j]) :: es[i].io.now <= es[j].io.now
  }

  // ---- The bound -----------------------------------------------------------------

  /** The call at `i` found the counter of `m` full and was let in, made over an
      authenticator whose own last failure is older than the one at `k`: it throws
      that failure away whether or not its window has passed. */
  ghost predicate ForgetsAt(ws: seq<World>, es: seq<Event>, k: nat, i: nat, m: nat)
    requires IsRun(ws, es)
  {
    && k < i && FailsAt(ws, es, k, m)
    && CallAt(ws, es, i) && MonitorAt(ws, es, i) == m && !DeedAt(ws, es, i).Blocked?
    && m < |ws[i].monitors| && ws[i].monitors[m].fails >= MAX_FAILURES
    && AuthAt(ws, es, i).last.Some? && AuthAt(ws, es, i).last.value < es[k].io.now
  }

  /** Inside the window of the failure at `k` a full counter turns every call away,
      unless the call forgets that failure. */
  lemma FullCounterBlocks(ws: seq<World>, es: seq<Event>, k: nat, i: nat, m: nat)
    requires IsRun(ws, es) && k < i && FailsAt(ws, es, k, m) && !ForgetsAt(ws, es, k, i, m)
    requires CallAt(ws, es, i) && MonitorAt(ws, es, i) == m && es[i].io.now <= es[k].io.now + LOCKOUT_WINDOW
    requires m < |ws[i].monitors| && ws[i].monitors[m].fails >= MAX_FAILURES
    ensures DeedAt(ws, es, i).Blocked?
  {
    assert StepAt(ws, es, i);
  }

  ghost predicate AtLeast(w: World, m: nat, c: nat) {
    m < |w.monitors| && w.monitors[m].fails >= c
  }

  lemma FailureCounts(ws: seq<World>, es: seq<Event>, k: nat, i: nat, m: nat, c: nat)
    requires IsRun(ws, es) && FailsAt(ws, es, k, m) && FailsAt(ws, es, i, m) && k <= i && AtLeast(ws[i], m, c)
    requires k == i ==> c == 0
    requires !ForgetsAt(ws, es, k, i, m) && es[i].io.now <= es[k].io.now + LOCKOUT_WINDOW
    ensures c < MAX_FAILURES && AtLeast(ws[i + 1], m, c + 1)
  {
    MonitorStep(ws, es, i, m);
    if k < i && ws[i].monitors[m].fails >= MAX_FAILURES {
      FullCounterBlocks(ws, es, k, i, m);
    }
  }

  /** Inside the window of the failure at `k`, nothing but a success or a call that
      forgets that failure lowers the counter. */
  lemma {:induction false} CounterClimbs(ws: seq<World>, es: seq<Event>, k: nat, lo: nat, hi: nat, m: nat, c: nat)
    requires IsRun(ws, es) && k < lo <= hi <= |es| && FailsAt(ws, es, k, m) && AtLeast(ws[lo], m, c)
    requires forall i | lo <= i < hi :: !ClearsAt(ws, es, i, m) && !ForgetsAt(ws, es, k, i, m)
    requires forall i | lo <= i < hi && IsCall(es[i]) :: es[i].io.now <= es[k].io.now + LOCKOUT_WINDOW
    ensures AtLeast(ws[hi], m, c)
    decreases hi - lo
  {
    if lo < hi {
      CounterClimbs(ws, es, k, lo, hi - 1, m, c);
      MonitorStep(ws, es, hi - 1, m);
      var full := ws[hi - 1].monitors[m].fails >= MAX_FAILURES;
      if full && (FailsAt(ws, es, hi - 1, m) || DecaysAt(ws, es, hi - 1, m)) {
        FullCounterBlocks(ws, es, k, hi - 1, m);
      }
    }
  }

  lemma {:induction false} FourFailuresOutliveWindow(ws: seq<World>, es: seq<Event>, m: nat,
                                                     i1: nat, i2: nat, i3: nat, i4: nat)
    requires IsRun(ws, es) && ClockMonotone(es)
    requires i1 < i2 < i3 < i4
    requires FailsAt(ws, es, i1, m) && FailsAt(ws, es, i2, m) && FailsAt(ws, es, i3, m) && FailsAt(ws, es, i4, m)
    requires forall i | i1 < i < i4 :: !ClearsAt(ws, es, i, m)
    requires forall i | i1 < i <= i4 :: !ForgetsAt(ws, es, i1, i, m)
    ensures es[i4].io.now - es[i1].io.now > LOCKOUT_WINDOW
  {
    if es[i4].io.now <= es[i1].io.now + LOCKOUT_WINDOW {
      assert StepAt(ws, es, i1);
      FailureCounts(ws, es, i1, i1, m, 0);
      CounterClimbs(ws, es, i1, i1 + 1, i2, m, 1);
      FailureCounts(ws, es, i1, i2, m, 1);
      CounterClimbs(ws, es, i1, i2 + 1, i3, m, 2);
      FailureCounts(ws, es, i1, i3, m, 2);
      CounterClimbs(ws, es, i1, i3 + 1, i4, m, 3);
      FailureCounts(ws, es, i1, i4, m, 3);
      assert false;
    }
  }

  /** Positions of recorded failures of monitor `m`, in order. */
  ghost predicate FailureList(ws: seq<World>, es: seq<Event>, m: nat, f: seq<nat>)
    requires IsRun(ws, es)
  {
    && (forall k | 0 <= k < |f| :: FailsAt(ws, es, f[k], m))
    && (forall k, l | 0 <= k < l < |f| :: f[k] < f[l])
  }

  lemma FailureListTail(ws: seq<World>, es: seq<Event>, m: nat, f: seq<nat>)
    requires IsRun(ws, es) && FailureList(ws, es, m, f) && |f| > 3
    ensures FailureList(ws, es, m, f[3..]) && f[0] < f[1] < f[2] < f[3] <= f[|f| - 1]
    ensures f[3..][0] == f[3] && f[3..][|f[3..]| - 1] == f[|f| - 1]
  {
  }

  lemma {:induction false} WindowsBetweenFailures(ws: seq<World>, es: seq<Event>, m: nat, f: seq<nat>, q: nat)
    requires IsRun(ws, es) && ClockMonotone(es)
    requires FailureList(ws, es, m, f) && 3 * q < |f|
    requires forall i | f[0] < i < f[|f| - 1] :: !ClearsAt(ws, es, i, m)
    requires forall k, i | f[0] <= k < i <= f[|f| - 1] :: !ForgetsAt(ws, es, k, i, m)
    ensures es[f[|f| - 1]].io.now - es[f[0]].io.now >= LOCKOUT_WINDOW * q
    decreases q
  {
    if q == 0 {
      assert |f| > 1 ==> es[f[0]].io.now <= es[f[|f| - 1]].io.now;
    } else {
      FailureListTail(ws, es, m, f);
      FourFailuresOutliveWindow(ws, es, m, f[0], f[1], f[2], f[3]);
      WindowsBetweenFailures(ws, es, m, f[3..], q - 1);
    }
  }

  /** The rate bound, however many authenticators share the monitor: n failures with
      no success in between take at least 60 * floor((n - 1) / 3) seconds, as long as
      no call in between forgets a failure of this stretch. */
  lemma RateBound(ws: seq<World>, es: seq<Event>, m: nat, f: seq<nat>)
    requires IsRun(ws, es) && ClockMonotone(es)
    requires FailureList(ws, es, m, f) && |f| > 0
    requires forall i | f[0] < i < f[|f| - 1] :: !ClearsAt(ws, es, i, m)
    requires forall k, i | f[0] <= k < i <= f[|f| - 1] :: !ForgetsAt(ws, es, k, i, m)
    ensures es[f[|f| - 1]].io.now - es[f[0]].io.now >= LOCKOUT_WINDOW * ((|f| - 1) / 3)
  {
    WindowsBetweenFailures(ws, es, m, f, (|f| - 1) / 3);
  }

  /** Monitor `m` serves one authenticator only, as in a stand-alone authenticator
      and all the session views made from it. */
  ghost predicate ServesOnly(ws: seq<World>, m: nat, a: nat) {
    forall i, b | 0 <= i < |ws| && 0 <= b < |ws[i].auths| && ws[i].auths[b].monitor == m :: b == a
  }

  lemma CallStampsClock(w: World, e: Event)
    requires w.Valid() && Enabled(w, e) && IsCall(e)
    ensures OutcomeOf(w, e).view.limiter.last ==
            if OutcomeOf(w, e).deed.Failed? then Some(e.io.now) else w.AuthOf(e.session).last
  {
  }

  /** The failure clock moves exactly with the failures of its own authenticator. */
  lemma ClockStep(w: World, e: Event, a: nat)
    requires w.Valid() && Enabled(w, e) && a < |w.auths|
    ensures a < |Step(w, e).auths|
    ensures Step(w, e).auths[a].last ==
            if IsCall(e) && w.sessions[e.session].auth == a && OutcomeOf(w, e).deed.Failed? then Some(e.io.now)
            else w.auths[a].last
  {
    if IsCall(e) {
      CallStampsClock(w, e);
      assert Step(w, e) == w.With(e.session, OutcomeOf(w, e));
    }
  }

  lemma {:induction false} FailureIsRemembered(ws: seq<World>, es: seq<Event>, m: nat, a: nat, k: nat, n: nat)
    requires IsRun(ws, es) && ServesOnly(ws, m, a) && ClockMonotone(es)
    requires FailsAt(ws, es, k, m) && k < n <= |es|
    ensures a < |ws[n].auths| && ws[n].auths[a].last.Some? && ws[n].auths[a].last.value >= es[k].io.now
  {
    assert StepAt(ws, es, n - 1);
    if n == k + 1 {
      assert ws[k].auths[ws[k].sessions[es[k].session].auth].monitor == m;
    } else {
      FailureIsRemembered(ws, es, m, a, k, n - 1);
    }
    ClockStep(ws[n - 1], es[n - 1], a);
  }

  /** One authenticator over its own monitor never forgets a failure. */
  lemma LoneAuthenticatorRemembers(ws: seq<World>, es: seq<Event>, m: nat, a: nat, k: nat, i: nat)
    requires IsRun(ws, es) && ServesOnly(ws, m, a) && ClockMonotone(es)
    ensures !ForgetsAt(ws, es, k, i, m)
  {
    if ForgetsAt(ws, es, k, i, m) {
      assert StepAt(ws, es, i);
      assert ws[i].auths[AuthIndexAt(ws, es, i)].monitor == m;
      FailureIsRemembered(ws, es, m, a, k, i);
      assert false;
    }
  }

  /** So for one authenticator and its session views the bound holds as it stands. */
  lemma RateBoundOfOne(ws: seq<World>, es: seq<Event>, m: nat, a: nat, f: seq<nat>)
    requires IsRun(ws, es) && ServesOnly(ws, m, a) && ClockMonotone(es)
    requires FailureList(ws, es, m, f) && |f| > 0
    requires forall i | f[0] < i < f[|f| - 1] :: !ClearsAt(ws, es, i, m)
    ensures es[f[|f| - 1]].io.now - es[f[0]].io.now >= LOCKOUT_WINDOW * ((|f| - 1) / 3)
  {
    forall k, i | f[0] <= k < i <= f[|f| - 1]
      ensures !ForgetsAt(ws, es, k, i, m)
    {
      LoneAuthenticatorRemembers(ws, es, m, a, k, i);
    }
    RateBound(ws, es, m, f);
  }

  // ---- Where it does not hold ------------------------------------------------------

  const KEY: Key := Key("a")
  const CODE: PasswordHash := PasswordHash(_ => false)
  const LATER: nat := LOCKOUT_WINDOW + 1

  /** Two authenticators with one pairing code, each with one session, built over the
      monitor of one wormhole. */
  ghost function Pair(fails: nat, burns: nat, lastA: Option<nat>, lastB: Option<nat>, cachedA: Option<Key>): World {
    var cfg := Config(Tofu, Some(CODE));
    World(Disk({}, Absent), [Monitor(true, fails, false, 0, burns)],
          [Auth(cfg, [], lastA, 0), Auth(cfg, [], lastB, 0)], [Session(0, cachedA), Session(1, None)])
  }

  function Guess(s: nat, now: nat): Event {
    Password(s, "x", Io(now, ReadOk([]), true))
  }

  function Present(now: nat): Event {
    PublicKey(0, KEY, Io(now, ReadOk([]), true))
  }

  /** A call of one of the pair that leaves everything else alone. */
  ghost predicate PairStep(w: World, e: Event, deed: Deed, w': World) {
    && w.Valid() && IsCall(e) && Enabled(w, e) && w' == Step(w, e)
    && OutcomeOf(w, e).deed == deed && w.AuthOf(e.session).monitor == 0
  }

  lemma GuessOnPair(fails: nat, burns: nat, lastA: Option<nat>, lastB: Option<nat>, cachedA: Option<Key>,
                    s: nat, now: nat)
    requires s < 2 && fails < MAX_FAILURES
    ensures PairStep(Pair(fails, burns, lastA, lastB, cachedA), Guess(s, now), Failed,
                     Pair(fails + 1, burns + if fails + 1 >= MAX_FAILURES then 1 else 0,
                          if s == 0 then Some(now) else lastA, if s == 1 then Some(now) else lastB,
                          if s == 0 then None else cachedA))
  {
  }

  /** Presenting a key lets the counter decay by the presenter's own clock and does
      not stamp that clock. */
  lemma PresentOnPair(burns: nat, lastA: nat, lastB: Option<nat>, cachedA: Option<Key>, now: nat)
    requires now > lastA + LOCKOUT_WINDOW
    ensures PairStep(Pair(MAX_FAILURES, burns, Some(lastA), lastB, cachedA), Present(now), Neutral,
                     Pair(0, burns, Some(lastA), lastB, Some(KEY)))
  {
  }

  /** A round: the second authenticator has filled the counter, the first presents a
      key, and the second guesses three times. */
  ghost function Round(phase: nat, round: nat, cachedA: Option<Key>): World {
    Pair(if phase == 0 then 3 else phase - 1, 1 + round, Some(0), Some(LATER), cachedA)
  }

  /** One wrong guess of the first authenticator, much later two of the second, and
      from then on round after round. */
  ghost function PairRun(i: nat): World {
    if i == 0 then Pair(0, 0, None, None, None)
    else if i < 3 then Pair(i, 0, Some(0), if i == 1 then None else Some(LATER), None)
    else Round((i - 3) % 4, (i - 3) / 4, if i == 3 then None else Some(KEY))
  }

  function PairEvent(i: nat): Event {
    if i == 0 then Guess(0, 0)
    else if i >= 3 && (i - 3) % 4 == 0 then Present(LATER)
    else Guess(1, LATER)
  }

  lemma NextPhase(j: nat)
    ensures (j + 1) % 4 == (if j % 4 == 3 then 0 else j % 4 + 1)
    ensures (j + 1) / 4 == j / 4 + if j % 4 == 3 then 1 else 0
  {
  }

  lemma PhaseStep(phase: nat, round: nat, cachedA: Option<Key>)
    requires phase < 4 && (phase > 0 ==> cachedA == Some(KEY))
    ensures PairStep(Round(phase, round, cachedA), if phase == 0 then Present(LATER) else Guess(1, LATER),
                     if phase == 0 then Neutral else Failed,
                     if phase == 3 then Round(0, round + 1, cachedA) else Round(phase + 1, round, Some(KEY)))
  {
    if phase == 0 {
      PresentOnPair(1 + round, 0, Some(LATER), cachedA, LATER);
    } else {
      GuessOnPair(phase - 1, 1 + round, Some(0), Some(LATER), cachedA, 1, LATER);
    }
  }

  lemma RoundSteps(i: nat)
    requires i >= 3
    ensures PairStep(PairRun(i), PairEvent(i), if PairEvent(i).Password? then Failed else Neutral, PairRun(i + 1))
  {
    NextPhase(i - 3);
    PhaseStep((i - 3) % 4, (i - 3) / 4, if i == 3 then None else Some(KEY));
  }

  lemma PairRunSteps(i: nat)
    ensures PairStep(PairRun(i), PairEvent(i), if PairEvent(i).Password? then Failed else Neutral, PairRun(i + 1))
  {
    if i == 0 {
      GuessOnPair(0, 0, None, None, None, 0, 0);
    } else if i < 3 {
      GuessOnPair(i, 0, Some(0), if i == 1 then None else Some(LATER), None, 1, LATER);
    } else {
      RoundSteps(i);
    }
  }

  ghost predicate PairStepAt(ws: seq<World>, es: seq<Event>, i: nat)
    requires |ws| == |es| + 1 && i < |es|
  {
    PairStep(ws[i], es[i], if es[i].Password? then Failed else Neutral, ws[i + 1])
  }

  lemma PairStepsAreARun(ws: seq<World>, es: seq<Event>)
    requires |ws| == |es| + 1 && |es| > 0
    requires forall i | 0 <= i < |es| :: PairStepAt(ws, es, i)
    ensures IsRun(ws, es)
  {
    assert PairStepAt(ws, es, |es| - 1) && ws[|es|].Valid();
    forall i | 0 <= i < |es|
      ensures ws[i].Valid() && StepAt(ws, es, i)
    {
      assert PairStepAt(ws, es, i);
    }
  }

  lemma PairStepDoes(ws: seq<World>, es: seq<Event>, i: nat)
    requires IsRun(ws, es) && i < |es| && PairStepAt(ws, es, i)
    ensures !ClearsAt(ws, es, i, 0) && (es[i].Password? ==> FailsAt(ws, es, i, 0))
  {
  }

  ghost predicate IsPairRun(ws: seq<World>, es: seq<Event>) {
    && |ws| == |es| + 1 && |es| > 0
    && (forall i | 0 <= i < |ws| :: ws[i] == PairRun(i))
    && (forall i | 0 <= i < |es| :: es[i] == PairEvent(i))
  }

  lemma PairRunIsRun(ws: seq<World>, es: seq<Event>)
    requires IsPairRun(ws, es)
    ensures IsRun(ws, es)
    ensures forall i: nat | i < |es| :: !ClearsAt(ws, es, i, 0) && (es[i].Password? ==> FailsAt(ws, es, i, 0))
  {
    forall i | 0 <= i < |es|
      ensures PairStepAt(ws, es, i)
    {
      PairRunSteps(i);
    }
    PairStepsAreARun(ws, es);
    forall i: nat | i < |es|
      ensures !ClearsAt(ws, es, i, 0) && (es[i].Password? ==> FailsAt(ws, es, i, 0))
    {
      PairStepDoes(ws, es, i);
    }
  }

  /** The second guess of each round. */
  function RoundPosition(k: nat): nat {
    4 + 4 * k
  }

  lemma RoundEvent(k: nat)
    ensures PairEvent(RoundPosition(k)) == Guess(1, LATER)
  {
  }

  lemma PairEventsInOrder(ws: seq<World>, es: seq<Event>)
    requires IsPairRun(ws, es)
    ensures ClockMonotone(es) && ws[0] == Pair(0, 0, None, None, None)
  {
    assert forall i | 0 <= i < |es| :: es[i].io.now == if i == 0 then 0 else LATER;
  }

  lemma RoundsFail(ws: seq<World>, es: seq<Event>, f: seq<nat>)
    requires IsPairRun(ws, es) && |es| == RoundPosition(|f|)
    requires forall k | 0 <= k < |f| :: f[k] == RoundPosition(k)
    ensures IsRun(ws, es) && FailureList(ws, es, 0, f)
    ensures forall k | 0 <= k < |f| :: es[f[k]].io.now == LATER
  {
    PairRunIsRun(ws, es);
    forall k | 0 <= k < |f|
      ensures FailsAt(ws, es, f[k], 0) && es[f[k]].io.now == LATER
    {
      RoundEvent(k);
      assert es[f[k]] == Guess(1, LATER);
    }
  }

  /** Without that proviso there may be no bound at all. Authenticators built over one
      monitor keep separate failure clocks, as the pairing connections of a wormhole
      do; one whose own failure is old wipes what the other has just counted by
      presenting a key. So any number of failures is recorded at a single instant,
      with no success anywhere. */
  lemma SharedMonitorEscapesRateBound(n: nat)
    ensures exists ws: seq<World>, es: seq<Event>, f: seq<nat> ::
              && IsRun(ws, es) && ClockMonotone(es) && ws[0] == Pair(0, 0, None, None, None)
              && FailureList(ws, es, 0, f) && |f| == n
              && (forall i: nat | i < |es| :: !ClearsAt(ws, es, i, 0))
              && (forall k | 0 <= k < n :: es[f[k]].io.now == LATER)
  {
    var length := RoundPosition(n);
    var ws: seq<World> := seq(length + 1, i requires i >= 0 => PairRun(i));
    var es: seq<Event> := seq(length, i requires i >= 0 => PairEvent(i));
    var f: seq<nat> := seq(n, k requires k >= 0 => RoundPosition(k));
    PairRunIsRun(ws, es);
    PairEventsInOrder(ws, es);
    RoundsFail(ws, es, f);
  }

  // ---- When the lock opens -----------------------------------------------------------

  /** When a call is turned away: exactly while the counter is full and the caller's
      failure clock shows no failure older than the window. It then changes nothing,
      right password or not. */
  lemma FullCounterShutsOut(w: World, e: Event)
    requires w.Valid() && Enabled(w, e) && IsCall(e)
    ensures var o, l := OutcomeOf(w, e), w.ViewOf(e.session).limiter;
            && (o.deed.Blocked? <==>
                  l.fails >= MAX_FAILURES && !(l.last.Some? && e.io.now > l.last.value + LOCKOUT_WINDOW))
            && (o.deed.Blocked? ==> o.reply == Reject && Step(w, e) == w)
  {
  }

  /** A full counter is shut for good exactly to those who have not failed themselves. */
  lemma ShutForGoodExactly(l: Limiter)
    ensures (forall now: nat :: Blocks(l, now)) <==> l.fails >= MAX_FAILURES && l.last.None?
  {
    if l.last.Some? {
      assert !Blocks(l, l.last.value + LOCKOUT_WINDOW + 1);
    } else if l.fails < MAX_FAILURES {
      assert !Blocks(l, 0);
    }
  }

  /** Over any run in which only authenticators without a failure of their own use a
      full counter, every call is refused and the counter stays full: for them no
      window ever opens. */
  lemma {:induction false} NoClockNoWindow(ws: seq<World>, es: seq<Event>, lo: nat, hi: nat, m: nat)
    requires IsRun(ws, es) && lo <= hi <= |es|
    requires m < |ws[lo].monitors| && ws[lo].monitors[m].fails >= MAX_FAILURES
    requires forall i | lo <= i < hi && CallAt(ws, es, i) && MonitorAt(ws, es, i) == m :: AuthAt(ws, es, i).last.None?
    ensures m < |ws[hi].monitors| && ws[hi].monitors[m] == ws[lo].monitors[m]
    ensures forall i | lo <= i < hi && CallAt(ws, es, i) && MonitorAt(ws, es, i) == m ::
              CallOutcome(ws, es, i).reply == Reject && ws[i + 1] == ws[i]
    decreases hi - lo
  {
    if lo < hi {
      NoClockNoWindow(ws, es, lo, hi - 1, m);
      NoClockStep(ws, es, hi - 1, m);
    }
  }

  lemma NoClockStep(ws: seq<World>, es: seq<Event>, i: nat, m: nat)
    requires IsRun(ws, es) && i < |es|
    requires m < |ws[i].monitors| && ws[i].monitors[m].fails >= MAX_FAILURES
    requires CallAt(ws, es, i) && MonitorAt(ws, es, i) == m ==> AuthAt(ws, es, i).last.None?
    ensures m < |ws[i + 1].monitors| && ws[i + 1].monitors[m] == ws[i].monitors[m]
    ensures CallAt(ws, es, i) && MonitorAt(ws, es, i) == m ==>
              CallOutcome(ws, es, i).reply == Reject && ws[i + 1] == ws[i]
  {
    assert StepAt(ws, es, i);
    if CallAt(ws, es, i) && MonitorAt(ws, es, i) == m {
      FullCounterShutsOut(ws[i], es[i]);
    } else {
      MonitorStep(ws, es, i, m);
    }
  }

  /** What i wrong guesses over the first connection leave behind. */
  ghost function Guessed(i: nat): World {
    Pair(i, if i == 3 then 1 else 0, if i == 0 then None else Some(0), None, None)
  }

  lemma GuessesAreARun(ws: seq<World>, es: seq<Event>)
    requires |ws| == 4 && |es| == 3
    requires forall i | 0 <= i < 4 :: ws[i] == Guessed(i)
    requires forall i | 0 <= i < 3 :: es[i] == Guess(0, 0)
    ensures IsRun(ws, es)
    ensures forall i: nat | i < 3 :: FailsAt(ws, es, i, 0)
  {
    forall i | 0 <= i < 3
      ensures PairStepAt(ws, es, i)
    {
      GuessOnPair(i, 0, if i == 0 then None else Some(0), None, None, 0, 0);
    }
    PairStepsAreARun(ws, es);
    forall i: nat | i < 3
      ensures FailsAt(ws, es, i, 0)
    {
      PairStepDoes(ws, es, i);
    }
  }

  lemma SecondConnectionIsShutOut(e: Event)
    requires IsCall(e) && e.session == 1 && Guessed(3).Valid() && Enabled(Guessed(3), e)
    ensures OutcomeOf(Guessed(3), e).reply == Reject && Step(Guessed(3), e) == Guessed(3)
  {
    FullCounterShutsOut(Guessed(3), e);
  }

  /** Such a state is reached: three wrong guesses over one pairing connection, and
      another connection that has never failed is turned away whenever it calls. */
  lemma StrangersFailuresShutOut()
    ensures exists ws: seq<World>, es: seq<Event> ::
              && IsRun(ws, es) && |es| == 3 && ws[0] == Pair(0, 0, None, None, None)
              && (forall i: nat | i < 3 :: FailsAt(ws, es, i, 0) && es[i].session == 0)
              && (forall e | IsCall(e) && e.session == 1 && Enabled(ws[3], e) ::
                    OutcomeOf(ws[3], e).reply == Reject && Step(ws[3], e) == ws[3])
  {
    var ws := [Guessed(0), Guessed(1), Guessed(2), Guessed(3)];
    var es := [Guess(0, 0), Guess(0, 0), Guess(0, 0)];
    GuessesAreARun(ws, es);
    forall e | IsCall(e) && e.session == 1 && Enabled(ws[3], e)
      ensures OutcomeOf(ws[3], e).reply == Reject && Step(ws[3], e) == ws[3]
    {
      SecondConnectionIsShutOut(e);
    }
  }
}
