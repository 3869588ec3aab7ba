/** Which sharings of a monitor keep the rate bound. */
module AuthSharing {
  import opened Options
  import opened RateLimiter
  import opened UnifiedPolicy
  import opened AuthRuns
  import opened AuthTheorems
  import opened AuthRates

  // ---- A bound for any number of sharers ---------------------------------------------

  /** Only authenticators in `sharers` ever use monitor `m`. */
  ghost predicate SharedAmong(ws: seq<World>, m: nat, sharers: set<nat>) {
    forall i, b | 0 <= i < |ws| && 0 <= b < |ws[i].auths| && ws[i].auths[b].monitor == m :: b in sharers
  }

  /** Failures recorded on `m` from position `k` up to `n`, and who recorded them. */
  ghost function FailureCount(ws: seq<World>, es: seq<Event>, k: nat, n: nat, m: nat): nat
    requires IsRun(ws, es)
    decreases n
  {
    if n <= k then 0 else FailureCount(ws, es, k, n - 1, m) + if FailsAt(ws, es, n - 1, m) then 1 else 0
  }

  ghost function Authors(ws: seq<World>, es: seq<Event>, k: nat, n: nat, m: nat): set<nat>
    requires IsRun(ws, es)
    decreases n
  {
    if n <= k then {}
    else Authors(ws, es, k, n - 1, m) + if FailsAt(ws, es, n - 1, m) then {AuthIndexAt(ws, es, n - 1)} else {}
  }

  /** Neither a success nor a decay without a failure happens on `m` at `i`. */
  ghost predicate CalmAt(ws: seq<World>, es: seq<Event>, i: nat, m: nat)
    requires IsRun(ws, es) && i < |es|
  {
    !ClearsAt(ws, es, i, m) && !(m < |ws[i].monitors| && DecaysAt(ws, es, i, m))
  }

  /** Whoever failed since has a clock that shows it. */
  ghost predicate ClocksShow(w: World, authors: set<nat>, since: nat) {
    forall b | b in authors :: b < |w.auths| && w.auths[b].last.Some? && w.auths[b].last.value >= since
  }

  lemma ClocksKeepShowing(w: World, e: Event, authors: set<nat>, since: nat)
    requires w.Valid() && Enabled(w, e) && ClocksShow(w, authors, since) && (IsCall(e) ==> since <= e.io.now)
    ensures ClocksShow(Step(w, e), authors, since)
  {
    forall b | b in authors
      ensures b < |Step(w, e).auths| && Step(w, e).auths[b].last.Some? && Step(w, e).auths[b].last.value >= since
    {
      ClockStep(w, e, b);
    }
  }

  /** A failure that finds the counter full inside the window is of somebody who has
      not failed since the window began. */
  lemma DecayingAuthorIsNew(ws: seq<World>, es: seq<Event>, n: nat, m: nat, authors: set<nat>, since: nat)
    requires IsRun(ws, es) && FailsAt(ws, es, n, m) && ClocksShow(ws[n], authors, since)
    requires es[n].io.now <= since + LOCKOUT_WINDOW
    requires m < |ws[n].monitors| && ws[n].monitors[m].fails >= MAX_FAILURES
    ensures AuthIndexAt(ws, es, n) !in authors
  {
    assert StepAt(ws, es, n);
  }

  /** Inside one window each sharer lets a full counter decay at most once, so every
      failure is on the counter or among the three that one of them threw away. */
  ghost predicate Balanced(ws: seq<World>, es: seq<Event>, k: nat, n: nat, m: nat)
    requires IsRun(ws, es) && k < n <= |es| && CallAt(ws, es, k)
  {
    && m < |ws[n].monitors| && 1 <= ws[n].monitors[m].fails <= MAX_FAILURES
    && Authors(ws, es, k, n, m) != {} && ClocksShow(ws[n], Authors(ws, es, k, n, m), es[k].io.now)
    && FailureCount(ws, es, k, n, m) <= ws[n].monitors[m].fails + 3 * (|Authors(ws, es, k, n, m)| - 1)
  }

  lemma WindowOpens(ws: seq<World>, es: seq<Event>, k: nat, m: nat)
    requires IsRun(ws, es) && FailsAt(ws, es, k, m)
    ensures Balanced(ws, es, k, k + 1, m)
  {
    assert StepAt(ws, es, k);
    MonitorStep(ws, es, k, m);
    ClockStep(ws[k], es[k], AuthIndexAt(ws, es, k));
    assert Authors(ws, es, k, k, m) == {} && FailureCount(ws, es, k, k, m) == 0;
    assert Authors(ws, es, k, k + 1, m) == {AuthIndexAt(ws, es, k)};
  }

  lemma BalanceStep(ws: seq<World>, es: seq<Event>, k: nat, n: nat, m: nat)
    requires IsRun(ws, es) && k < n < |es| && FailsAt(ws, es, k, m) && Balanced(ws, es, k, n, m)
    requires CalmAt(ws, es, n, m)
    requires IsCall(es[n]) ==> es[k].io.now <= es[n].io.now <= es[k].io.now + LOCKOUT_WINDOW
    ensures Balanced(ws, es, k, n + 1, m)
  {
    var authors := Authors(ws, es, k, n, m);
    assert StepAt(ws, es, n);
    MonitorStep(ws, es, n, m);
    ClocksKeepShowing(ws[n], es[n], authors, es[k].io.now);
    if FailsAt(ws, es, n, m) {
      var b := AuthIndexAt(ws, es, n);
      ClockStep(ws[n], es[n], b);
      if ws[n].monitors[m].fails >= MAX_FAILURES {
        DecayingAuthorIsNew(ws, es, n, m, authors, es[k].io.now);
        assert |authors + {b}| == |authors| + 1;
      } else {
        SubsetIsSmaller(authors, authors + {b});
      }
    } else {
      assert authors + {} == authors;
    }
  }

  lemma SubsetIsSmaller(a: set<nat>, b: set<nat>)
    requires a <= b
    ensures |a| <= |b|
  {
    assert b == a + (b - a);
  }

  lemma {:induction false} WindowStaysBalanced(ws: seq<World>, es: seq<Event>, k: nat, n: nat, m: nat)
    requires IsRun(ws, es) && ClockMonotone(es) && k < n <= |es| && FailsAt(ws, es, k, m)
    requires forall i | k < i < n :: CalmAt(ws, es, i, m)
    requires forall i | k < i < n && IsCall(es[i]) :: es[i].io.now <= es[k].io.now + LOCKOUT_WINDOW
    ensures Balanced(ws, es, k, n, m)
    decreases n
  {
    if n == k + 1 {
      WindowOpens(ws, es, k, m);
    } else {
      WindowStaysBalanced(ws, es, k, n - 1, m);
      assert IsCall(es[n - 1]) ==> es[k].io.now <= es[n - 1].io.now;
      BalanceStep(ws, es, k, n - 1, m);
    }
  }

  lemma {:induction false} AuthorsShare(ws: seq<World>, es: seq<Event>, k: nat, n: nat, m: nat, sharers: set<nat>)
    requires IsRun(ws, es) && SharedAmong(ws, m, sharers) && n <= |es|
    ensures Authors(ws, es, k, n, m) <= sharers
    decreases n
  {
    if n > k {
      AuthorsShare(ws, es, k, n - 1, m, sharers);
      if FailsAt(ws, es, n - 1, m) {
        assert StepAt(ws, es, n - 1);
        assert ws[n - 1].auths[AuthIndexAt(ws, es, n - 1)].monitor == m;
      }
    }
  }

  lemma {:induction false} CountGrows(ws: seq<World>, es: seq<Event>, k: nat, n: nat, n': nat, m: nat)
    requires IsRun(ws, es) && n <= n'
    ensures FailureCount(ws, es, k, n, m) <= FailureCount(ws, es, k, n', m)
    decreases n'
  {
    if n < n' {
      CountGrows(ws, es, k, n, n' - 1, m);
    }
  }

  lemma {:induction false} ListIsCounted(ws: seq<World>, es: seq<Event>, m: nat, f: seq<nat>, j: nat)
    requires IsRun(ws, es) && FailureList(ws, es, m, f) && j < |f|
    ensures FailureCount(ws, es, f[0], f[j] + 1, m) > j
  {
    if j > 0 {
      ListIsCounted(ws, es, m, f, j - 1);
      assert f[0] <= f[j - 1] < f[j];
      CountGrows(ws, es, f[0], f[j - 1] + 1, f[j], m);
    }
  }

  lemma ManyFailuresOutliveWindow(ws: seq<World>, es: seq<Event>, m: nat, sharers: set<nat>, f: seq<nat>)
    requires IsRun(ws, es) && ClockMonotone(es) && SharedAmong(ws, m, sharers)
    requires FailureList(ws, es, m, f) && |f| > 3 * |sharers|
    requires forall i | f[0] < i <= f[3 * |sharers|] :: CalmAt(ws, es, i, m)
    ensures es[f[3 * |sharers|]].io.now - es[f[0]].io.now > LOCKOUT_WINDOW
  {
    var j := 3 * |sharers|;
    var k, n := f[0], f[j] + 1;
    if es[f[j]].io.now <= es[k].io.now + LOCKOUT_WINDOW {
      assert k <= f[j];
      assert forall i | k < i < n && IsCall(es[i]) :: es[i].io.now <= es[f[j]].io.now;
      WindowStaysBalanced(ws, es, k, n, m);
      ListIsCounted(ws, es, m, f, j);
      AuthorsShare(ws, es, k, n, m, sharers);
      SubsetIsSmaller(Authors(ws, es, k, n, m), sharers);
      assert false;
    }
  }

  /** The rate bound of k authenticators over one monitor: n failures take at least 60 * q
      seconds for every q with 3 * k * q <= n - 1, where nothing in between succeeds or
      lets the counter decay without failing. */
  lemma {:induction false} RateBoundOfMany(ws: seq<World>, es: seq<Event>, m: nat, sharers: set<nat>,
                                           f: seq<nat>, q: nat)
    requires IsRun(ws, es) && ClockMonotone(es) && SharedAmong(ws, m, sharers)
    requires FailureList(ws, es, m, f) && 3 * |sharers| * q < |f|
    requires forall i | f[0] < i <= f[|f| - 1] :: CalmAt(ws, es, i, m)
    ensures es[f[|f| - 1]].io.now - es[f[0]].io.now >= LOCKOUT_WINDOW * q
    decreases q
  {
    if q == 0 {
      assert |f| > 1 ==> es[f[0]].io.now <= es[f[|f| - 1]].io.now;
    } else {
      var g := 3 * |sharers|;
      assert g * q == g + g * (q - 1);
      DropList(ws, es, m, f, g);
      ManyFailuresOutliveWindow(ws, es, m, sharers, f);
      RateBoundOfMany(ws, es, m, sharers, f[g..], q - 1);
    }
  }

  lemma DropList(ws: seq<World>, es: seq<Event>, m: nat, f: seq<nat>, g: nat)
    requires IsRun(ws, es) && FailureList(ws, es, m, f) && g < |f|
    ensures FailureList(ws, es, m, f[g..]) && f[0] <= f[g] <= f[|f| - 1]
    ensures f[g..][0] == f[g] && f[g..][|f[g..]| - 1] == f[|f| - 1]
  {
  }

  ghost predicate Uses(w: World, a: nat, m: nat) {
    a < |w.auths| && w.auths[a].monitor == m
  }

  // ---- Strict sharers -----------------------------------------------------------------

  /** Every authenticator that uses `m` is strict and its sessions hold no key. */
  ghost predicate StrictSlots(w: World, m: nat) {
    && (forall b | 0 <= b < |w.auths| && w.auths[b].monitor == m :: w.auths[b].config.policy.Strict?)
    && (forall s | 0 <= s < |w.sessions| && Uses(w, w.sessions[s].auth, m) :: w.sessions[s].cached == None)
  }

  lemma StrictCall(w: World, e: Event, m: nat)
    requires w.Valid() && Enabled(w, e) && IsCall(e) && StrictSlots(w, m) && w.AuthOf(e.session).monitor == m
    ensures !OutcomeOf(w, e).deed.Neutral? && OutcomeOf(w, e).view.cached == None
  {
    assert w.auths[w.sessions[e.session].auth].monitor == m;
    assert w.sessions[e.session].cached == None;
  }

  lemma StrictStep(w: World, e: Event, m: nat)
    requires w.Valid() && Enabled(w, e) && StrictSlots(w, m)
    requires e.NewAuth? && e.monitor == m ==> e.config.policy.Strict?
    ensures StrictSlots(Step(w, e), m)
  {
    if IsCall(e) {
      if w.AuthOf(e.session).monitor == m {
        StrictCall(w, e, m);
      }
      CallKeepsWiring(w, e);
    }
  }

  lemma CallKeepsWiring(w: World, e: Event)
    requires w.Valid() && Enabled(w, e) && IsCall(e)
    ensures var w' := Step(w, e);
            && |w'.auths| == |w.auths| && |w'.sessions| == |w.sessions| && |w'.monitors| == |w.monitors|
            && (forall b | 0 <= b < |w.auths| ::
                  w'.auths[b].monitor == w.auths[b].monitor && w'.auths[b].config == w.auths[b].config)
            && (forall s | 0 <= s < |w.sessions| ::
                  w'.sessions[s].auth == w.sessions[s].auth && (s != e.session ==> w'.sessions[s] == w.sessions[s]))
            && w'.sessions[e.session].cached == OutcomeOf(w, e).view.cached
  {
  }

  lemma {:induction false} StrictSlotsStay(ws: seq<World>, es: seq<Event>, m: nat, n: nat)
    requires IsRun(ws, es) && n <= |es| && StrictSlots(ws[0], m)
    requires forall i | 0 <= i < |es| && es[i].NewAuth? && es[i].monitor == m :: es[i].config.policy.Strict?
    ensures StrictSlots(ws[n], m)
  {
    if n > 0 {
      StrictSlotsStay(ws, es, m, n - 1);
      assert StepAt(ws, es, n - 1);
      StrictStep(ws[n - 1], es[n - 1], m);
    }
  }

  /** Strict authenticators never let the counter decay without failing, so for k of
      them over one monitor the bound holds without that proviso. */
  lemma RateBoundOfStrict(ws: seq<World>, es: seq<Event>, m: nat, sharers: set<nat>, f: seq<nat>, q: nat)
    requires IsRun(ws, es) && ClockMonotone(es) && SharedAmong(ws, m, sharers) && StrictSlots(ws[0], m)
    requires forall i | 0 <= i < |es| && es[i].NewAuth? && es[i].monitor == m :: es[i].config.policy.Strict?
    requires FailureList(ws, es, m, f) && 3 * |sharers| * q < |f|
    requires forall i | f[0] < i < f[|f| - 1] :: !ClearsAt(ws, es, i, m)
    ensures es[f[|f| - 1]].io.now - es[f[0]].io.now >= LOCKOUT_WINDOW * q
  {
    forall i | f[0] < i <= f[|f| - 1]
      ensures CalmAt(ws, es, i, m)
    {
      StrictSlotsStay(ws, es, m, i);
      assert StepAt(ws, es, i);
      if CallAt(ws, es, i) && MonitorAt(ws, es, i) == m {
        StrictCall(ws[i], es[i], m);
      }
    }
    RateBoundOfMany(ws, es, m, sharers, f, q);
  }

  // ---- Which sharings keep the bound of one ---------------------------------------------

  /** The failures listed, if nothing between them succeeds, take the time they should. */
  ghost predicate Bounded(ws: seq<World>, es: seq<Event>, m: nat, f: seq<nat>)
    requires IsRun(ws, es)
  {
    FailureList(ws, es, m, f) && |f| > 0 && (forall i | f[0] < i < f[|f| - 1] :: !ClearsAt(ws, es, i, m)) ==>
      es[f[|f| - 1]].io.now - es[f[0]].io.now >= LOCKOUT_WINDOW * ((|f| - 1) / 3)
  }

  ghost predicate MeetsBound(ws: seq<World>, es: seq<Event>, m: nat)
    requires IsRun(ws, es)
  {
    forall f: seq<nat> :: Bounded(ws, es, m, f)
  }

  /** A run from `w` with calls from time `t` on, in which `m` gets no new user. */
  ghost predicate RunFrom(ws: seq<World>, es: seq<Event>, w: World, m: nat, t: nat) {
    && IsRun(ws, es) && ws[0] == w && ClockMonotone(es)
    && (forall i | 0 <= i < |es| && IsCall(es[i]) :: es[i].io.now >= t)
    && (forall i | 0 <= i < |es| && es[i].NewAuth? :: es[i].monitor != m)
  }

  ghost predicate KeepsBound(w: World, m: nat, t: nat) {
    forall ws: seq<World>, es: seq<Event> | RunFrom(ws, es, w, m, t) :: MeetsBound(ws, es, m)
  }

  ghost predicate AtMostOneUser(w: World, m: nat) {
    forall a: nat, b: nat | Uses(w, a, m) && Uses(w, b, m) :: a == b
  }

  /** The counter is full and no user of it has a failure time: nobody is ever let in. */
  ghost predicate ShutToAll(w: World, m: nat) {
    && m < |w.monitors| && w.monitors[m].fails >= MAX_FAILURES
    && forall a: nat | Uses(w, a, m) :: w.auths[a].last.None?
  }

  // ---- These do ---------------------------------------------------------------------------

  lemma UsersStay(w: World, e: Event, m: nat)
    requires w.Valid() && Enabled(w, e) && (e.NewAuth? ==> e.monitor != m)
    ensures forall a: nat :: Uses(Step(w, e), a, m) <==> Uses(w, a, m)
  {
    if IsCall(e) {
      CallKeepsWiring(w, e);
    }
  }

  lemma {:induction false} UsersAreThoseOfTheStart(ws: seq<World>, es: seq<Event>, w: World, m: nat, t: nat, n: nat)
    requires RunFrom(ws, es, w, m, t) && n <= |es|
    ensures forall a: nat :: Uses(ws[n], a, m) <==> Uses(w, a, m)
  {
    if n > 0 {
      UsersAreThoseOfTheStart(ws, es, w, m, t, n - 1);
      assert StepAt(ws, es, n - 1);
      UsersStay(ws[n - 1], es[n - 1], m);
    }
  }

  lemma OneUserKeepsBound(w: World, m: nat, t: nat)
    requires AtMostOneUser(w, m)
    ensures KeepsBound(w, m, t)
  {
    forall ws: seq<World>, es: seq<Event>, f: seq<nat> | RunFrom(ws, es, w, m, t)
      ensures Bounded(ws, es, m, f)
    {
      OneUserIsBounded(ws, es, w, m, t, f);
    }
  }

  lemma OneUserIsBounded(ws: seq<World>, es: seq<Event>, w: World, m: nat, t: nat, f: seq<nat>)
    requires AtMostOneUser(w, m) && RunFrom(ws, es, w, m, t)
    ensures Bounded(ws, es, m, f)
  {
    if FailureList(ws, es, m, f) && |f| > 0 && (forall i | f[0] < i < f[|f| - 1] :: !ClearsAt(ws, es, i, m)) {
      var a := AuthIndexAt(ws, es, f[0]);
      UsersAreThoseOfTheStart(ws, es, w, m, t, f[0]);
      assert Uses(ws[f[0]], a, m) by {
        assert StepAt(ws, es, f[0]);
      }
      forall i, b | 0 <= i < |ws| && 0 <= b < |ws[i].auths| && ws[i].auths[b].monitor == m
        ensures b == a
      {
        UsersAreThoseOfTheStart(ws, es, w, m, t, i);
        assert Uses(ws[i], b, m);
      }
      RateBoundOfOne(ws, es, m, a, f);
    }
  }

  lemma ShutStep(ws: seq<World>, es: seq<Event>, i: nat, m: nat)
    requires IsRun(ws, es) && i < |es| && ShutToAll(ws[i], m) && (es[i].NewAuth? ==> es[i].monitor != m)
    ensures ShutToAll(ws[i + 1], m) && !FailsAt(ws, es, i, m)
  {
    assert StepAt(ws, es, i);
    if CallAt(ws, es, i) && MonitorAt(ws, es, i) == m {
      assert Uses(ws[i], AuthIndexAt(ws, es, i), m);
      NoClockStep(ws, es, i, m);
    } else {
      NoClockStep(ws, es, i, m);
      UsersStay(ws[i], es[i], m);
      var after := ws[i + 1];
      forall a: nat | Uses(after, a, m)
        ensures after.auths[a].last.None?
      {
        assert Uses(ws[i], a, m);
        ClockStep(ws[i], es[i], a);
      }
    }
  }

  lemma {:induction false} ShutStays(ws: seq<World>, es: seq<Event>, w: World, m: nat, t: nat, n: nat)
    requires RunFrom(ws, es, w, m, t) && ShutToAll(w, m) && n <= |es|
    ensures ShutToAll(ws[n], m)
  {
    if n > 0 {
      ShutStays(ws, es, w, m, t, n - 1);
      ShutStep(ws, es, n - 1, m);
    }
  }

  lemma ShutKeepsBound(w: World, m: nat, t: nat)
    requires ShutToAll(w, m)
    ensures KeepsBound(w, m, t)
  {
    forall ws: seq<World>, es: seq<Event>, f: seq<nat> | RunFrom(ws, es, w, m, t)
      ensures Bounded(ws, es, m, f)
    {
      if |f| > 0 && FailsAt(ws, es, f[0], m) {
        ShutStays(ws, es, w, m, t, f[0]);
        ShutStep(ws, es, f[0], m);
      }
    }
  }

  // ---- The others do not --------------------------------------------------------------------

  lemma ShiftedRun(w: World, e: Event, ws: seq<World>, es: seq<Event>)
    requires w.Valid() && Enabled(w, e) && IsRun(ws, es) && ws[0] == Step(w, e)
    ensures IsRun([w] + ws, [e] + es)
  {
    var vs, ds := [w] + ws, [e] + es;
    forall i | 0 <= i < |ds|
      ensures StepAt(vs, ds, i)
    {
      assert i > 0 ==> StepAt(ws, es, i - 1);
    }
  }

  lemma ShiftedAt(w: World, e: Event, ws: seq<World>, es: seq<Event>, i: nat, m: nat)
    requires IsRun(ws, es) && IsRun([w] + ws, [e] + es)
    ensures FailsAt([w] + ws, [e] + es, i + 1, m) == FailsAt(ws, es, i, m)
    ensures ClearsAt([w] + ws, [e] + es, i + 1, m) == ClearsAt(ws, es, i, m)
  {
    assert i < |es| ==> ([w] + ws)[i + 1] == ws[i] && ([e] + es)[i + 1] == es[i];
  }

  /** A step away from a sharing that keeps the bound leads to one that keeps it. */
  lemma KeepsBoundAfter(w: World, e: Event, m: nat, t: nat, t': nat)
    requires KeepsBound(w, m, t) && w.Valid() && Enabled(w, e) && t <= t'
    requires (IsCall(e) ==> t <= e.io.now <= t') && (e.NewAuth? ==> e.monitor != m)
    ensures KeepsBound(Step(w, e), m, t')
  {
    var after := Step(w, e);
    forall ws: seq<World>, es: seq<Event>, f: seq<nat> | RunFrom(ws, es, after, m, t')
      ensures Bounded(ws, es, m, f)
    {
      ShiftedRunFrom(w, e, m, t, t', ws, es);
      assert MeetsBound([w] + ws, [e] + es, m);
      ShiftedBound(w, e, m, ws, es, f);
    }
  }

  /** What holds of the longer run holds of its tail. */
  lemma ShiftedBound(w: World, e: Event, m: nat, ws: seq<World>, es: seq<Event>, f: seq<nat>)
    requires w.Valid() && Enabled(w, e) && IsRun(ws, es) && ws[0] == Step(w, e)
    requires IsRun([w] + ws, [e] + es) && Bounded([w] + ws, [e] + es, m, Shifted(f))
    ensures Bounded(ws, es, m, f)
  {
    if FailureList(ws, es, m, f) && |f| > 0 && (forall i | f[0] < i < f[|f| - 1] :: !ClearsAt(ws, es, i, m)) {
      ShiftedList(w, e, m, ws, es, f);
      ShiftedCalm(w, e, m, ws, es, f[0] + 1, f[|f| - 1]);
      assert ([e] + es)[f[0] + 1] == es[f[0]];
      assert ([e] + es)[f[|f| - 1] + 1] == es[f[|f| - 1]];
    }
  }

  /** Every position one later. */
  function Shifted(f: seq<nat>): (g: seq<nat>)
    ensures |g| == |f| && forall k | 0 <= k < |f| :: g[k] == f[k] + 1
  {
    seq(|f|, k requires 0 <= k < |f| => f[k] + 1)
  }

  lemma ShiftedRunFrom(w: World, e: Event, m: nat, t: nat, t': nat, ws: seq<World>, es: seq<Event>)
    requires w.Valid() && Enabled(w, e) && t <= t'
    requires (IsCall(e) ==> t <= e.io.now <= t') && (e.NewAuth? ==> e.monitor != m)
    requires RunFrom(ws, es, Step(w, e), m, t')
    ensures RunFrom([w] + ws, [e] + es, w, m, t)
  {
    var ds := [e] + es;
    ShiftedRun(w, e, ws, es);
    assert forall i | 0 < i < |ds| :: ds[i] == es[i - 1];
  }

  lemma ShiftedList(w: World, e: Event, m: nat, ws: seq<World>, es: seq<Event>, f: seq<nat>)
    requires IsRun(ws, es) && IsRun([w] + ws, [e] + es)
    requires FailureList(ws, es, m, f)
    ensures FailureList([w] + ws, [e] + es, m, Shifted(f))
  {
    forall k | 0 <= k < |f|
      ensures FailsAt([w] + ws, [e] + es, Shifted(f)[k], m)
    {
      ShiftedAt(w, e, ws, es, f[k], m);
    }
  }

  lemma ShiftedCalm(w: World, e: Event, m: nat, ws: seq<World>, es: seq<Event>, lo: nat, hi: nat)
    requires IsRun(ws, es) && IsRun([w] + ws, [e] + es)
    requires forall i: nat | lo <= i < hi :: !ClearsAt(ws, es, i, m)
    ensures forall i: nat | lo < i < hi + 1 :: !ClearsAt([w] + ws, [e] + es, i, m)
  {
    forall i: nat | lo < i < hi + 1
      ensures !ClearsAt([w] + ws, [e] + es, i, m)
    {
      ShiftedAt(w, e, ws, es, i - 1, m);
    }
  }

  /** Two users of `m`, each with a session, and a password file that refuses everybody. */
  datatype Duo = Duo(m: nat, a: nat, b: nat, x: nat, y: nat)

  ghost predicate Ready(w: World, d: Duo, fails: nat) {
    && w.Valid() && w.disk.shadow.Unreadable?
    && d.m < |w.monitors| && w.monitors[d.m].fails == fails
    && d.a != d.b && Uses(w, d.a, d.m) && Uses(w, d.b, d.m)
    && d.x != d.y && d.x < |w.sessions| && d.y < |w.sessions|
    && w.sessions[d.x].auth == d.a && w.sessions[d.y].auth == d.b
  }

  /** A wrong guess of one of the two. */
  ghost predicate GuessMade(w: World, d: Duo, first: bool, now: nat, w': World) {
    var e := Guess(if first then d.x else d.y, now);
    && w.Valid() && Enabled(w, e) && w' == Step(w, e)
    && OutcomeOf(w, e).deed == Failed && w.AuthOf(e.session).monitor == d.m
  }

  lemma GuessOfDuo(w: World, d: Duo, fails: nat, first: bool, now: nat) returns (w': World)
    requires Ready(w, d, fails)
    requires !Blocks(Limiter(fails, if first then w.auths[d.a].last else w.auths[d.b].last), now)
    ensures GuessMade(w, d, first, now, w') && Ready(w', d, if fails >= MAX_FAILURES then 1 else fails + 1)
    ensures w'.auths[d.a].last == if first then Some(now) else w.auths[d.a].last
    ensures w'.auths[d.b].last == if first then w.auths[d.b].last else Some(now)
    ensures w'.auths[d.a].config == w.auths[d.a].config && w'.auths[d.a].keys == w.auths[d.a].keys
  {
    var e := Guess(if first then d.x else d.y, now);
    w' := Step(w, e);
    CallKeepsWiring(w, e);
    CallMovesItsMonitor(w, e);
    ClockStep(w, e, d.a);
    ClockStep(w, e, d.b);
  }

  /** From one old failure of the first: two failures of the second, and the first
      wipes them and counts anew. */
  lemma FiveAtOnce(w: World, d: Duo, stale: nat, now: nat)
    requires Ready(w, d, 1) && w.auths[d.a].last == Some(stale) && now > stale + LOCKOUT_WINDOW
    ensures !KeepsBound(w, d.m, now)
  {
    var w1 := GuessOfDuo(w, d, 1, false, now);
    var w2 := GuessOfDuo(w1, d, 2, false, now);
    var w3 := GuessOfDuo(w2, d, 3, true, now);
    var w4 := GuessOfDuo(w3, d, 1, false, now);
    var w5 := GuessOfDuo(w4, d, 2, true, now);
    GuessesBreakBound([w, w1, w2, w3, w4, w5], [false, false, true, false, true], d, now);
  }

  ghost predicate GuessMadeAt(ws: seq<World>, who: seq<bool>, d: Duo, now: nat, i: nat)
    requires |ws| == |who| + 1 && i < |who|
  {
    GuessMade(ws[i], d, who[i], now, ws[i + 1])
  }

  lemma GuessesAreARun(ws: seq<World>, es: seq<Event>, who: seq<bool>, d: Duo, now: nat)
    requires |who| == |es| && |ws| == |es| + 1 && |es| > 0
    requires forall i | 0 <= i < |es| :: es[i] == Guess(if who[i] then d.x else d.y, now)
    requires forall i | 0 <= i < |es| :: GuessMadeAt(ws, who, d, now, i)
    ensures IsRun(ws, es)
  {
    assert GuessMadeAt(ws, who, d, now, |es| - 1);
    forall i | 0 <= i < |es|
      ensures ws[i].Valid() && StepAt(ws, es, i)
    {
      assert GuessMadeAt(ws, who, d, now, i);
    }
  }

  lemma GuessIsFailure(ws: seq<World>, es: seq<Event>, who: seq<bool>, d: Duo, now: nat, i: nat)
    requires |who| == |es| && IsRun(ws, es) && i < |es|
    requires es[i] == Guess(if who[i] then d.x else d.y, now) && GuessMadeAt(ws, who, d, now, i)
    ensures FailsAt(ws, es, i, d.m) && !ClearsAt(ws, es, i, d.m)
  {
  }

  lemma GuessesAreFailures(ws: seq<World>, es: seq<Event>, who: seq<bool>, d: Duo, now: nat)
    requires |who| == |es| && |ws| == |es| + 1 && |es| > 0
    requires forall i | 0 <= i < |es| :: es[i] == Guess(if who[i] then d.x else d.y, now)
    requires forall i | 0 <= i < |es| :: GuessMadeAt(ws, who, d, now, i)
    ensures RunFrom(ws, es, ws[0], d.m, now)
    ensures forall i: nat | i < |es| :: FailsAt(ws, es, i, d.m) && !ClearsAt(ws, es, i, d.m)
  {
    GuessesAreARun(ws, es, who, d, now);
    forall i: nat | i < |es|
      ensures FailsAt(ws, es, i, d.m) && !ClearsAt(ws, es, i, d.m)
    {
      GuessIsFailure(ws, es, who, d, now, i);
    }
  }

  lemma GuessesBreakBound(ws: seq<World>, who: seq<bool>, d: Duo, now: nat)
    requires |who| == 5 && |ws| == 6
    requires forall i | 0 <= i < 5 :: GuessMadeAt(ws, who, d, now, i)
    ensures !KeepsBound(ws[0], d.m, now)
  {
    var es := seq(5, i requires 0 <= i < 5 => Guess(if who[i] then d.x else d.y, now));
    var f: seq<nat> := [0, 1, 2, 3, 4];
    GuessesAreFailures(ws, es, who, d, now);
    assert FailureList(ws, es, d.m, f);
    assert !Bounded(ws, es, d.m, f);
    assert !MeetsBound(ws, es, d.m);
  }

  const ALL_PASSWORDS: PasswordHash := PasswordHash(_ => true)

  /** A user of `m` who is let in can clear the counter with the right password. */
  lemma ClearedByPassword(w: World, m: nat, c: nat, t: nat, now: nat) returns (w': World)
    requires w.Valid() && KeepsBound(w, m, t) && Uses(w, c, m) && t <= now
    requires !Blocks(Limiter(w.monitors[m].fails, w.auths[c].last), now)
    ensures w'.Valid() && KeepsBound(w', m, now) && m < |w'.monitors| && w'.monitors[m].fails == 0
    ensures forall a: nat :: Uses(w', a, m) <==> Uses(w, a, m)
  {
    var w1 := Step(w, NewSession(c));
    var w2 := Step(w1, SetShadow(Stored(ALL_PASSWORDS)));
    KeepsBoundAfter(w, NewSession(c), m, t, t);
    KeepsBoundAfter(w1, SetShadow(Stored(ALL_PASSWORDS)), m, t, t);
    var e := Guess(|w.sessions|, now);
    assert w2.AuthOf(e.session) == w.auths[c];
    assert OutcomeOf(w2, e).deed == Trusted;
    w' := Step(w2, e);
    KeepsBoundAfter(w2, e, m, t, now);
    CallMovesItsMonitor(w2, e);
    UsersStay(w2, e, m);
  }

  /** Two users of a clear counter break the bound, whatever their policies and codes. */
  lemma TwoUsersBreakBound(w: World, m: nat, a: nat, b: nat, t: nat)
    requires w.Valid() && m < |w.monitors| && w.monitors[m].fails == 0
    requires a != b && Uses(w, a, m) && Uses(w, b, m)
    ensures !KeepsBound(w, m, t)
  {
    if KeepsBound(w, m, t) {
      var d := Duo(m, a, b, |w.sessions|, |w.sessions| + 1);
      var w1 := Step(w, NewSession(a));
      var w2 := Step(w1, NewSession(b));
      var w3 := Step(w2, SetShadow(Unreadable));
      KeepsBoundAfter(w, NewSession(a), m, t, t);
      KeepsBoundAfter(w1, NewSession(b), m, t, t);
      KeepsBoundAfter(w2, SetShadow(Unreadable), m, t, t);
      assert Ready(w3, d, 0);
      var later := t + LOCKOUT_WINDOW + 1;
      var w4 := GuessOfDuo(w3, d, 0, true, t);
      KeepsBoundAfter(w3, Guess(d.x, t), m, t, later);
      FiveAtOnce(w4, d, t, later);
      assert false;
    }
  }

  /** The exact condition: over all runs from `w` in which `m` gets no new user, any n
      failures on `m` with no success in between take at least 60 * floor((n - 1) / 3)
      seconds, if and only if one authenticator at most uses `m`, or nobody is ever let
      in. It does not matter from which time on calls are made. */
  lemma RateBoundExactly(w: World, m: nat, t: nat)
    requires w.Valid() && m < |w.monitors|
    ensures KeepsBound(w, m, t) <==> AtMostOneUser(w, m) || ShutToAll(w, m)
  {
    if AtMostOneUser(w, m) {
      OneUserKeepsBound(w, m, t);
    } else if ShutToAll(w, m) {
      ShutKeepsBound(w, m, t);
    } else if KeepsBound(w, m, t) {
      var a: nat, b: nat :| Uses(w, a, m) && Uses(w, b, m) && a != b;
      var c, now := a, t;
      if w.monitors[m].fails >= MAX_FAILURES {
        c :| Uses(w, c, m) && w.auths[c].last.Some?;
        now := t + w.auths[c].last.value + LOCKOUT_WINDOW + 1;
      }
      var w' := ClearedByPassword(w, m, c, t, now);
      assert Uses(w', a, m) && Uses(w', b, m);
      TwoUsersBreakBound(w', m, a, b, now);
      assert false;
    }
  }

  // ---- When any number of failures fits into an instant --------------------------------------

  /** A run from `w` that records n failures on `m` at the time `now`, with no success
      on it at all. */
  ghost predicate Floods(ws: seq<World>, es: seq<Event>, f: seq<nat>, w: World, m: nat, t: nat, now: nat) {
    && RunFrom(ws, es, w, m, t) && FailureList(ws, es, m, f)
    && (forall i: nat | i < |es| :: !ClearsAt(ws, es, i, m))
    && (forall k | 0 <= k < |f| :: es[f[k]].io.now == now)
  }

  ghost predicate CanFlood(w: World, m: nat, t: nat, now: nat, n: nat) {
    exists ws: seq<World>, es: seq<Event>, f: seq<nat> :: Floods(ws, es, f, w, m, t, now) && |f| == n
  }

  /** A step that is no success on `m`. */
  ghost predicate Unhelpful(w: World, e: Event, m: nat)
    requires w.Valid() && Enabled(w, e)
  {
    && (e.NewAuth? ==> e.monitor != m)
    && (IsCall(e) && w.AuthOf(e.session).monitor == m ==> OutcomeOf(w, e).deed.Failed? || OutcomeOf(w, e).deed.Neutral?)
  }

  /** Such a step may come before a flood. */
  lemma FloodAfterStep(w: World, e: Event, m: nat, t: nat, t': nat, now: nat, n: nat)
    requires w.Valid() && Enabled(w, e) && Unhelpful(w, e, m) && (IsCall(e) ==> t <= e.io.now <= t')
    requires t <= t' && CanFlood(Step(w, e), m, t', now, n)
    ensures CanFlood(w, m, t, now, n)
  {
    var ws: seq<World>, es: seq<Event>, f: seq<nat> :| Floods(ws, es, f, Step(w, e), m, t', now) && |f| == n;
    ShiftedRunFrom(w, e, m, t, t', ws, es);
    ShiftedFlood(w, e, m, ws, es, f, now);
    assert Floods([w] + ws, [e] + es, Shifted(f), w, m, t, now);
  }

  lemma ShiftedFlood(w: World, e: Event, m: nat, ws: seq<World>, es: seq<Event>, f: seq<nat>, now: nat)
    requires w.Valid() && Enabled(w, e) && Unhelpful(w, e, m)
    requires IsRun(ws, es) && IsRun([w] + ws, [e] + es) && FailureList(ws, es, m, f)
    requires forall i: nat | i < |es| :: !ClearsAt(ws, es, i, m)
    requires forall k | 0 <= k < |f| :: es[f[k]].io.now == now
    ensures FailureList([w] + ws, [e] + es, m, Shifted(f))
    ensures forall i: nat | i < |[e] + es| :: !ClearsAt([w] + ws, [e] + es, i, m)
    ensures forall k | 0 <= k < |f| :: ([e] + es)[Shifted(f)[k]].io.now == now
  {
    ShiftedList(w, e, m, ws, es, f);
    ShiftedCalm(w, e, m, ws, es, 0, |es|);
    assert ([w] + ws)[0] == w && ([e] + es)[0] == e;
    assert forall k | 0 <= k < |f| :: ([e] + es)[f[k] + 1] == es[f[k]];
  }

  /** A failure at the same time adds to the flood. */
  lemma FloodGrows(w: World, e: Event, m: nat, now: nat, n: nat)
    requires w.Valid() && Enabled(w, e) && IsCall(e) && e.io.now == now
    requires w.AuthOf(e.session).monitor == m && OutcomeOf(w, e).deed.Failed?
    requires CanFlood(Step(w, e), m, now, now, n)
    ensures CanFlood(w, m, now, now, n + 1)
  {
    var ws: seq<World>, es: seq<Event>, f: seq<nat> :| Floods(ws, es, f, Step(w, e), m, now, now) && |f| == n;
    ShiftedRunFrom(w, e, m, now, now, ws, es);
    ShiftedFlood(w, e, m, ws, es, f, now);
    var vs, ds := [w] + ws, [e] + es;
    assert vs[0] == w && ds[0] == e;
    FirstFails(vs, ds, m, Shifted(f));
    assert Floods(vs, ds, [0] + Shifted(f), w, m, now, now);
  }

  lemma FirstFails(ws: seq<World>, es: seq<Event>, m: nat, f: seq<nat>)
    requires IsRun(ws, es) && FailureList(ws, es, m, f) && FailsAt(ws, es, 0, m) && forall k | 0 <= k < |f| :: f[k] > 0
    ensures FailureList(ws, es, m, [0] + f)
  {
    var g := [0] + f;
    assert forall k | 0 < k < |g| :: g[k] == f[k - 1];
  }

  lemma {:induction false} FreshKey(keys: seq<Key>) returns (key: Key)
    ensures forall k | k in keys :: |k.fingerprint| < |key.fingerprint|
  {
    if keys == [] {
      key := KEY;
    } else {
      var other := FreshKey(keys[1..]);
      key := Key(other.fingerprint + keys[0].fingerprint + "x");
      assert keys == [keys[0]] + keys[1..];
    }
  }

  /** The first of the two, not strict, presents an unknown key and cannot list the vault:
      by its own old failure the counter decays, and its clock is not stamped. */
  function PresentUnknown(d: Duo, key: Key, now: nat): Event {
    PublicKey(d.x, key, Io(now, ReadFailed, true))
  }

  lemma PresentOfDuo(w: World, d: Duo, key: Key, stale: nat, now: nat) returns (w': World)
    requires Ready(w, d, MAX_FAILURES) && w.auths[d.a].last == Some(stale) && now > stale + LOCKOUT_WINDOW
    requires !w.auths[d.a].config.policy.Strict? && key !in w.auths[d.a].keys
    ensures Enabled(w, PresentUnknown(d, key, now)) && w' == Step(w, PresentUnknown(d, key, now))
    ensures Unhelpful(w, PresentUnknown(d, key, now), d.m) && Ready(w', d, 0)
    ensures w'.auths[d.a] == w.auths[d.a]
  {
    var e := PresentUnknown(d, key, now);
    w' := Step(w, e);
    assert OutcomeOf(w, e).deed == Neutral;
    CallKeepsWiring(w, e);
    CallMovesItsMonitor(w, e);
  }

  lemma EmptyFlood(w: World, m: nat, t: nat, now: nat)
    requires w.Valid()
    ensures CanFlood(w, m, t, now, 0)
  {
    var ws: seq<World>, es: seq<Event>, f: seq<nat> := [w], [], [];
    assert IsRun(ws, es);
    assert Floods(ws, es, f, w, m, t, now);
  }

  /** Round after round of one presentation by the first and three guesses by the second. */
  lemma {:induction false} RoundsFlood(w: World, d: Duo, key: Key, stale: nat, now: nat, n: nat)
    requires Ready(w, d, MAX_FAILURES) && w.auths[d.a].last == Some(stale) && now > stale + LOCKOUT_WINDOW
    requires !w.auths[d.a].config.policy.Strict? && key !in w.auths[d.a].keys
    ensures CanFlood(w, d.m, now, now, n)
    decreases n
  {
    if n == 0 {
      EmptyFlood(w, d.m, now, now);
    } else {
      var w1 := PresentOfDuo(w, d, key, stale, now);
      var w2 := GuessOfDuo(w1, d, 0, false, now);
      var w3 := GuessOfDuo(w2, d, 1, false, now);
      var w4 := GuessOfDuo(w3, d, 2, false, now);
      RoundsFlood(w4, d, key, stale, now, n - 1);
      FloodAfterStep(w3, Guess(d.y, now), d.m, now, now, now, n - 1);
      FloodAfterStep(w2, Guess(d.y, now), d.m, now, now, now, n - 1);
      FloodGrows(w1, Guess(d.y, now), d.m, now, n - 1);
      FloodAfterStep(w, PresentUnknown(d, key, now), d.m, now, now, now, n);
    }
  }

  ghost predicate CanFloodFrom(w: World, m: nat, t: nat, n: nat) {
    exists now: nat :: CanFlood(w, m, t, now, n)
  }

  lemma OpeningFloods(w: World, d: Duo, key: Key, t: nat, n: nat)
    requires Ready(w, d, 0) && !w.auths[d.a].config.policy.Strict? && key !in w.auths[d.a].keys
    ensures CanFlood(w, d.m, t, t + LOCKOUT_WINDOW + 1, n)
  {
    var later := t + LOCKOUT_WINDOW + 1;
    var w1 := GuessOfDuo(w, d, 0, true, t);
    var w2 := GuessOfDuo(w1, d, 1, false, later);
    var w3 := GuessOfDuo(w2, d, 2, false, later);
    RoundsFlood(w3, d, key, t, later, n);
    FloodAfterStep(w2, Guess(d.y, later), d.m, later, later, later, n);
    FloodAfterStep(w1, Guess(d.y, later), d.m, later, later, later, n);
    FloodAfterStep(w, Guess(d.x, t), d.m, t, later, later, n);
  }

  /** Two users of a clear counter, one of them not strict, can record any number of
      failures at one instant with no success. */
  lemma LaxUserFloods(w: World, m: nat, a: nat, b: nat, t: nat, n: nat)
    requires w.Valid() && m < |w.monitors| && w.monitors[m].fails == 0
    requires a != b && Uses(w, a, m) && Uses(w, b, m) && !w.auths[a].config.policy.Strict?
    ensures CanFloodFrom(w, m, t, n)
  {
    var d := Duo(m, a, b, |w.sessions|, |w.sessions| + 1);
    var key := FreshKey(w.auths[a].keys);
    var w1 := Step(w, NewSession(a));
    var w2 := Step(w1, NewSession(b));
    var w3 := Step(w2, SetShadow(Unreadable));
    assert Ready(w3, d, 0);
    OpeningFloods(w3, d, key, t, n);
    var later := t + LOCKOUT_WINDOW + 1;
    FloodAfterStep(w2, SetShadow(Unreadable), m, t, t, later, n);
    FloodAfterStep(w1, NewSession(b), m, t, t, later, n);
    FloodAfterStep(w, NewSession(a), m, t, t, later, n);
  }

  /** No session of a user of `m` holds a key. */
  ghost predicate NoKeyWaits(w: World, m: nat) {
    forall s | 0 <= s < |w.sessions| && Uses(w, w.sessions[s].auth, m) :: w.sessions[s].cached == None
  }

  lemma OneUserDoesNotFlood(w: World, m: nat, t: nat, now: nat)
    requires AtMostOneUser(w, m)
    ensures !CanFlood(w, m, t, now, 4)
  {
    if CanFlood(w, m, t, now, 4) {
      var ws: seq<World>, es: seq<Event>, f: seq<nat> :| Floods(ws, es, f, w, m, t, now) && |f| == 4;
      OneUserIsBounded(ws, es, w, m, t, f);
      assert false;
    }
  }

  lemma StrictUsersDoNotFlood(w: World, m: nat, t: nat, now: nat, users: set<nat>)
    requires w.Valid() && NoKeyWaits(w, m)
    requires forall a: nat | Uses(w, a, m) :: a in users && w.auths[a].config.policy.Strict?
    ensures !CanFlood(w, m, t, now, 3 * |users| + 1)
  {
    if CanFlood(w, m, t, now, 3 * |users| + 1) {
      var ws: seq<World>, es: seq<Event>, f: seq<nat> :|
        Floods(ws, es, f, w, m, t, now) && |f| == 3 * |users| + 1;
      UsersShare(ws, es, w, m, t, users);
      assert StrictSlots(w, m) by {
        assert forall b: nat | b < |w.auths| && w.auths[b].monitor == m :: Uses(w, b, m);
      }
      RateBoundOfStrict(ws, es, m, users, f, 1);
      assert false;
    }
  }

  lemma UsersShare(ws: seq<World>, es: seq<Event>, w: World, m: nat, t: nat, users: set<nat>)
    requires RunFrom(ws, es, w, m, t) && forall a: nat | Uses(w, a, m) :: a in users
    ensures SharedAmong(ws, m, users)
  {
    forall i, b | 0 <= i < |ws| && 0 <= b < |ws[i].auths| && ws[i].auths[b].monitor == m
      ensures b in users
    {
      UsersAreThoseOfTheStart(ws, es, w, m, t, i);
      assert Uses(ws[i], b, m);
    }
  }

  ghost predicate LaxPair(w: World, m: nat, a: nat, b: nat) {
    a != b && Uses(w, a, m) && Uses(w, b, m) && !w.auths[a].config.policy.Strict?
  }

  /** When there is no bound at all: from a clear counter, with no key waiting in a slot,
      any number of failures can be recorded at one instant with no success, if and
      only if two authenticators use the counter and one of them is not strict. */
  lemma UnboundedExactly(w: World, m: nat, t: nat)
    requires w.Valid() && m < |w.monitors| && w.monitors[m].fails == 0 && NoKeyWaits(w, m)
    ensures (forall n: nat :: CanFloodFrom(w, m, t, n)) <==> exists a: nat, b: nat :: LaxPair(w, m, a, b)
  {
    if a: nat, b: nat :| LaxPair(w, m, a, b) {
      forall n: nat
        ensures CanFloodFrom(w, m, t, n)
      {
        LaxUserFloods(w, m, a, b, t, n);
      }
    } else if AtMostOneUser(w, m) {
      forall now: nat
        ensures !CanFlood(w, m, t, now, 4)
      {
        OneUserDoesNotFlood(w, m, t, now);
      }
      assert !CanFloodFrom(w, m, t, 4);
    } else {
      var users := set a: nat | a < |w.auths| && Uses(w, a, m);
      var x: nat, y: nat :| Uses(w, x, m) && Uses(w, y, m) && x != y;
      forall a: nat | Uses(w, a, m)
        ensures w.auths[a].config.policy.Strict?
      {
        assert !LaxPair(w, m, a, if a == x then y else x);
      }
      var tooMany: nat := 3 * |users| + 1;
      forall now: nat
        ensures !CanFlood(w, m, t, now, tooMany)
      {
        StrictUsersDoNotFlood(w, m, t, now, users);
      }
      assert !CanFloodFrom(w, m, t, tooMany);
    }
  }
}
