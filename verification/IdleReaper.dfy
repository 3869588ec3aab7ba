/** The per-connection reaper that closes shell channels after inactivity. Times and
    durations are nanoseconds. */
module IdleReaper {

  const MIN_PERIOD: nat := 10_000_000
  const MAX_PERIOD: nat := 60_000_000_000

  function Period(timeout: nat): nat {
    var quarter := timeout / 4;
    if quarter < MIN_PERIOD then MIN_PERIOD else if quarter > MAX_PERIOD then MAX_PERIOD else quarter
  }

  /** A quarter of the timeout, but at least ten milliseconds and at most a minute. */
  lemma PeriodIsClamped(timeout: nat)
    ensures timeout <= 40_000_000 ==> Period(timeout) == 10_000_000
    ensures 40_000_000 <= timeout <= 240_000_000_000 ==> 4 * Period(timeout) <= timeout < 4 * Period(timeout) + 4
    ensures timeout >= 240_000_000_000 ==> Period(timeout) == 60_000_000_000
  {
  }

  /** When each tracked channel last had traffic. */
  type Idle = map<nat, nat>

  predicate IsStale(idle: Idle, channel: nat, now: nat, timeout: nat) {
    channel in idle && now - idle[channel] > timeout
  }

  function Fresh(idle: Idle, now: nat, timeout: nat): Idle {
    map c | c in idle && !IsStale(idle, c, now, timeout) :: idle[c]
  }

  // ---- The handler's map and its reaper ---------------------------------------------------

  class Reaper {
    const timeout: nat
    var idle: Idle
    var closed: seq<nat>

    constructor (timeout: nat)
      ensures this.timeout == timeout && idle == map[] && closed == []
    {
      this.timeout := timeout;
      idle, closed := map[], [];
    }

    /** Traffic on a channel; nothing is tracked when the timeout is disabled. */
    method MarkChannelActive(channel: nat, now: nat)
      modifies this`idle
      ensures idle == if timeout == 0 then old(idle) else old(idle)[channel := now]
    {
      if timeout == 0 {
        return;
      }
      idle := idle[channel := now];
    }

    method ForgetChannel(channel: nat)
      modifies this`idle
      ensures idle == old(idle) - {channel}
    {
      idle := idle - {channel};
    }

    /** The stale channels, in the map's own order. */
    method CollectStale(now: nat, order: seq<nat>) returns (stale: seq<nat>)
      requires forall c | c in order :: c in idle
      ensures stale == StaleIn(order, idle, now, timeout)
    {
      stale := [];
      for i := 0 to |order|
        invariant stale == StaleIn(order[..i], idle, now, timeout)
      {
        assert order[..i + 1][..i] == order[..i];
        if now - idle[order[i]] > timeout {
          stale := stale + [order[i]];
        }
      }
      assert order[..|order|] == order;
    }

    /** Drops and closes the channels one by one; the first whose close fails is still
        dropped, and the rest wait for the next tick. */
    method CloseStale(stale: seq<nat>, failing: set<nat>) returns (tried: nat)
      modifies this
      ensures UpToFailure(stale, failing, tried)
      ensures idle == Without(old(idle), stale[..tried])
      ensures closed == old(closed)
                        + if tried > 0 && stale[tried - 1] in failing then stale[..tried - 1] else stale[..tried]
    {
      tried := 0;
      assert idle == Without(idle, []);
      while tried < |stale|
        invariant tried <= |stale|
        invariant idle == Without(old(idle), stale[..tried])
        invariant closed == old(closed) + stale[..tried]
        invariant forall i | 0 <= i < tried :: stale[i] !in failing
      {
        idle := idle - {stale[tried]};
        assert stale[..tried + 1] == stale[..tried] + [stale[tried]];
        tried := tried + 1;
        if stale[tried - 1] in failing {
          return;
        }
        closed := closed + [stale[tried - 1]];
      }
    }

    /** One tick of the reaper; `order` is how the map iterates. */
    method Tick(now: nat, order: seq<nat>, failing: set<nat>) returns (tried: nat)
      requires forall c :: c in order <==> c in idle
      modifies this
      ensures var stale := StaleIn(order, old(idle), now, timeout);
              && UpToFailure(stale, failing, tried) && idle == Without(old(idle), stale[..tried])
              && closed == old(closed)
                           + if tried > 0 && stale[tried - 1] in failing then stale[..tried - 1] else stale[..tried]
      ensures failing == {} ==> idle == Fresh(old(idle), now, timeout)
      ensures failing == {} ==> closed == old(closed) + StaleIn(order, old(idle), now, timeout)
      ensures forall c | c in old(idle) && !IsStale(old(idle), c, now, timeout) :: c in idle && idle[c] == old(idle)[c]
    {
      var stale := CollectStale(now, order);
      StaleInIsStale(order, idle, now, timeout);
      tried := CloseStale(stale, failing);
      assert stale[..|stale|] == stale;
      assert forall c | c in stale[..tried] :: c in stale;
    }
  }

  /** The first `tried` channels end with the first whose close fails, or are all. */
  predicate UpToFailure(stale: seq<nat>, failing: set<nat>, tried: nat) {
    && tried <= |stale|
    && (forall i | 0 <= i < tried - 1 :: stale[i] !in failing)
    && (tried < |stale| ==> tried > 0 && stale[tried - 1] in failing)
  }

  function Without(idle: Idle, gone: seq<nat>): Idle {
    map c | c in idle && c !in gone :: idle[c]
  }

  function StaleIn(order: seq<nat>, idle: Idle, now: nat, timeout: nat): seq<nat> {
    if order == [] then []
    else
      var c := order[|order| - 1];
      StaleIn(order[..|order| - 1], idle, now, timeout) + if IsStale(idle, c, now, timeout) then [c] else []
  }

  lemma {:induction false} StaleInIsStale(order: seq<nat>, idle: Idle, now: nat, timeout: nat)
    ensures forall c :: c in StaleIn(order, idle, now, timeout) <==> c in order && IsStale(idle, c, now, timeout)
  {
    if order != [] {
      StaleInIsStale(order[..|order| - 1], idle, now, timeout);
      assert order == order[..|order| - 1] + [order[|order| - 1]];
    }
  }

  // ---- Runs ------------------------------------------------------------------------------------

  datatype Event = Traffic(channel: nat, now: nat) | Forget(channel: nat, now: nat) | Ticks(now: nat)

  /** The map after a run in which closes succeed. */
  function After(es: seq<Event>, timeout: nat): Idle {
    if es == [] then map[]
    else
      var idle := After(es[..|es| - 1], timeout);
      match es[|es| - 1]
      case Traffic(channel, now) => idle[channel := now]
      case Forget(channel, _) => idle - {channel}
      case Ticks(now) => Fresh(idle, now, timeout)
  }

  /** The tick at position `i` closes the channel. */
  predicate ClosesAt(es: seq<Event>, i: nat, channel: nat, timeout: nat) {
    i < |es| && es[i].Ticks? && IsStale(After(es[..i], timeout), channel, es[i].now, timeout)
  }

  ghost predicate ClockMonotone(es: seq<Event>) {
    forall i, j | 0 <= i < j < |es| :: es[i].now <= es[j].now
  }

  ghost predicate AdjacentTicks(es: seq<Event>, i: nat, j: nat) {
    i < j < |es| && es[i].Ticks? && es[j].Ticks? && forall k | i < k < j :: !es[k].Ticks?
  }

  /** Ticks come one period apart. */
  ghost predicate TicksOnTime(es: seq<Event>, timeout: nat) {
    forall i: nat, j: nat | AdjacentTicks(es, i, j) :: es[j].now == es[i].now + Period(timeout)
  }

  /** The channel's last traffic before `n` is the event at `a`. */
  ghost predicate LastTraffic(es: seq<Event>, a: nat, n: nat, channel: nat) {
    && a < n <= |es| && es[a].Traffic? && es[a].channel == channel
    && forall k | a < k < n && !es[k].Ticks? :: es[k].channel != channel
  }

  /** Until a tick more than the timeout later, the map remembers that traffic. */
  lemma {:induction false} TrafficIsRemembered(es: seq<Event>, a: nat, n: nat, channel: nat, timeout: nat)
    requires LastTraffic(es, a, n, channel)
    requires forall k | a < k < n && es[k].Ticks? :: es[k].now <= es[a].now + timeout
    ensures channel in After(es[..n], timeout) && After(es[..n], timeout)[channel] == es[a].now
    decreases n
  {
    assert es[..n][..n - 1] == es[..n - 1];
    if a < n - 1 {
      TrafficIsRemembered(es, a, n - 1, channel, timeout);
    }
  }

  /** A channel whose last traffic was at t is closed, by the first tick later than
      t + timeout and by no earlier one; with ticks on time and the reaper running by
      then, that is within one period. */
  lemma ClosedOnTime(es: seq<Event>, a: nat, b: nat, start: nat, channel: nat, timeout: nat)
    requires ClockMonotone(es) && TicksOnTime(es, timeout)
    requires b < |es| && LastTraffic(es, a, b, channel) && es[b].Ticks? && es[b].now > es[a].now + timeout
    requires forall k | a < k < b && es[k].Ticks? :: es[k].now <= es[a].now + timeout
    requires start < b && es[start].Ticks? && es[start].now <= es[a].now + timeout
    ensures ClosesAt(es, b, channel, timeout)
    ensures forall k | a < k < b :: !ClosesAt(es, k, channel, timeout)
    ensures es[a].now + timeout < es[b].now <= es[a].now + timeout + Period(timeout)
  {
    TrafficIsRemembered(es, a, b, channel, timeout);
    forall k | a < k < b
      ensures !ClosesAt(es, k, channel, timeout)
    {
      TrafficIsRemembered(es, a, k, channel, timeout);
    }
    var p := LastTickBefore(es, start, b);
    assert AdjacentTicks(es, p, b);
    assert p < a ==> es[p].now <= es[a].now;
  }

  lemma {:induction false} LastTickBefore(es: seq<Event>, start: nat, b: nat) returns (p: nat)
    requires start < b < |es| && es[start].Ticks?
    ensures start <= p < b && es[p].Ticks? && forall k | p < k < b :: !es[k].Ticks?
    decreases b - start
  {
    if k :| start < k < b && es[k].Ticks? {
      p := LastTickBefore(es, k, b);
    } else {
      p := start;
    }
  }

  lemma {:induction false} FirstLateTick(es: seq<Event>, a: nat, n: nat, limit: nat) returns (b: nat)
    requires a < n < |es| && es[n].Ticks? && es[n].now > limit
    ensures a < b <= n && es[b].Ticks? && es[b].now > limit
    ensures forall k | a < k < b && es[k].Ticks? :: es[k].now <= limit
    decreases n
  {
    if k :| a < k < n && es[k].Ticks? && es[k].now > limit {
      b := FirstLateTick(es, a, k, limit);
    } else {
      b := n;
    }
  }

  /** A run that goes on long enough does contain that tick: if some later tick comes
      after t + timeout, the channel has been closed within one period of it. */
  lemma EventuallyClosed(es: seq<Event>, a: nat, n: nat, start: nat, channel: nat, timeout: nat)
    returns (b: nat)
    requires ClockMonotone(es) && TicksOnTime(es, timeout)
    requires n < |es| && LastTraffic(es, a, n, channel) && es[n].Ticks? && es[n].now > es[a].now + timeout
    requires start < |es| && es[start].Ticks? && es[start].now <= es[a].now + timeout
    ensures a < b <= n && ClosesAt(es, b, channel, timeout)
    ensures es[a].now + timeout < es[b].now <= es[a].now + timeout + Period(timeout)
  {
    b := FirstLateTick(es, a, n, es[a].now + timeout);
    assert es[start].now < es[b].now;
    assert start < b;
    assert LastTraffic(es, a, b, channel);
    ClosedOnTime(es, a, b, start, channel, timeout);
  }

  /** A tick at most the timeout after a channel's last traffic leaves it open and
      tracked. */
  lemma BusyChannelIsKept(es: seq<Event>, i: nat, a: nat, channel: nat, timeout: nat)
    requires ClockMonotone(es) && i < |es| && es[i].Ticks?
    requires LastTraffic(es, a, i, channel) && es[i].now <= es[a].now + timeout
    ensures !ClosesAt(es, i, channel, timeout)
    ensures channel in After(es[..i + 1], timeout)
  {
    TrafficIsRemembered(es, a, i, channel, timeout);
    assert es[..i + 1][..i] == es[..i];
  }

  /** A tracked channel has had traffic and was not forgotten since, and the map holds
      when that was. */
  lemma {:induction false} TrackedHasTraffic(es: seq<Event>, n: nat, channel: nat, timeout: nat) returns (a: nat)
    requires n <= |es| && channel in After(es[..n], timeout)
    ensures LastTraffic(es, a, n, channel) && After(es[..n], timeout)[channel] == es[a].now
  {
    assert n > 0;
    assert es[..n][..n - 1] == es[..n - 1];
    if es[n - 1].Traffic? && es[n - 1].channel == channel {
      a := n - 1;
    } else {
      a := TrackedHasTraffic(es, n - 1, channel, timeout);
    }
  }

  /** A channel is never closed exactly if at every tick its last traffic, unless it
      was forgotten since, is at most the timeout old. */
  lemma BusyChannelIsNeverClosed(es: seq<Event>, channel: nat, timeout: nat)
    ensures (forall i: nat :: !ClosesAt(es, i, channel, timeout)) <==>
            (forall i: nat, a: nat | i < |es| && es[i].Ticks? && LastTraffic(es, a, i, channel) ::
               es[i].now <= es[a].now + timeout)
  {
    forall i: nat | ClosesAt(es, i, channel, timeout)
      ensures exists a: nat :: LastTraffic(es, a, i, channel) && es[i].now > es[a].now + timeout
    {
      var a := TrackedHasTraffic(es, i, channel, timeout);
    }
    forall i: nat, a: nat |
      i < |es| && es[i].Ticks? && LastTraffic(es, a, i, channel) && es[i].now > es[a].now + timeout
      ensures exists b: nat :: ClosesAt(es, b, channel, timeout)
    {
      var b := FirstLateTick(es, a, i, es[a].now + timeout);
      TrafficIsRemembered(es, a, b, channel, timeout);
    }
  }
}
