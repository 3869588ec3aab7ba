/** The server's event loop as far as it concerns the pairing wormhole: one active
    record with a broadcast and an expiry task, replaced, burnt or kept by events. */
module WormholeServer {
  import opened Options

  datatype Wormhole = Wormhole(code: string, password: Option<string>, persistent: bool, task: nat, expiryTask: nat)

  /** `spawned` tasks have ids below it; `running` ones were neither aborted nor have
      `ended` by themselves; `enabled` and `unpublished` log the codes in order. */
  datatype State = State(
    wormhole: Option<Wormhole>,
    shutdownRequested: bool,
    exited: bool,
    spawned: nat,
    running: set<nat>,
    ended: set<nat>,
    enabled: seq<string>,
    unpublished: seq<string>)

  const Start := State(None, false, false, 0, {}, {}, [], [])

  /** What the loop waits for. An expiry asks for `Disable` like anybody else. */
  datatype Event =
    | ShutdownSignal
    | Enable(code: string, password: Option<string>, persistent: bool)
    | Disable
    | GetStatus
    | Shutdown
    | ControlClosed
    | Success
    | Failure

  /** What happens to a serving loop: an event, with the session counts read at the
      loop's head before it and at its foot after it, or a task ending by itself. */
  datatype Item = Arrives(event: Event, before: nat, after: nat) | Ends(task: nat)

  function Burnt(s: State): State {
    match s.wormhole
    case None => s
    case Some(wh) =>
      s.(wormhole := None,
         running := s.running - {wh.task, wh.expiryTask},
         unpublished := s.unpublished + [wh.code])
  }

  function Handled(s: State, e: Event, shutdownOnSuccess: bool): State {
    match e
    case ShutdownSignal => s.(shutdownRequested := true)
    case Shutdown => s.(shutdownRequested := true)
    case Enable(code, password, persistent) =>
      var b := Burnt(s);
      b.(wormhole := Some(Wormhole(code, password, persistent, b.spawned, b.spawned + 1)),
         spawned := b.spawned + 2, running := b.running + {b.spawned, b.spawned + 1}, enabled := b.enabled + [code])
    case Disable => Burnt(s)
    case Failure => Burnt(s)
    case Success =>
      if s.wormhole.Some? && !s.wormhole.value.persistent
      then Burnt(s).(shutdownRequested := s.shutdownRequested || shutdownOnSuccess)
      else s
    case GetStatus => s
    case ControlClosed => s
  }

  /** One item, with the exits at the loop's head and foot and on a closed channel. */
  function Step(s: State, item: Item, shutdownOnSuccess: bool): State {
    if s.exited then s
    else
      match item
      case Ends(task) =>
        if task in s.running then s.(running := s.running - {task}, ended := s.ended + {task}) else s
      case Arrives(event, before, after) =>
        if s.shutdownRequested && before == 0 then Burnt(s).(exited := true)
        else
          var h := Handled(s, event, shutdownOnSuccess);
          if event.ControlClosed? || (h.shutdownRequested && after == 0) then Burnt(h).(exited := true) else h
  }

  function After(s: State, items: seq<Item>, shutdownOnSuccess: bool): State {
    if items == [] then s
    else Step(After(s, items[..|items| - 1], shutdownOnSuccess), items[|items| - 1], shutdownOnSuccess)
  }

  class Server {
    const shutdownOnWormholeSuccess: bool
    var wormhole: Option<Wormhole>
    var shutdownRequested: bool
    var spawned: nat
    var running: set<nat>
    var ended: set<nat>
    var enabled: seq<string>
    var unpublished: seq<string>

    ghost function Abs(exited: bool): State
      reads this
    {
      State(wormhole, shutdownRequested, exited, spawned, running, ended, enabled, unpublished)
    }

    constructor (shutdownOnWormholeSuccess: bool)
      ensures this.shutdownOnWormholeSuccess == shutdownOnWormholeSuccess && Abs(false) == Start
    {
      this.shutdownOnWormholeSuccess := shutdownOnWormholeSuccess;
      wormhole, shutdownRequested, spawned, running, ended := None, false, 0, {}, {};
      enabled, unpublished := [], [];
    }

    method Spawn() returns (task: nat)
      modifies this`spawned, this`running
      ensures task == old(spawned) && spawned == old(spawned) + 1 && running == old(running) + {task}
    {
      task := spawned;
      spawned, running := spawned + 1, running + {spawned};
    }

    /** Aborts both tasks of the active wormhole and asks to unpublish its code. */
    method Burn()
      modifies this`wormhole, this`running, this`unpublished
      ensures Abs(false) == Burnt(old(Abs(false)))
    {
      if wormhole.Some? {
        var wh := wormhole.value;
        running := running - {wh.task};
        running := running - {wh.expiryTask};
        unpublished := unpublished + [wh.code];
        wormhole := None;
      }
    }

    method Handle(e: Event)
      modifies this
      ensures Abs(false) == Handled(old(Abs(false)), e, shutdownOnWormholeSuccess)
    {
      match e {
        case ShutdownSignal => shutdownRequested := true;
        case Shutdown => shutdownRequested := true;
        case Enable(code, password, persistent) =>
          Burn();
          var task := Spawn();
          var expiryTask := Spawn();
          wormhole := Some(Wormhole(code, password, persistent, task, expiryTask));
          enabled := enabled + [code];
        case Disable => Burn();
        case Failure => Burn();
        case Success =>
          if wormhole.Some? && !wormhole.value.persistent {
            Burn();
            if shutdownOnWormholeSuccess {
              shutdownRequested := true;
            }
          }
        case GetStatus =>
        case ControlClosed =>
      }
    }

    /** The loop, fed with what happens to it; on leaving it cleans up. */
    method Run(items: seq<Item>) returns (exited: bool)
      modifies this
      ensures Abs(exited) == After(old(Abs(false)), items, shutdownOnWormholeSuccess)
    {
      exited := false;
      for i := 0 to |items|
        invariant Abs(exited) == After(old(Abs(false)), items[..i], shutdownOnWormholeSuccess)
      {
        assert items[..i + 1][..i] == items[..i];
        if !exited {
          match items[i] {
            case Ends(task) =>
              if task in running {
                running, ended := running - {task}, ended + {task};
              }
            case Arrives(event, before, after) =>
              if shutdownRequested && before == 0 {
                exited := true;
              } else {
                Handle(event);
                exited := event.ControlClosed? || (shutdownRequested && after == 0);
              }
              if exited {
                Burn();
              }
          }
        }
      }
      assert items[..|items|] == items;
    }
  }

  // ---- Conservation --------------------------------------------------------------------

  /** The tasks of the active wormhole. */
  function CurrentTasks(s: State): set<nat> {
    if s.wormhole.None? then {} else {s.wormhole.value.task, s.wormhole.value.expiryTask}
  }

  function CurrentCodes(s: State): seq<string> {
    if s.wormhole.None? then [] else [s.wormhole.value.code]
  }

  ghost predicate Conserved(s: State) {
    && s.running == CurrentTasks(s) - s.ended
    && s.enabled == s.unpublished + CurrentCodes(s)
    && s.spawned == 2 * |s.enabled|
    && (forall t | t in s.ended :: t < s.spawned)
    && (s.wormhole.Some? ==> s.wormhole.value.task < s.wormhole.value.expiryTask < s.spawned)
    && (s.exited ==> s.wormhole == None)
  }

  lemma StepConserves(s: State, item: Item, shutdownOnSuccess: bool)
    requires Conserved(s)
    ensures Conserved(Step(s, item, shutdownOnSuccess))
  {
    BurningConserves(s);
    if item.Arrives? && !s.exited {
      HandlingConserves(s, item.event, shutdownOnSuccess);
      BurningConserves(Handled(s, item.event, shutdownOnSuccess));
    }
  }

  lemma BurningConserves(s: State)
    requires Conserved(s)
    ensures Conserved(Burnt(s)) && Burnt(s).wormhole == None
  {
    if s.wormhole.Some? {
      assert Burnt(s).unpublished + [] == s.enabled;
    }
  }

  lemma HandlingConserves(s: State, e: Event, shutdownOnSuccess: bool)
    requires Conserved(s) && !s.exited
    ensures Conserved(Handled(s, e, shutdownOnSuccess))
  {
    BurningConserves(s);
    if e.Enable? {
      var b, h := Burnt(s), Handled(s, e, shutdownOnSuccess);
      assert b.enabled == b.unpublished + [];
      assert h.running == CurrentTasks(h) - h.ended;
    }
  }

  /** Conservation over every run: the tasks alive are exactly those of the active
      wormhole that have not ended by themselves, two were spawned per enabling, and
      every enabled code but the active one has been unpublished, once and in order. */
  lemma {:induction false} RunConserves(items: seq<Item>, shutdownOnSuccess: bool)
    ensures Conserved(After(Start, items, shutdownOnSuccess))
  {
    if items != [] {
      RunConserves(items[..|items| - 1], shutdownOnSuccess);
      StepConserves(After(Start, items[..|items| - 1], shutdownOnSuccess), items[|items| - 1], shutdownOnSuccess);
    }
  }

  lemma ArrivalsEndNothing(s: State, item: Item, shutdownOnSuccess: bool)
    requires item.Arrives?
    ensures Step(s, item, shutdownOnSuccess).ended == s.ended
  {
  }

  lemma {:induction false} NothingEnded(items: seq<Item>, shutdownOnSuccess: bool)
    requires forall i | 0 <= i < |items| :: items[i].Arrives?
    ensures After(Start, items, shutdownOnSuccess).ended == {}
  {
    if items != [] {
      NothingEnded(items[..|items| - 1], shutdownOnSuccess);
      ArrivalsEndNothing(After(Start, items[..|items| - 1], shutdownOnSuccess), items[|items| - 1], shutdownOnSuccess);
    }
  }

  /** While no task ends by itself, the live tasks are two if a wormhole is set and
      none otherwise. */
  lemma NoEndsNoGaps(items: seq<Item>, shutdownOnSuccess: bool)
    requires forall i | 0 <= i < |items| :: items[i].Arrives?
    ensures var s := After(Start, items, shutdownOnSuccess);
            |s.running| == if s.wormhole.Some? then 2 else 0
  {
    var s := After(Start, items, shutdownOnSuccess);
    RunConserves(items, shutdownOnSuccess);
    NothingEnded(items, shutdownOnSuccess);
    assert s.running == CurrentTasks(s);
  }

  /** After the exit nothing is left: no wormhole, no task, no code unpublished less or
      more often than it was enabled; and nothing happens any more. */
  lemma ExitLeavesNothing(items: seq<Item>, more: Item, shutdownOnSuccess: bool)
    requires After(Start, items, shutdownOnSuccess).exited
    ensures var s := After(Start, items, shutdownOnSuccess);
            && s.wormhole == None && s.running == {} && s.unpublished == s.enabled
            && After(Start, items + [more], shutdownOnSuccess) == s
  {
    RunConserves(items, shutdownOnSuccess);
    assert (items + [more])[..|items|] == items;
  }

  // ---- Persistent and one-shot wormholes -------------------------------------------------

  predicate Asks(item: Item) {
    item.Arrives? && (item.event.ShutdownSignal? || item.event.Shutdown?)
  }

  /** A shutdown was asked for from the start or by one of the first `n` items. */
  predicate AskedBy(asked: bool, items: seq<Item>, n: nat)
    requires n <= |items|
  {
    asked || exists j :: 0 <= j < n && Asks(items[j])
  }

  /** What ends a wormhole: its replacement, a disable, a failure burst, a success if it
      is one-shot, the end of the control channel, or a moment without sessions at the
      loop's head or foot after a shutdown was asked for. */
  predicate Ending(asked: bool, oneShot: bool, items: seq<Item>, i: nat)
    requires i < |items|
  {
    match items[i]
    case Ends(_) => false
    case Arrives(event, before, after) =>
      || event.Enable? || event.Disable? || event.Failure? || event.ControlClosed? || (oneShot && event.Success?)
      || (before == 0 && AskedBy(asked, items, i))
      || (after == 0 && AskedBy(asked, items, i + 1))
  }

  predicate NoEnding(asked: bool, oneShot: bool, items: seq<Item>) {
    forall i | 0 <= i < |items| :: !Ending(asked, oneShot, items, i)
  }

  /** `t` came after `s`: the wormhole of `s` is still there, with the loop running, or
      it is gone and every later one has later tasks. */
  ghost predicate Follows(s: State, t: State) {
    && s.spawned <= t.spawned && Conserved(t)
    && (t.wormhole == s.wormhole ==> !t.exited && t.unpublished == s.unpublished && t.enabled == s.enabled)
  }

  lemma WormholeStep(s: State, t: State, items: seq<Item>, i: nat, shutdownOnSuccess: bool)
    requires Conserved(s) && s.wormhole.Some? && Follows(s, t) && i < |items|
    requires t.wormhole == s.wormhole ==> t.shutdownRequested == AskedBy(s.shutdownRequested, items, i)
    ensures var t' := Step(t, items[i], shutdownOnSuccess);
            && Follows(s, t')
            && (t'.wormhole == s.wormhole <==>
                  t.wormhole == s.wormhole && !Ending(s.shutdownRequested, !s.wormhole.value.persistent, items, i))
            && (t'.wormhole == s.wormhole ==> t'.shutdownRequested == AskedBy(s.shutdownRequested, items, i + 1))
  {
    StepConserves(t, items[i], shutdownOnSuccess);
    assert AskedBy(s.shutdownRequested, items, i + 1) <==> AskedBy(s.shutdownRequested, items, i) || Asks(items[i]);
  }

  lemma AskedByInit(asked: bool, oneShot: bool, items: seq<Item>)
    requires items != []
    ensures var init := items[..|items| - 1];
            && (NoEnding(asked, oneShot, items) <==>
                  NoEnding(asked, oneShot, init) && !Ending(asked, oneShot, items, |init|))
            && (AskedBy(asked, init, |init|) <==> AskedBy(asked, items, |init|))
  {
    var init := items[..|items| - 1];
    forall n: nat | n <= |init|
      ensures AskedBy(asked, init, n) <==> AskedBy(asked, items, n)
    {
      assert forall j | 0 <= j < n :: init[j] == items[j];
    }
    assert forall i: nat | i < |init| :: init[i] == items[i];
    assert forall i: nat | i < |init| :: Ending(asked, oneShot, init, i) <==> Ending(asked, oneShot, items, i);
  }

  /** A wormhole survives exactly the runs in which nothing ends it, and then keeps its
      code, its password and its tasks. */
  lemma {:induction false} WormholeSurvives(s: State, items: seq<Item>, shutdownOnSuccess: bool)
    requires Conserved(s) && !s.exited && s.wormhole.Some?
    ensures var t := After(s, items, shutdownOnSuccess);
            && (t.wormhole == s.wormhole <==> NoEnding(s.shutdownRequested, !s.wormhole.value.persistent, items))
            && (t.wormhole == s.wormhole ==> t.shutdownRequested == AskedBy(s.shutdownRequested, items, |items|))
            && Follows(s, t)
  {
    if items != [] {
      var init := items[..|items| - 1];
      WormholeSurvives(s, init, shutdownOnSuccess);
      AskedByInit(s.shutdownRequested, !s.wormhole.value.persistent, items);
      WormholeStep(s, After(s, init, shutdownOnSuccess), items, |init|, shutdownOnSuccess);
    }
  }

  /** So a persistent one survives any number of successes. */
  lemma PersistentSurvives(s: State, items: seq<Item>, shutdownOnSuccess: bool)
    requires Conserved(s) && !s.exited && s.wormhole.Some? && s.wormhole.value.persistent
    ensures var t := After(s, items, shutdownOnSuccess);
            && (t.wormhole == s.wormhole <==> NoEnding(s.shutdownRequested, false, items))
            && (t.wormhole == s.wormhole ==> t.shutdownRequested == AskedBy(s.shutdownRequested, items, |items|))
            && Follows(s, t)
  {
    WormholeSurvives(s, items, shutdownOnSuccess);
  }

  // ---- What an enabling puts in place ------------------------------------------------------

  /** An enabling that the loop outlives puts a wormhole in place with the code, password
      and persistence it asks for and two new tasks, and unpublishes what was there; one
      that it does not outlive leaves no wormhole and unpublishes the new code as well. */
  lemma EnablingOpens(s: State, code: string, password: Option<string>, persistent: bool, before: nat, after: nat,
                      shutdownOnSuccess: bool)
    requires Conserved(s) && !s.exited
    ensures var t := Step(s, Arrives(Enable(code, password, persistent), before, after), shutdownOnSuccess);
            && (t.exited <==> s.shutdownRequested && (before == 0 || after == 0))
            && t.shutdownRequested == s.shutdownRequested
            && (!t.exited ==>
                  && t.wormhole == Some(Wormhole(code, password, persistent, s.spawned, s.spawned + 1))
                  && t.running == {s.spawned, s.spawned + 1}
                  && t.enabled == s.enabled + [code] && t.unpublished == s.enabled)
            && (t.exited ==> t.wormhole == None && t.running == {} && t.unpublished == t.enabled)
  {
    StepConserves(s, Arrives(Enable(code, password, persistent), before, after), shutdownOnSuccess);
    BurningConserves(s);
    assert s.unpublished + CurrentCodes(s) == s.enabled;
  }

  lemma OpenAfterStep(s: State, item: Item, shutdownOnSuccess: bool)
    requires Conserved(s) && Step(s, item, shutdownOnSuccess).wormhole.Some?
    ensures var wh := Step(s, item, shutdownOnSuccess).wormhole;
            if item.Arrives? && item.event.Enable?
            then item.event == Enable(wh.value.code, wh.value.password, wh.value.persistent)
            else wh == s.wormhole
  {
  }

  /** Over every run the active wormhole is the one last enabled: code, password and
      persistence are those of that event. */
  lemma {:induction false} ActiveIsLastEnabled(items: seq<Item>, shutdownOnSuccess: bool) returns (i: nat)
    requires After(Start, items, shutdownOnSuccess).wormhole.Some?
    ensures i < |items| && items[i].Arrives?
    ensures var wh := After(Start, items, shutdownOnSuccess).wormhole.value;
            items[i].event == Enable(wh.code, wh.password, wh.persistent)
    ensures forall k | i < k < |items| :: !(items[k].Arrives? && items[k].event.Enable?)
  {
    var init, last := items[..|items| - 1], items[|items| - 1];
    var s := After(Start, init, shutdownOnSuccess);
    RunConserves(init, shutdownOnSuccess);
    OpenAfterStep(s, last, shutdownOnSuccess);
    if last.Arrives? && last.event.Enable? {
      i := |items| - 1;
    } else {
      i := ActiveIsLastEnabled(init, shutdownOnSuccess);
    }
  }

  lemma {:induction false} AfterConcat(s: State, a: seq<Item>, b: seq<Item>, shutdownOnSuccess: bool)
    ensures After(s, a + b, shutdownOnSuccess) == After(After(s, a, shutdownOnSuccess), b, shutdownOnSuccess)
    decreases |b|
  {
    if b == [] {
      assert a + b == a;
    } else {
      assert (a + b)[..|a + b| - 1] == a + b[..|b| - 1];
      AfterConcat(s, a, b[..|b| - 1], shutdownOnSuccess);
    }
  }

  lemma AfterOne(s: State, items: seq<Item>, item: Item, shutdownOnSuccess: bool)
    ensures After(s, items + [item], shutdownOnSuccess) ==
            Step(After(s, items, shutdownOnSuccess), item, shutdownOnSuccess)
  {
    assert (items + [item])[..|items + [item]| - 1] == items;
  }

  predicate Enables(item: Item) {
    item.Arrives? && item.event.Enable?
  }

  /** The wormhole that an enabling event asks for, in the state that it finds. */
  function Asked(s: State, item: Item): Wormhole
    requires Enables(item)
  {
    Wormhole(item.event.code, item.event.password, item.event.persistent, s.spawned, s.spawned + 1)
  }

  /** A run that enables a wormhole and goes on: the loop still running, the wormhole is
      there at the end exactly if nothing since has ended it by the flag of that event. */
  lemma EnabledRun(head: seq<Item>, item: Item, tail: seq<Item>, shutdownOnSuccess: bool)
    requires Enables(item) && !After(Start, head + [item], shutdownOnSuccess).exited
    ensures var s := After(Start, head, shutdownOnSuccess);
            After(Start, head + [item] + tail, shutdownOnSuccess).wormhole == Some(Asked(s, item))
            <==> NoEnding(s.shutdownRequested, !item.event.persistent, tail)
  {
    var s := After(Start, head, shutdownOnSuccess);
    var t := After(Start, head + [item], shutdownOnSuccess);
    RunConserves(head, shutdownOnSuccess);
    AfterOne(Start, head, item, shutdownOnSuccess);
    EnablingKeeps(s, item, shutdownOnSuccess);
    WormholeSurvives(t, tail, shutdownOnSuccess);
    AfterConcat(Start, head + [item], tail, shutdownOnSuccess);
  }

  lemma EnablingKeeps(s: State, item: Item, shutdownOnSuccess: bool)
    requires Conserved(s) && Enables(item) && !Step(s, item, shutdownOnSuccess).exited
    ensures var t := Step(s, item, shutdownOnSuccess);
            Conserved(t) && t.wormhole == Some(Asked(s, item)) && t.shutdownRequested == s.shutdownRequested
  {
    StepConserves(s, item, shutdownOnSuccess);
    EnablingOpens(s, item.event.code, item.event.password, item.event.persistent, item.before, item.after,
                  shutdownOnSuccess);
  }

  /** The first success after a one-shot enabling burns it: no wormhole and no task is
      left, its code is the last one unpublished, and a shutdown has been asked for if
      one was before or the server is to stop on success. */
  lemma OneShotIsBurnt(head: seq<Item>, item: Item, tail: seq<Item>, success: Item, shutdownOnSuccess: bool)
    requires Enables(item) && !item.event.persistent && !After(Start, head + [item], shutdownOnSuccess).exited
    requires NoEnding(After(Start, head, shutdownOnSuccess).shutdownRequested, true, tail)
    requires success.Arrives? && success.event.Success?
    ensures var s := After(Start, head + [item] + tail, shutdownOnSuccess);
            var t := After(Start, head + [item] + tail + [success], shutdownOnSuccess);
            && t.wormhole == None && t.running == {} && t.unpublished == s.unpublished + [item.event.code]
            && (!t.exited ==> t.shutdownRequested == (s.shutdownRequested || shutdownOnSuccess))
  {
    var items := head + [item] + tail;
    EnabledRun(head, item, tail, shutdownOnSuccess);
    AfterOne(Start, items, success, shutdownOnSuccess);
    RunConserves(items, shutdownOnSuccess);
    SuccessBurnsOneShot(After(Start, items, shutdownOnSuccess), success, shutdownOnSuccess);
  }

  lemma SuccessBurnsOneShot(s: State, success: Item, shutdownOnSuccess: bool)
    requires Conserved(s) && s.wormhole.Some? && !s.wormhole.value.persistent
    requires success.Arrives? && success.event.Success?
    ensures var t := Step(s, success, shutdownOnSuccess);
            && t.wormhole == None && t.running == {} && t.unpublished == s.unpublished + [s.wormhole.value.code]
            && (!t.exited ==> t.shutdownRequested == (s.shutdownRequested || shutdownOnSuccess))
  {
    StepConserves(s, success, shutdownOnSuccess);
  }

  /** When the loop leaves: at a closed control channel, or at a moment without sessions
      once a shutdown is asked for, by an operator or by the success of a one-shot
      wormhole where the server is to stop on it. */
  lemma LeavesExactly(s: State, item: Item, shutdownOnSuccess: bool)
    requires Conserved(s) && !s.exited
    ensures var t := Step(s, item, shutdownOnSuccess);
            var oneShot := s.wormhole.Some? && !s.wormhole.value.persistent;
            var asked := s.shutdownRequested || Asks(item)
                         || (item.Arrives? && item.event.Success? && oneShot && shutdownOnSuccess);
            var closed := item.Arrives? && item.event.ControlClosed?;
            var idle := item.Arrives? && ((s.shutdownRequested && item.before == 0) || (asked && item.after == 0));
            && (t.exited <==> closed || idle)
            && (!t.exited ==> t.shutdownRequested == asked)
  {
  }

  /** A task that ends by itself is noted once, and nothing else happens. */
  lemma EndingIsNoted(s: State, task: nat, shutdownOnSuccess: bool)
    requires Conserved(s)
    ensures var t := Step(s, Ends(task), shutdownOnSuccess);
            && (task in CurrentTasks(s) && task !in s.ended ==> t.ended == s.ended + {task} && task !in t.running)
            && (task !in s.running ==> t == s)
            && t.wormhole == s.wormhole && t.unpublished == s.unpublished
  {
  }

  // ---- Signals and shutdown ----------------------------------------------------------------

  /** A one-shot wormhole is burnt by the first success, any wormhole by a failure
      burst, and no stale signal burns what is not there; and when a signal ends the
      loop. */
  lemma SignalsBurn(s: State, before: nat, after: nat, shutdownOnSuccess: bool)
    requires Conserved(s) && !s.exited
    ensures var t := Step(s, Arrives(Success, before, after), shutdownOnSuccess);
            var oneShot := s.wormhole.Some? && !s.wormhole.value.persistent;
            && t.wormhole == (if oneShot || t.exited then None else s.wormhole)
            && (s.wormhole.None? ==> t == s.(exited := t.exited))
            && (t.exited <==> (s.shutdownRequested && (before == 0 || after == 0))
                              || (oneShot && shutdownOnSuccess && after == 0))
    ensures var t := Step(s, Arrives(Failure, before, after), shutdownOnSuccess);
            && t.wormhole == None && t.running == {} && t.unpublished == t.enabled
            && (t.exited <==> s.shutdownRequested && (before == 0 || after == 0))
  {
    BurningConserves(s);
  }

  /** A shutdown request is never taken back, and once it is made the loop leaves at
      the first event that finds no session. */
  lemma {:induction false} ShutdownSticks(s: State, items: seq<Item>, shutdownOnSuccess: bool)
    requires s.shutdownRequested
    ensures After(s, items, shutdownOnSuccess).shutdownRequested
    ensures (exists i :: 0 <= i < |items| && items[i].Arrives? && (items[i].before == 0 || items[i].after == 0)) ==>
              After(s, items, shutdownOnSuccess).exited
  {
    if items != [] {
      var last := items[|items| - 1];
      ShutdownSticks(s, items[..|items| - 1], shutdownOnSuccess);
      if i :| 0 <= i < |items| && items[i].Arrives? && (items[i].before == 0 || items[i].after == 0) {
        assert i < |items| - 1 ==> items[..|items| - 1][i] == items[i];
      }
    }
  }
}
