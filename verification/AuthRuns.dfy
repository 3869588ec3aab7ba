/** Many authenticators, connections and monitors over one state directory:
    the world, its events (one authenticator call is one step), and runs. */
module AuthRuns {
  import opened Options
  import opened RateLimiter
  import opened UnifiedPolicy

  datatype Monitor = Monitor(notifies: bool, fails: nat, success: bool, pairSignals: nat, burnSignals: nat)

  /** `keys` and `last` sit behind handles shared by all session views. */
  datatype Auth = Auth(config: Config, keys: seq<Key>, last: Option<nat>, monitor: nat)

  datatype Session = Session(auth: nat, cached: Option<Key>)

  datatype World = World(disk: Disk, monitors: seq<Monitor>, auths: seq<Auth>, sessions: seq<Session>)
  {
    ghost predicate Valid() {
      && (forall a | 0 <= a < |auths| :: auths[a].monitor < |monitors|)
      && (forall s | 0 <= s < |sessions| :: sessions[s].auth < |auths|)
    }

    ghost function AuthOf(s: nat): Auth
      requires Valid() && s < |sessions|
    {
      auths[sessions[s].auth]
    }

    ghost function ViewOf(s: nat): View
      requires Valid() && s < |sessions|
    {
      var a := AuthOf(s);
      var m := monitors[a.monitor];
      View(a.keys, Limiter(m.fails, a.last), m.success, sessions[s].cached, m.notifies, m.pairSignals, m.burnSignals)
    }

    /** Puts what a call left behind back into the shared places. */
    ghost function With(s: nat, o: Outcome): World
      requires Valid() && s < |sessions|
    {
      var a := AuthOf(s);
      var v := o.view;
      World(
        o.disk,
        monitors[a.monitor := Monitor(v.notifies, v.limiter.fails, v.success, v.pairSignals, v.burnSignals)],
        auths[sessions[s].auth := a.(keys := v.keys, last := v.limiter.last)],
        sessions[s := sessions[s].(cached := v.cached)])
    }
  }

  datatype Event =
    | NewMonitor(notifies: bool)
    | NewAuth(config: Config, keys: seq<Key>, monitor: nat)
    | NewSession(auth: nat)
    | PublicKey(session: nat, key: Key, io: Io)
    | Password(session: nat, password: string, io: Io)
    | SetShadow(shadow: Shadow)
    | Authorize(key: Key)  // the vault edited from outside
    | Revoke(key: Key)

  predicate IsCall(e: Event) {
    e.PublicKey? || e.Password?
  }

  ghost predicate Enabled(w: World, e: Event)
    requires w.Valid()
  {
    match e
    case NewAuth(_, _, monitor) => monitor < |w.monitors|
    case NewSession(auth) => auth < |w.auths|
    case PublicKey(s, _, io) => s < |w.sessions| && Truthful(w, io)
    case Password(s, _, _) => s < |w.sessions|
    case _ => true
  }

  /** A listing that succeeds shows exactly the vault. */
  ghost predicate Truthful(w: World, io: Io) {
    io.read.ReadOk? ==> forall k :: k in io.read.listing <==> k in w.disk.vault
  }

  ghost function OutcomeOf(w: World, e: Event): Outcome
    requires w.Valid() && IsCall(e) && e.session < |w.sessions|
  {
    var cfg := w.AuthOf(e.session).config;
    var v := w.ViewOf(e.session);
    if e.PublicKey? then PublicKeyCall(cfg, w.disk, v, e.key, e.io)
    else PasswordCall(cfg, w.disk, v, e.password, e.io)
  }

  ghost function Step(w: World, e: Event): (w': World)
    requires w.Valid() && Enabled(w, e)
    ensures w'.Valid()
  {
    match e
    case NewMonitor(notifies) => w.(monitors := w.monitors + [Monitor(notifies, 0, false, 0, 0)])
    case NewAuth(config, keys, monitor) => w.(auths := w.auths + [Auth(config, keys, None, monitor)])
    case NewSession(auth) => w.(sessions := w.sessions + [Session(auth, None)])
    case SetShadow(shadow) => w.(disk := w.disk.(shadow := shadow))
    case Authorize(key) => w.(disk := w.disk.(vault := w.disk.vault + {key}))
    case Revoke(key) => w.(disk := w.disk.(vault := w.disk.vault - {key}))
    case PublicKey(s, _, _) => w.With(s, OutcomeOf(w, e))
    case Password(s, _, _) => w.With(s, OutcomeOf(w, e))
  }

  ghost predicate StepAt(ws: seq<World>, es: seq<Event>, i: nat)
    requires |ws| == |es| + 1 && i < |es|
  {
    ws[i].Valid() && Enabled(ws[i], es[i]) && ws[i + 1] == Step(ws[i], es[i])
  }

  /** The states `ws` are those the events `es` lead through, one after another. */
  ghost predicate IsRun(ws: seq<World>, es: seq<Event>) {
    && |ws| == |es| + 1
    && (forall i | 0 <= i < |ws| :: ws[i].Valid())
    && (forall i | 0 <= i < |es| :: StepAt(ws, es, i))
  }

  ghost predicate CallAt(ws: seq<World>, es: seq<Event>, i: nat)
    requires IsRun(ws, es)
  {
    i < |es| && IsCall(es[i])
  }

  ghost function CallOutcome(ws: seq<World>, es: seq<Event>, i: nat): Outcome
    requires IsRun(ws, es) && CallAt(ws, es, i)
  {
    assert StepAt(ws, es, i);
    OutcomeOf(ws[i], es[i])
  }

  ghost function DeedAt(ws: seq<World>, es: seq<Event>, i: nat): Deed
    requires IsRun(ws, es) && CallAt(ws, es, i)
  {
    CallOutcome(ws, es, i).deed
  }

  /** The authenticator behind the session of the call at `i`. */
  ghost function AuthIndexAt(ws: seq<World>, es: seq<Event>, i: nat): nat
    requires IsRun(ws, es) && CallAt(ws, es, i)
  {
    assert StepAt(ws, es, i);
    ws[i].sessions[es[i].session].auth
  }

  ghost function AuthAt(ws: seq<World>, es: seq<Event>, i: nat): Auth
    requires IsRun(ws, es) && CallAt(ws, es, i)
  {
    assert StepAt(ws, es, i);
    ws[i].AuthOf(es[i].session)
  }

  /** The monitor whose counter the call at `i` used. */
  ghost function MonitorAt(ws: seq<World>, es: seq<Event>, i: nat): nat
    requires IsRun(ws, es) && CallAt(ws, es, i)
  {
    AuthAt(ws, es, i).monitor
  }

  ghost predicate TofuAt(ws: seq<World>, es: seq<Event>, i: nat)
    requires IsRun(ws, es)
  {
    CallAt(ws, es, i) && DeedAt(ws, es, i).TofuAdmitted?
  }

  ghost predicate CodeAt(ws: seq<World>, es: seq<Event>, i: nat)
    requires IsRun(ws, es)
  {
    CallAt(ws, es, i) && DeedAt(ws, es, i).CodeAdmitted?
  }

  ghost predicate AdmitsAt(ws: seq<World>, es: seq<Event>, i: nat)
    requires IsRun(ws, es)
  {
    TofuAt(ws, es, i) || CodeAt(ws, es, i)
  }

  /** A password call of session `s` that got past the rate limit. */
  ghost predicate SpendsSlotAt(ws: seq<World>, es: seq<Event>, i: nat, s: nat)
    requires IsRun(ws, es)
  {
    i < |es| && es[i].Password? && es[i].session == s && !DeedAt(ws, es, i).Blocked?
  }

  ghost predicate FailsAt(ws: seq<World>, es: seq<Event>, i: nat, m: nat)
    requires IsRun(ws, es)
  {
    CallAt(ws, es, i) && MonitorAt(ws, es, i) == m && DeedAt(ws, es, i).Failed?
  }

  /** A success resets the counter of monitor `m`. */
  ghost predicate ClearsAt(ws: seq<World>, es: seq<Event>, i: nat, m: nat)
    requires IsRun(ws, es)
  {
    CallAt(ws, es, i) && MonitorAt(ws, es, i) == m && (DeedAt(ws, es, i).Trusted? || AdmitsAt(ws, es, i))
  }
}
