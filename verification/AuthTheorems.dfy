/** What every run of the authenticators keeps. */
module AuthTheorems {
  import opened Options
  import opened RateLimiter
  import opened UnifiedPolicy
  import opened CallFacts
  import opened AuthRuns

  // ---- The vault -------------------------------------------------------------

  /** The key a step adds to the vault. */
  ghost function Gained(w: World, e: Event): set<Key>
    requires w.Valid() && Enabled(w, e)
  {
    if e.Authorize? then {e.key}
    else if !IsCall(e) then {}
    else
      match OutcomeOf(w, e).deed
      case TofuAdmitted(key) => {key}
      case CodeAdmitted(key) => {key}
      case _ => {}
  }

  /** Apart from outside edits, the vault changes only by gaining the one key that
      a call admits. */
  lemma VaultChangesOnlyByAdmission(w: World, e: Event)
    requires w.Valid() && Enabled(w, e)
    ensures Step(w, e).disk.vault == if e.Revoke? then w.disk.vault - {e.key} else w.disk.vault + Gained(w, e)
  {
  }

  lemma {:induction false} VaultOnlyGrows(ws: seq<World>, es: seq<Event>, i: nat, j: nat)
    requires IsRun(ws, es) && i <= j <= |es|
    requires forall k | i <= k < j :: !es[k].Revoke?
    ensures ws[i].disk.vault <= ws[j].disk.vault
    decreases j - i
  {
    if i < j {
      assert StepAt(ws, es, j - 1);
      VaultOnlyGrows(ws, es, i, j - 1);
    }
  }

  /** With a successful listing, first-use admission finds the vault empty and
      leaves it holding just the presented key. */
  lemma TofuFindsEmptyVault(ws: seq<World>, es: seq<Event>, i: nat)
    requires IsRun(ws, es) && TofuAt(ws, es, i) && es[i].io.read.ReadOk?
    ensures es[i].PublicKey? && ws[i].disk.vault == {} && ws[i + 1].disk.vault == {es[i].key}
  {
    assert StepAt(ws, es, i);
    assert forall k :: k in es[i].io.read.listing <==> k in ws[i].disk.vault;
  }

  /** A first-use admission leaves its key in the vault. */
  lemma TofuStoresKey(ws: seq<World>, es: seq<Event>, i: nat)
    requires IsRun(ws, es) && TofuAt(ws, es, i)
    ensures es[i].PublicKey? && es[i].key in ws[i + 1].disk.vault
  {
    assert StepAt(ws, es, i);
  }

  /** When a first-use admission goes into a vault that is already claimed: exactly
      when the listing fails and the list in memory is empty, besides the conditions
      of every first use. */
  lemma TofuIntoClaimedVaultExactly(w: World, e: Event)
    requires w.Valid() && Enabled(w, e) && e.PublicKey?
    ensures var v, cfg := w.ViewOf(e.session), w.AuthOf(e.session).config;
            OutcomeOf(w, e).deed.TofuAdmitted? && w.disk.vault != {} <==>
              && !Blocks(v.limiter, e.io.now)
              && cfg.policy.Tofu? && cfg.temp.None? && w.disk.shadow.Absent? && e.io.writeOk
              && e.io.read.ReadFailed? && v.keys == [] && w.disk.vault != {}
  {
    if e.io.read.ReadOk? && w.disk.vault != {} {
      var k :| k in w.disk.vault;
      assert k in e.io.read.listing;
    }
  }

  /** Between two first-use admissions something outside emptied the vault, or the
      second one went by an empty memory because its listing failed. */
  lemma TofuTwiceExplained(ws: seq<World>, es: seq<Event>, i: nat, j: nat)
    requires IsRun(ws, es) && i < j
    requires TofuAt(ws, es, i) && TofuAt(ws, es, j)
    ensures (exists k :: i < k < j && es[k].Revoke?)
            || (es[j].io.read.ReadFailed? && AuthAt(ws, es, j).keys == [] && es[i].key in ws[j].disk.vault)
  {
    TofuStoresKey(ws, es, i);
    if forall k | i < k < j :: !es[k].Revoke? {
      VaultOnlyGrows(ws, es, i + 1, j);
      assert StepAt(ws, es, j);
      TofuIntoClaimedVaultExactly(ws[j], es[j]);
    }
  }

  /** Where the second listing succeeds, something outside emptied the vault. */
  lemma TofuTwiceNeedsRevocation(ws: seq<World>, es: seq<Event>, i: nat, j: nat)
    requires IsRun(ws, es) && i < j
    requires TofuAt(ws, es, i) && TofuAt(ws, es, j) && es[j].io.read.ReadOk?
    ensures exists k :: i < k < j && es[k].Revoke?
  {
    TofuTwiceExplained(ws, es, i, j);
  }

  ghost predicate ReadsSucceed(es: seq<Event>) {
    forall i | 0 <= i < |es| && es[i].PublicKey? :: es[i].io.read.ReadOk?
  }

  ghost predicate NothingRevoked(es: seq<Event>) {
    forall i | 0 <= i < |es| :: !es[i].Revoke?
  }

  /** The bootstrap guarantee: over any interleaving of calls on any number of
      authenticators sharing one directory, at most one key is ever admitted on
      first use; it is the vault's first entry and stays for good. */
  lemma TofuAtMostOnce(ws: seq<World>, es: seq<Event>, i: nat, j: nat)
    requires IsRun(ws, es) && ReadsSucceed(es) && NothingRevoked(es)
    requires TofuAt(ws, es, i) && TofuAt(ws, es, j)
    ensures i == j
    ensures ws[i].disk.vault == {}
    ensures forall k | i < k <= |es| :: es[i].key in ws[k].disk.vault
  {
    TofuFindsEmptyVault(ws, es, i);
    if i < j {
      TofuTwiceNeedsRevocation(ws, es, i, j);
    } else if j < i {
      TofuTwiceNeedsRevocation(ws, es, j, i);
    }
    forall k | i < k <= |es|
      ensures es[i].key in ws[k].disk.vault
    {
      VaultOnlyGrows(ws, es, i + 1, k);
    }
  }

  /** Successful listings are needed: an authenticator that starts with an empty
      list and cannot list the vault admits a stranger into a claimed one. */
  lemma TofuTwiceWhenListingFails()
    ensures exists ws: seq<World>, es: seq<Event>, i: nat, j: nat ::
              IsRun(ws, es) && NothingRevoked(es) && i < j && TofuAt(ws, es, i) && TofuAt(ws, es, j)
  {
    var first, second := Key("a"), Key("b");
    var cfg := Config(Tofu, None);
    var monitor := Monitor(false, 0, false, 0, 0);
    var auth := Auth(cfg, [], None, 0);
    var w0 := World(Disk({}, Absent), [monitor], [auth, auth], [Session(0, None), Session(1, None)]);
    var e0 := PublicKey(0, first, Io(0, ReadOk([]), true));
    var w1 := Step(w0, e0);
    var e1 := PublicKey(1, second, Io(0, ReadFailed, true));
    assert w1.auths[1] == auth;
    var ws, es := [w0, w1, Step(w1, e1)], [e0, e1];
    assert IsRun(ws, es);
    assert TofuAt(ws, es, 0);
    assert TofuAt(ws, es, 1);
  }

  /** While a node password is set (or its file cannot be read) and nobody holds
      a temporary code, no run of calls changes the vault. */
  ghost predicate CodeFree(w: World) {
    forall a | 0 <= a < |w.auths| :: w.auths[a].config.temp.None?
  }

  lemma {:induction false} PasswordModesFreezeVault(ws: seq<World>, es: seq<Event>, n: nat)
    requires IsRun(ws, es) && n <= |es|
    requires !ws[0].disk.shadow.Absent? && CodeFree(ws[0])
    requires forall i | 0 <= i < |es| :: !es[i].Authorize? && !es[i].Revoke?
    requires forall i | 0 <= i < |es| && es[i].SetShadow? :: !es[i].shadow.Absent?
    requires forall i | 0 <= i < |es| && es[i].NewAuth? :: es[i].config.temp.None?
    ensures ws[n].disk.vault == ws[0].disk.vault
    ensures !ws[n].disk.shadow.Absent? && CodeFree(ws[n])
  {
    if n > 0 {
      PasswordModesFreezeVault(ws, es, n - 1);
      assert StepAt(ws, es, n - 1);
      VaultChangesOnlyByAdmission(ws[n - 1], es[n - 1]);
    }
  }

  // ---- Whom an accepted key can be trusted to be -------------------------------

  ghost predicate MemoryBacked(w: World) {
    forall a, k | 0 <= a < |w.auths| && k in w.auths[a].keys :: k in w.disk.vault
  }

  /** New authenticators start with keys that the vault lists. */
  ghost predicate AuthsStartBacked(ws: seq<World>, es: seq<Event>)
    requires IsRun(ws, es)
  {
    forall i | 0 <= i < |es| && es[i].NewAuth? :: forall k | k in es[i].keys :: k in ws[i].disk.vault
  }

  /** A call that replaces the memory of authenticator `a` by a listing: an unknown
      key is presented, the call is let in and the vault can be listed. */
  ghost predicate Refreshes(w: World, e: Event, a: nat)
    requires w.Valid() && Enabled(w, e)
  {
    && e.PublicKey? && w.sessions[e.session].auth == a
    && !Blocks(w.ViewOf(e.session).limiter, e.io.now) && !w.AuthOf(e.session).config.policy.AcceptAll?
    && e.key !in w.AuthOf(e.session).keys && e.io.read.ReadOk?
  }

  ghost predicate RefreshesAt(ws: seq<World>, es: seq<Event>, i: nat, a: nat)
    requires IsRun(ws, es) && i < |es|
  {
    assert StepAt(ws, es, i);
    Refreshes(ws[i], es[i], a)
  }

  /** Memory holds a key that is not in the vault. */
  ghost predicate Stale(w: World, a: nat, key: Key) {
    a < |w.auths| && key in w.auths[a].keys && key !in w.disk.vault
  }

  /** One step makes a key stale only by revoking it, and a refresh leaves none. */
  lemma StaleStep(w: World, e: Event, a: nat, key: Key)
    requires w.Valid() && Enabled(w, e) && Stale(Step(w, e), a, key)
    requires e.NewAuth? ==> forall k | k in e.keys :: k in w.disk.vault
    ensures e == Revoke(key) || (Stale(w, a, key) && !Refreshes(w, e, a))
  {
    VaultChangesOnlyByAdmission(w, e);
    if IsCall(e) {
      CallLeavesNoNewStaleKey(w, e, a, key);
    }
  }

  lemma CallLeavesNoNewStaleKey(w: World, e: Event, a: nat, key: Key)
    requires w.Valid() && Enabled(w, e) && IsCall(e) && Stale(Step(w, e), a, key)
    ensures Stale(w, a, key) && !Refreshes(w, e, a)
  {
    var cfg, v, o := w.AuthOf(e.session).config, w.ViewOf(e.session), OutcomeOf(w, e);
    if w.sessions[e.session].auth == a {
      assert Step(w, e).auths[a].keys == o.view.keys && w.auths[a].keys == v.keys;
      if e.PublicKey? {
        PublicKeyMemory(cfg, w.disk, v, e.key, e.io);
      } else {
        PasswordMemory(cfg, w.disk, v, e.password, e.io);
      }
    } else {
      assert Step(w, e).auths[a] == w.auths[a];
    }
  }

  /** A key in memory that the vault no longer holds was revoked earlier, and its
      authenticator has not listed the vault since. */
  lemma {:induction false} StaleKeyWasRevoked(ws: seq<World>, es: seq<Event>, n: nat, a: nat, key: Key) returns (j: nat)
    requires IsRun(ws, es) && n <= |es| && MemoryBacked(ws[0]) && AuthsStartBacked(ws, es)
    requires Stale(ws[n], a, key)
    ensures j < n && es[j] == Revoke(key)
    ensures forall i | j < i < n :: !RefreshesAt(ws, es, i, a)
  {
    assert n > 0;
    assert StepAt(ws, es, n - 1);
    StaleStep(ws[n - 1], es[n - 1], a, key);
    if es[n - 1] == Revoke(key) {
      j := n - 1;
    } else {
      j := StaleKeyWasRevoked(ws, es, n - 1, a, key);
    }
  }

  /** The call at `i` accepts the presented key otherwise than by the accept-all policy. */
  ghost predicate AcceptsKeyAt(ws: seq<World>, es: seq<Event>, i: nat)
    requires IsRun(ws, es)
  {
    && i < |es| && es[i].PublicKey? && CallOutcome(ws, es, i).reply == Accept
    && !AuthAt(ws, es, i).config.policy.AcceptAll?
  }

  /** Revocation takes effect with the next listing: a key accepted under Strict or
      Tofu has its record on disk, or it was revoked and its authenticator has not
      listed the vault since, this call included. */
  lemma AcceptedKeyIsVaultedOrRevoked(ws: seq<World>, es: seq<Event>, i: nat)
    requires IsRun(ws, es) && MemoryBacked(ws[0]) && AuthsStartBacked(ws, es)
    requires AcceptsKeyAt(ws, es, i)
    ensures es[i].key in ws[i + 1].disk.vault
            || exists j :: 0 <= j < i && es[j] == Revoke(es[i].key)
                           && forall k | j < k <= i :: !RefreshesAt(ws, es, k, AuthIndexAt(ws, es, i))
  {
    assert StepAt(ws, es, i);
    var w, e := ws[i], es[i];
    PublicKeyMemory(w.AuthOf(e.session).config, w.disk, w.ViewOf(e.session), e.key, e.io);
    var a := w.sessions[e.session].auth;
    if e.key !in ws[i + 1].disk.vault {
      assert ws[i + 1].auths[a].keys == OutcomeOf(w, e).view.keys;
      var j := StaleKeyWasRevoked(ws, es, i + 1, a, e.key);
    }
  }

  /** Without revocations, memory never runs ahead of the vault, so a key accepted
      under Strict or Tofu has its record on disk. */
  lemma AcceptedKeysAreVaulted(ws: seq<World>, es: seq<Event>, n: nat)
    requires IsRun(ws, es) && n <= |es| && NothingRevoked(es)
    requires MemoryBacked(ws[0]) && AuthsStartBacked(ws, es)
    ensures MemoryBacked(ws[n])
    ensures forall i | 0 <= i < n && AcceptsKeyAt(ws, es, i) :: es[i].key in ws[i + 1].disk.vault
  {
    forall a, k | 0 <= a < |ws[n].auths| && k in ws[n].auths[a].keys
      ensures k in ws[n].disk.vault
    {
      if Stale(ws[n], a, k) {
        var j := StaleKeyWasRevoked(ws, es, n, a, k);
      }
    }
    forall i | 0 <= i < n && AcceptsKeyAt(ws, es, i)
      ensures es[i].key in ws[i + 1].disk.vault
    {
      AcceptedKeyIsVaultedOrRevoked(ws, es, i);
    }
  }

  /** A key that is revoked while an authenticator has it in memory is accepted by
      that authenticator, under whatever policy and although the vault can be listed,
      and the call does not bring its record back. */
  lemma RevokedKeyIsStillAccepted(w: World, s: nat, key: Key, io: Io)
    requires w.Valid() && s < |w.sessions| && key in w.AuthOf(s).keys
    requires Truthful(Step(w, Revoke(key)), io) && !Blocks(w.ViewOf(s).limiter, io.now)
    ensures var revoked := Step(w, Revoke(key));
            && OutcomeOf(revoked, PublicKey(s, key, io)).reply == Accept
            && key !in Step(revoked, PublicKey(s, key, io)).disk.vault
  {
  }

  /** Such a run under the strict policy, from a memory that the vault backs. */
  lemma StrictAcceptsRevokedKey()
    ensures exists ws: seq<World>, es: seq<Event>, key: Key, io: Io ::
              && IsRun(ws, es) && MemoryBacked(ws[0]) && key in ws[0].disk.vault && io.read.ReadOk?
              && es == [Revoke(key), PublicKey(0, key, io)]
              && AcceptsKeyAt(ws, es, 1) && AuthAt(ws, es, 1).config.policy.Strict?
              && key !in ws[1].disk.vault && key !in ws[2].disk.vault
  {
    var key, io := Key("a"), Io(0, ReadOk([]), true);
    var w0 := World(Disk({key}, Absent), [Monitor(false, 0, false, 0, 0)],
                    [Auth(Config(Strict, None), [key], None, 0)], [Session(0, None)]);
    var es := [Revoke(key), PublicKey(0, key, io)];
    var w1 := Step(w0, es[0]);
    assert w1.disk.vault == {};
    RevokedKeyIsStillAccepted(w0, 0, key, io);
    var ws := [w0, w1, Step(w1, es[1])];
    assert StepAt(ws, es, 0) && StepAt(ws, es, 1);
    assert IsRun(ws, es);
    assert AcceptsKeyAt(ws, es, 1);
  }

  /** The documented precedence, read off the disk alone: vault, then policy, then
      password challenge, then first use. */
  ghost function DecisionFromDisk(cfg: Config, d: Disk, key: Key, writeOk: bool): Reply {
    if cfg.policy.AcceptAll? || key in d.vault then Accept
    else if cfg.policy.Strict? || !d.shadow.Absent? || cfg.temp.Some? || d.vault != {} then Reject
    else if writeOk then Accept else Error
  }

  /** How far the in-memory copy is a transparent cache: when a call that is not rate
      limited decides as the disk alone would. It does not where memory holds a revoked
      key, which is accepted, and where the vault cannot be listed and memory, which
      then stands in for it, lacks the key or differs in being empty. */
  lemma CacheIsTransparentExactly(w: World, e: Event)
    requires w.Valid() && Enabled(w, e)
    requires e.PublicKey? && !Blocks(w.ViewOf(e.session).limiter, e.io.now)
    ensures var cfg, memory, vault := w.AuthOf(e.session).config, w.AuthOf(e.session).keys, w.disk.vault;
            var first := cfg.policy.Tofu? && w.disk.shadow.Absent? && cfg.temp.None?;
            OutcomeOf(w, e).reply == DecisionFromDisk(cfg, w.disk, e.key, e.io.writeOk) <==>
              || cfg.policy.AcceptAll?
              || (if e.key in memory then e.key in vault || (first && vault == {} && e.io.writeOk)
                  else if e.io.read.ReadOk? then true
                  else if e.key in vault then first && memory == [] && e.io.writeOk
                  else !first || (memory == [] <==> vault == {}))
  {
    if e.io.read.ReadOk? && e.io.read.listing != [] {
      assert e.io.read.listing[0] in w.disk.vault;
    }
  }

  /** An authenticator whose memory the vault backs is transparent. */
  lemma CacheIsTransparent(w: World, e: Event)
    requires w.Valid() && Enabled(w, e) && MemoryBacked(w)
    requires e.PublicKey? && e.io.read.ReadOk? && !Blocks(w.ViewOf(e.session).limiter, e.io.now)
    ensures OutcomeOf(w, e).reply == DecisionFromDisk(w.AuthOf(e.session).config, w.disk, e.key, e.io.writeOk)
  {
    var a := w.sessions[e.session].auth;
    assert w.auths[a] == w.AuthOf(e.session);
    CacheIsTransparentExactly(w, e);
  }

  /** What decides a password call: an unreadable shadow file refuses everybody, the
      node password comes first and admits nobody, and the code admits exactly a key
      that waits in the slot and is not known yet. */
  lemma PasswordDecision(w: World, e: Event)
    requires w.Valid() && Enabled(w, e) && e.Password?
    ensures var o, v, cfg, shadow := OutcomeOf(w, e), w.ViewOf(e.session), w.AuthOf(e.session).config, w.disk.shadow;
            var node := shadow.Stored? && shadow.hash.accepts(e.password);
            var code := cfg.temp.Some? && cfg.temp.value.accepts(e.password);
            var open := !Blocks(v.limiter, e.io.now) && !shadow.Unreadable?;
            var waiting := v.cached.Some? && v.cached.value !in v.keys;
            && (o.reply == Reject <==> !open || (!node && !code))
            && (o.deed.CodeAdmitted? <==> open && !node && code && waiting && e.io.writeOk)
            && (o.reply == Error <==> open && !node && code && waiting && !e.io.writeOk)
            && (o.deed.CodeAdmitted? ==> Some(o.deed.key) == v.cached)
  {
  }

  // ---- Session isolation -------------------------------------------------------

  /** Only its own session's calls touch a slot; a key presentation can only fill
      it with the presented key; and a password call that is not turned away
      leaves it empty whatever the password was. */
  lemma SlotFrame(ws: seq<World>, es: seq<Event>, i: nat, s: nat)
    requires IsRun(ws, es) && i < |es| && s < |ws[i].sessions|
    ensures s < |ws[i + 1].sessions|
    ensures !(IsCall(es[i]) && es[i].session == s) ==> ws[i + 1].sessions[s] == ws[i].sessions[s]
    ensures es[i].PublicKey? && ws[i + 1].sessions[s].cached != ws[i].sessions[s].cached ==>
              es[i].session == s && ws[i + 1].sessions[s].cached == Some(es[i].key)
              && CallOutcome(ws, es, i).reply == Reject
    ensures es[i].Password? ==>
              ws[i + 1].sessions[s].cached == if SpendsSlotAt(ws, es, i, s) then None else ws[i].sessions[s].cached
  {
    assert StepAt(ws, es, i);
    var w, e := ws[i], es[i];
    if IsCall(e) {
      CallMovesItsSlot(w, e);
      if e.session != s {
        assert ws[i + 1].sessions[s] == w.sessions[s];
      }
    }
  }

  lemma CallMovesItsSlot(w: World, e: Event)
    requires w.Valid() && Enabled(w, e) && IsCall(e)
    ensures Step(w, e).sessions[e.session].cached == OutcomeOf(w, e).view.cached
    ensures e.PublicKey? ==> OutcomeOf(w, e).view.cached == w.sessions[e.session].cached
                             || (OutcomeOf(w, e).view.cached == Some(e.key) && OutcomeOf(w, e).reply == Reject)
    ensures e.Password? ==>
              OutcomeOf(w, e).view.cached ==
              if OutcomeOf(w, e).deed.Blocked? then w.sessions[e.session].cached else None
  {
    var cfg, v := w.AuthOf(e.session).config, w.ViewOf(e.session);
    if e.PublicKey? {
      PublicKeySlot(cfg, w.disk, v, e.key, e.io);
    } else {
      PasswordSlot(cfg, w.disk, v, e.password, e.io);
    }
  }

  /** The key in a slot was presented earlier to the same session, and no password
      call of that session got through in between. */
  ghost predicate PresentedAt(ws: seq<World>, es: seq<Event>, j: nat, n: nat, s: nat, key: Key)
    requires IsRun(ws, es) && n <= |es|
  {
    && j < n && es[j].PublicKey? && es[j].session == s && es[j].key == key
    && CallOutcome(ws, es, j).reply == Reject
    && forall m | j < m < n :: !SpendsSlotAt(ws, es, m, s)
  }

  lemma NewSlotIsEmpty(ws: seq<World>, es: seq<Event>, i: nat, s: nat)
    requires IsRun(ws, es) && i < |es| && |ws[i].sessions| <= s < |ws[i + 1].sessions|
    ensures ws[i + 1].sessions[s].cached == None
  {
    assert StepAt(ws, es, i);
  }

  lemma {:induction false} SlotHoldsPresentedKey(ws: seq<World>, es: seq<Event>, n: nat, s: nat) returns (j: nat)
    requires IsRun(ws, es) && n <= |es| && s < |ws[n].sessions| && ws[n].sessions[s].cached.Some?
    requires forall t | 0 <= t < |ws[0].sessions| :: ws[0].sessions[t].cached == None
    ensures PresentedAt(ws, es, j, n, s, ws[n].sessions[s].cached.value)
  {
    assert n > 0;
    var e := es[n - 1];
    if |ws[n - 1].sessions| <= s {
      NewSlotIsEmpty(ws, es, n - 1, s);
      assert false;
    }
    SlotFrame(ws, es, n - 1, s);
    if e.PublicKey? && ws[n].sessions[s].cached != ws[n - 1].sessions[s].cached {
      j := n - 1;
    } else {
      j := SlotHoldsPresentedKey(ws, es, n - 1, s);
    }
  }

  /** Session isolation: whatever other sessions do, a key admitted by a session's
      password step was presented to that very session, and no password call of it
      got through since. */
  lemma SessionIsolation(ws: seq<World>, es: seq<Event>, i: nat) returns (j: nat)
    requires IsRun(ws, es) && CodeAt(ws, es, i)
    requires forall t | 0 <= t < |ws[0].sessions| :: ws[0].sessions[t].cached == None
    ensures PresentedAt(ws, es, j, i, es[i].session, DeedAt(ws, es, i).key)
  {
    assert StepAt(ws, es, i);
    j := SlotHoldsPresentedKey(ws, es, i, es[i].session);
  }

  /** A presentation is consumed at most once: two admissions of one session have
      a presentation of the later key between them. */
  lemma PresentationsAreConsumedOnce(ws: seq<World>, es: seq<Event>, i: nat, i': nat)
    requires IsRun(ws, es) && CodeAt(ws, es, i) && CodeAt(ws, es, i')
    requires i < i' && es[i].session == es[i'].session
    requires forall t | 0 <= t < |ws[0].sessions| :: ws[0].sessions[t].cached == None
    ensures exists j :: i < j < i' && PresentedAt(ws, es, j, i', es[i].session, DeedAt(ws, es, i').key)
  {
    var j := SessionIsolation(ws, es, i');
    assert SpendsSlotAt(ws, es, i, es[i].session);
  }

  /** A call that keeps the presented key for the password step: it is let in under
      first use, neither memory nor a listing knows the key, and some password is set. */
  ghost predicate Waits(w: World, e: Event)
    requires w.Valid() && Enabled(w, e)
  {
    && e.PublicKey? && LetIn(w.ViewOf(e.session), e.io.now) && w.AuthOf(e.session).config.policy == Tofu
    && e.key !in w.AuthOf(e.session).keys && (e.io.read.ReadOk? ==> e.key !in e.io.read.listing)
    && (w.disk.shadow != Absent || w.AuthOf(e.session).config.temp != None)
  }

  ghost predicate WaitsAt(ws: seq<World>, es: seq<Event>, i: nat, s: nat)
    requires IsRun(ws, es)
  {
    i < |es| && es[i].PublicKey? && es[i].session == s && (assert StepAt(ws, es, i); Waits(ws[i], es[i]))
  }

  /** A key presented while a password is set is kept, whatever else is in memory, and
      its presentation is refused but not counted. */
  lemma PresentedKeyWaits(w: World, e: Event)
    requires w.Valid() && Enabled(w, e) && Waits(w, e)
    ensures var w' := Step(w, e);
            && w'.sessions[e.session].cached == Some(e.key)
            && OutcomeOf(w, e).reply == Reject && w'.disk == w.disk
            && w'.monitors[w.AuthOf(e.session).monitor].fails <= w.monitors[w.AuthOf(e.session).monitor].fails
  {
    PublicKeyDecision(w.AuthOf(e.session).config, w.disk, w.ViewOf(e.session), e.key, e.io);
    CallMovesItsSlot(w, e);
    CallsAccount(w, e);
    CallMovesItsMonitor(w, e);
  }

  /** The kept key stays while the session neither presents another one that is kept nor
      makes a password call that is let in. */
  lemma {:induction false} KeptKeyStays(ws: seq<World>, es: seq<Event>, i: nat, n: nat, s: nat)
    requires IsRun(ws, es) && WaitsAt(ws, es, i, s) && i < n <= |es|
    requires forall k | i < k < n :: !WaitsAt(ws, es, k, s) && !SpendsSlotAt(ws, es, k, s)
    ensures s < |ws[n].sessions| && ws[n].sessions[s].cached == Some(es[i].key)
    decreases n
  {
    assert StepAt(ws, es, n - 1);
    if n == i + 1 {
      PresentedKeyWaits(ws[i], es[i]);
    } else {
      KeptKeyStays(ws, es, i, n - 1, s);
      SlotFrame(ws, es, n - 1, s);
      var w, e := ws[n - 1], es[n - 1];
      if e.PublicKey? && e.session == s {
        assert !WaitsAt(ws, es, n - 1, s) && !Waits(w, e);
        PublicKeyDecision(w.AuthOf(s).config, w.disk, w.ViewOf(s), e.key, e.io);
        CallMovesItsSlot(w, e);
      }
    }
  }

  /** Pairing works: an unknown key presented while a code is set, and then the code given
      by the session's next password call let in, admits the key: it is accepted, its
      record is written, memory knows it, and the flag goes up. */
  lemma PairingAdmits(ws: seq<World>, es: seq<Event>, i: nat, j: nat)
    requires IsRun(ws, es) && i < j < |es| && es[j].Password? && WaitsAt(ws, es, i, es[j].session)
    requires forall k | i < k < j :: !WaitsAt(ws, es, k, es[j].session) && !SpendsSlotAt(ws, es, k, es[j].session)
    requires CallAt(ws, es, j) && StepAt(ws, es, j) && LetIn(ws[j].ViewOf(es[j].session), es[j].io.now)
    requires !ws[j].disk.shadow.Unreadable?
    requires ws[j].disk.shadow.Stored? ==> !ws[j].disk.shadow.hash.accepts(es[j].password)
    requires AuthAt(ws, es, j).config.temp.Some? && AuthAt(ws, es, j).config.temp.value.accepts(es[j].password)
    requires es[i].key !in AuthAt(ws, es, j).keys && es[j].io.writeOk
    ensures CallOutcome(ws, es, j).reply == Accept && DeedAt(ws, es, j) == CodeAdmitted(es[i].key)
    ensures ws[j + 1].disk.vault == ws[j].disk.vault + {es[i].key}
    ensures ws[j + 1].auths[AuthIndexAt(ws, es, j)].keys == AuthAt(ws, es, j).keys + [es[i].key]
    ensures ws[j + 1].monitors[MonitorAt(ws, es, j)].success && ws[j + 1].monitors[MonitorAt(ws, es, j)].fails == 0
    ensures ws[j + 1].sessions[es[j].session].cached == None
  {
    var w, e := ws[j], es[j];
    KeptKeyStays(ws, es, i, j, e.session);
    PasswordEffects(w.AuthOf(e.session).config, w.disk, w.ViewOf(e.session), e.password, e.io);
    CallsAccount(w, e);
    CallMovesItsMonitor(w, e);
    CallMovesItsSlot(w, e);
  }

  // ---- The success flag and the pairing signal ---------------------------------

  ghost predicate AdmitsOn(ws: seq<World>, es: seq<Event>, i: nat, m: nat)
    requires IsRun(ws, es)
  {
    AdmitsAt(ws, es, i) && MonitorAt(ws, es, i) == m
  }

  ghost function Admissions(ws: seq<World>, es: seq<Event>, n: nat, m: nat): nat
    requires IsRun(ws, es) && n <= |es|
  {
    if n == 0 then 0 else Admissions(ws, es, n - 1, m) + if AdmitsOn(ws, es, n - 1, m) then 1 else 0
  }

  /** A call that was let in although the counter was full, without failing or
      succeeding: the decayed counter stays at zero. */
  ghost predicate DecaysAt(ws: seq<World>, es: seq<Event>, i: nat, m: nat)
    requires IsRun(ws, es) && i < |es| && m < |ws[i].monitors|
  {
    && CallAt(ws, es, i) && MonitorAt(ws, es, i) == m && DeedAt(ws, es, i).Neutral?
    && ws[i].monitors[m].fails >= MAX_FAILURES
  }

  lemma CallsAccount(w: World, e: Event)
    requires w.Valid() && Enabled(w, e) && IsCall(e)
    ensures Accounts(w.ViewOf(e.session), OutcomeOf(w, e).deed, OutcomeOf(w, e).view)
  {
    var cfg, v := w.AuthOf(e.session).config, w.ViewOf(e.session);
    if e.PublicKey? {
      PublicKeyAccounts(cfg, w.disk, v, e.key, e.io);
    } else {
      PasswordAccounts(cfg, w.disk, v, e.password, e.io);
    }
  }

  /** What one step does to a monitor, wherever it happens: a success of anybody
      sharing it clears the counter, a failure counts one up, from zero if the window
      has passed; the third failure sends a burn signal and an admission a pairing
      signal, where channels are attached; nothing else moves anything. */
  lemma MonitorStep(ws: seq<World>, es: seq<Event>, i: nat, m: nat)
    requires IsRun(ws, es) && i < |es| && m < |ws[i].monitors|
    ensures m < |ws[i + 1].monitors|
    ensures var before, after := ws[i].monitors[m], ws[i + 1].monitors[m];
            && after.notifies == before.notifies
            && after.success == (before.success || AdmitsOn(ws, es, i, m))
            && after.pairSignals == before.pairSignals + (if before.notifies && AdmitsOn(ws, es, i, m) then 1 else 0)
            && after.fails ==
               (if FailsAt(ws, es, i, m) then (if before.fails >= MAX_FAILURES then 1 else before.fails + 1)
                else if ClearsAt(ws, es, i, m) || DecaysAt(ws, es, i, m) then 0
                else before.fails)
            && after.burnSignals == before.burnSignals
               + (if before.notifies && FailsAt(ws, es, i, m) && after.fails >= MAX_FAILURES then 1 else 0)
  {
    assert StepAt(ws, es, i);
    var w, e := ws[i], es[i];
    if IsCall(e) {
      CallsAccount(w, e);
      assert Step(w, e) == w.With(e.session, OutcomeOf(w, e));
      if MonitorAt(ws, es, i) == m {
        CallMovesItsMonitor(w, e);
      } else {
        assert ws[i + 1].monitors[m] == w.monitors[m];
      }
    } else {
      assert ws[i + 1].monitors[m] == w.monitors[m];
    }
  }

  lemma CallMovesItsMonitor(w: World, e: Event)
    requires w.Valid() && Enabled(w, e) && IsCall(e)
    ensures var m, v := w.AuthOf(e.session).monitor, OutcomeOf(w, e).view;
            Step(w, e).monitors[m] == Monitor(v.notifies, v.limiter.fails, v.success, v.pairSignals, v.burnSignals)
  {
  }

  /** Whoever is accepted, other than by the accept-all policy, clears the counter;
      whoever is turned down by a password check that was let in is counted. */
  lemma RepliesAreCounted(ws: seq<World>, es: seq<Event>, i: nat)
    requires IsRun(ws, es) && CallAt(ws, es, i)
    ensures var reply := CallOutcome(ws, es, i).reply;
            && (reply == Accept && (es[i].Password? || !AuthAt(ws, es, i).config.policy.AcceptAll?)
                <==> ClearsAt(ws, es, i, MonitorAt(ws, es, i)))
            && (es[i].Password? && reply == Reject && !DeedAt(ws, es, i).Blocked?
                <==> es[i].Password? && FailsAt(ws, es, i, MonitorAt(ws, es, i)))
  {
    assert StepAt(ws, es, i);
  }

  /** The flag is up exactly when somebody sharing it has admitted a key, and each
      admission sent exactly one pairing signal where channels are attached. */
  lemma {:induction false} FlagTellsAdmission(ws: seq<World>, es: seq<Event>, n: nat, m: nat)
    requires IsRun(ws, es) && n <= |es| && m < |ws[0].monitors| && !ws[0].monitors[m].success
    ensures m < |ws[n].monitors|
    ensures ws[n].monitors[m].success <==> exists i :: 0 <= i < n && AdmitsOn(ws, es, i, m)
    ensures ws[n].monitors[m].success <==> Admissions(ws, es, n, m) > 0
    ensures ws[n].monitors[m].notifies == ws[0].monitors[m].notifies
    ensures ws[n].monitors[m].pairSignals ==
            ws[0].monitors[m].pairSignals + if ws[0].monitors[m].notifies then Admissions(ws, es, n, m) else 0
  {
    if n > 0 {
      FlagTellsAdmission(ws, es, n - 1, m);
      MonitorStep(ws, es, n - 1, m);
      if AdmitsOn(ws, es, n - 1, m) {
        assert exists i :: 0 <= i < n && AdmitsOn(ws, es, i, m);
      }
    }
  }

  // ---- Rate limiting -----------------------------------------------------------

  /** The counter never exceeds three, however many authenticators share it. */
  ghost predicate CountersBounded(w: World) {
    forall m | 0 <= m < |w.monitors| :: w.monitors[m].fails <= MAX_FAILURES
  }

  lemma {:induction false} CounterNeverExceedsThree(ws: seq<World>, es: seq<Event>, n: nat)
    requires IsRun(ws, es) && n <= |es| && CountersBounded(ws[0])
    ensures CountersBounded(ws[n])
  {
    if n > 0 {
      CounterNeverExceedsThree(ws, es, n - 1);
      assert StepAt(ws, es, n - 1);
      forall m | 0 <= m < |ws[n].monitors|
        ensures ws[n].monitors[m].fails <= MAX_FAILURES
      {
        if m < |ws[n - 1].monitors| {
          MonitorStep(ws, es, n - 1, m);
        }
      }
    }
  }
}
