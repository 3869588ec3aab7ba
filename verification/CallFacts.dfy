/** What single calls of the unified authenticator do, one concern at a time. */
module CallFacts {
  import opened Options
  import opened RateLimiter
  import opened UnifiedPolicy

  predicate Admits(deed: Deed) {
    deed.TofuAdmitted? || deed.CodeAdmitted?
  }

  /** What a call does to the shared monitor, told from what the call amounted to. */
  predicate Accounts(before: View, deed: Deed, after: View) {
    && after.notifies == before.notifies
    && after.success == (before.success || Admits(deed))
    && after.pairSignals == before.pairSignals + (if before.notifies && Admits(deed) then 1 else 0)
    && after.limiter.fails ==
       (if deed.Failed? then (if before.limiter.fails >= MAX_FAILURES then 1 else before.limiter.fails + 1)
        else if deed.Trusted? || Admits(deed) || (deed.Neutral? && before.limiter.fails >= MAX_FAILURES) then 0
        else before.limiter.fails)
    && after.burnSignals == before.burnSignals
       + (if before.notifies && deed.Failed? && after.limiter.fails >= MAX_FAILURES then 1 else 0)
  }

  lemma UnknownKeyAccounts(cfg: Config, d: Disk, v: View, key: Key, io: Io)
    requires v.limiter.fails < MAX_FAILURES
    ensures var o := UnknownKeyCall(cfg, d, v, key, io); Accounts(v, o.deed, o.view) && !o.deed.Blocked?
  {
  }

  lemma PublicKeyAccounts(cfg: Config, d: Disk, v: View, key: Key, io: Io)
    ensures var o := PublicKeyCall(cfg, d, v, key, io); Accounts(v, o.deed, o.view)
  {
    if !Blocks(v.limiter, io.now) {
      var tested := v.(limiter := Tested(v.limiter, io.now));
      UnknownKeyAccounts(cfg, d, Refreshed(tested, io.read), key, io);
    }
  }

  lemma PasswordAccounts(cfg: Config, d: Disk, v: View, password: string, io: Io)
    ensures var o := PasswordCall(cfg, d, v, password, io); Accounts(v, o.deed, o.view)
  {
  }

  /** A presentation fills the slot with the presented key or leaves it alone. */
  lemma PublicKeySlot(cfg: Config, d: Disk, v: View, key: Key, io: Io)
    ensures var o := PublicKeyCall(cfg, d, v, key, io);
            o.view.cached == v.cached || (o.view.cached == Some(key) && o.reply == Reject)
  {
  }

  /** A password call that is let in leaves the slot empty. */
  lemma PasswordSlot(cfg: Config, d: Disk, v: View, password: string, io: Io)
    ensures var o := PasswordCall(cfg, d, v, password, io);
            o.view.cached == if o.deed.Blocked? then v.cached else None
  {
  }

  /** Where the keys in memory come from, and that an accepted key is among them. */
  lemma PublicKeyMemory(cfg: Config, d: Disk, v: View, key: Key, io: Io)
    ensures var o := PublicKeyCall(cfg, d, v, key, io);
            && (forall k | k in o.view.keys ::
                  k in v.keys || (io.read.ReadOk? && k in io.read.listing) || k in o.disk.vault)
            && (o.reply == Accept && !cfg.policy.AcceptAll? ==> key in o.view.keys)
            && d.vault <= o.disk.vault
  {
  }

  lemma PasswordMemory(cfg: Config, d: Disk, v: View, password: string, io: Io)
    ensures var o := PasswordCall(cfg, d, v, password, io);
            (forall k | k in o.view.keys :: k in v.keys || k in o.disk.vault) && d.vault <= o.disk.vault
  {
  }

  /** Whether a call at `now` is let in: fewer than three failures are counted, or the
      last one is more than sixty seconds old. */
  predicate LetIn(v: View, now: nat) {
    v.limiter.fails < 3 || (v.limiter.last.Some? && now > v.limiter.last.value + 60_000_000_000)
  }

  /** What decides a public-key call, and all it leaves behind: the key is looked for in
      memory and, if it is not there, in the listing that replaces memory; a key known
      to neither is counted under the strict policy, kept for the password step where
      any password is set, admitted into an empty list, and otherwise counted. */
  lemma PublicKeyDecision(cfg: Config, d: Disk, v: View, key: Key, io: Io)
    ensures var o := PublicKeyCall(cfg, d, v, key, io);
            var memory := if io.read.ReadOk? then io.read.listing else v.keys;
            var known := key in v.keys || key in memory;
            var challenged := d.shadow != Absent || cfg.temp != None;
            var unknown := LetIn(v, io.now) && cfg.policy != AcceptAll && !known;
            var first := unknown && cfg.policy == Tofu && !challenged && memory == [];
            && (o.deed == Blocked <==> !LetIn(v, io.now))
            && (o.deed == Trusted <==> LetIn(v, io.now) && cfg.policy != AcceptAll && known)
            && (o.deed == Failed <==> unknown && (cfg.policy == Strict || (!challenged && memory != [])))
            && (o.deed.TofuAdmitted? <==> first && io.writeOk) && (o.deed.TofuAdmitted? ==> o.deed.key == key)
            && !o.deed.CodeAdmitted?
            && (o.reply == Accept <==> LetIn(v, io.now) && (cfg.policy == AcceptAll || known || (first && io.writeOk)))
            && (o.reply == Error <==> first && !io.writeOk)
            && o.view.cached == (if unknown && cfg.policy == Tofu && challenged then Some(key) else v.cached)
            && o.view.keys == (if !LetIn(v, io.now) || cfg.policy == AcceptAll || key in v.keys then v.keys else memory)
                              + (if first && io.writeOk then [key] else [])
            && o.disk == (if first && io.writeOk then Disk(d.vault + {key}, d.shadow) else d)
            && o.view.limiter.last == (if o.deed == Failed then Some(io.now) else v.limiter.last)
  {
    assert v.keys + [] == v.keys;
    if io.read.ReadOk? {
      assert io.read.listing + [] == io.read.listing;
    }
  }

  /** What a password call leaves behind, and when it is trusted without admitting. */
  lemma PasswordEffects(cfg: Config, d: Disk, v: View, password: string, io: Io)
    ensures var o := PasswordCall(cfg, d, v, password, io);
            var open := LetIn(v, io.now) && d.shadow != Unreadable;
            var node := open && d.shadow.Stored? && d.shadow.hash.accepts(password);
            var code := open && !node && cfg.temp.Some? && cfg.temp.value.accepts(password);
            var waiting := v.cached.Some? && v.cached.value !in v.keys;
            && (o.deed == Blocked <==> !LetIn(v, io.now))
            && (o.deed == Trusted <==> node || (code && !waiting))
            && (o.deed == Failed <==> LetIn(v, io.now) && !node && !code)
            && (o.deed.CodeAdmitted? <==> code && waiting && io.writeOk)
            && (o.reply == Accept <==> node || (code && (waiting ==> io.writeOk)))
            && (o.reply == Error <==> code && waiting && !io.writeOk)
            && o.view.cached == (if LetIn(v, io.now) then None else v.cached)
            && o.view.keys == v.keys + (if code && waiting && io.writeOk then [v.cached.value] else [])
            && o.disk == (if code && waiting && io.writeOk then Disk(d.vault + {v.cached.value}, d.shadow) else d)
            && o.view.limiter.last == (if o.deed == Failed then Some(io.now) else v.limiter.last)
  {
    assert v.keys + [] == v.keys;
  }
}
