/** One call of the unified authenticator as a function of everything it can
    see: the state directory, the shared cells, the session's key slot, the
    clock, and how the directory reads and writes of that call turn out. */
module UnifiedPolicy {
  import opened Options
  import opened RateLimiter

  /** A public key. Fingerprints are taken to be injective, so a key is its fingerprint. */
  datatype Key = Key(fingerprint: string)

  datatype Policy = Strict | Tofu | AcceptAll

  /** A stored password hash: what matters of it is which passwords verify
      (a malformed hash verifies none). */
  datatype PasswordHash = PasswordHash(accepts: string -> bool)

  /** What reading the shadow file yields. */
  datatype Shadow = Absent | Stored(hash: PasswordHash) | Unreadable

  datatype Disk = Disk(vault: set<Key>, shadow: Shadow)

  /** What listing the vault directory yields during one call; the order of a
      listing is up to the file system. */
  datatype VaultRead = ReadFailed | ReadOk(listing: seq<Key>)

  datatype Io = Io(now: nat, read: VaultRead, writeOk: bool)

  datatype Config = Config(policy: Policy, temp: Option<PasswordHash>)

  /** Everything an authenticator view reaches through its shared handles.
      `notifies` tells whether pairing channels are attached. */
  datatype View = View(
    keys: seq<Key>,
    limiter: Limiter,
    success: bool,
    cached: Option<Key>,
    notifies: bool,
    pairSignals: nat,
    burnSignals: nat)

  datatype Reply = Accept | Reject | Error

  /** What a call amounted to: it was turned away, it left the counter alone,
      it recorded a failure, it cleared the counter, or it admitted a key. */
  datatype Deed = Blocked | Neutral | Failed | Trusted | TofuAdmitted(key: Key) | CodeAdmitted(key: Key)

  datatype Outcome = Outcome(disk: Disk, view: View, reply: Reply, deed: Deed)

  function WithFailure(v: View, now: nat): View {
    var l := Recorded(v.limiter, now);
    v.(limiter := l,
       burnSignals := if l.fails >= MAX_FAILURES && v.notifies then v.burnSignals + 1 else v.burnSignals)
  }

  function WithSuccess(v: View): View {
    v.(limiter := Cleared(v.limiter))
  }

  function WithAdmitted(v: View, key: Key): View {
    v.(keys := v.keys + [key],
       success := true,
       pairSignals := if v.notifies then v.pairSignals + 1 else v.pairSignals)
  }

  function PublicKeyCall(cfg: Config, d: Disk, v: View, key: Key, io: Io): Outcome {
    if Blocks(v.limiter, io.now) then Outcome(d, v, Reject, Blocked) else
    var tested := v.(limiter := Tested(v.limiter, io.now));
    if cfg.policy.AcceptAll? then Outcome(d, tested, Accept, Neutral)
    else if key in tested.keys then Outcome(d, WithSuccess(tested), Accept, Trusted)
    else UnknownKeyCall(cfg, d, Refreshed(tested, io.read), key, io)
  }

  function Refreshed(v: View, read: VaultRead): View {
    match read
    case ReadFailed => v
    case ReadOk(listing) => v.(keys := listing)
  }

  function UnknownKeyCall(cfg: Config, d: Disk, v: View, key: Key, io: Io): Outcome {
    if key in v.keys then Outcome(d, WithSuccess(v), Accept, Trusted)
    else if cfg.policy.Strict? then Outcome(d, WithFailure(v, io.now), Reject, Failed)
    else if !d.shadow.Absent? || cfg.temp.Some? then Outcome(d, v.(cached := Some(key)), Reject, Neutral)
    else if v.keys == [] then
      if !io.writeOk then Outcome(d, v, Error, Neutral)
      else Outcome(d.(vault := d.vault + {key}), WithSuccess(WithAdmitted(v, key)), Accept, TofuAdmitted(key))
    else Outcome(d, WithFailure(v, io.now), Reject, Failed)
  }

  /** Which password matched: the node password, the temporary code, or neither.
      An unreadable shadow file fails closed before the code is looked at. */
  datatype Match = NodePassword | PairingCode | NoMatch

  function PasswordMatch(cfg: Config, shadow: Shadow, password: string): Match {
    if shadow.Unreadable? then NoMatch
    else if shadow.Stored? && shadow.hash.accepts(password) then NodePassword
    else if cfg.temp.Some? && cfg.temp.value.accepts(password) then PairingCode
    else NoMatch
  }

  function PasswordCall(cfg: Config, d: Disk, v: View, password: string, io: Io): Outcome {
    if Blocks(v.limiter, io.now) then Outcome(d, v, Reject, Blocked) else
    var tested := v.(limiter := Tested(v.limiter, io.now));
    var emptied := tested.(cached := None);
    match PasswordMatch(cfg, d.shadow, password)
    case NoMatch => Outcome(d, WithFailure(emptied, io.now), Reject, Failed)
    case NodePassword => Outcome(d, WithSuccess(emptied), Accept, Trusted)
    case PairingCode =>
      if v.cached.None? || v.cached.value in v.keys then Outcome(d, WithSuccess(emptied), Accept, Trusted)
      else if !io.writeOk then Outcome(d, emptied, Error, Neutral)
      else
        var key := v.cached.value;
        Outcome(d.(vault := d.vault + {key}), WithSuccess(WithAdmitted(emptied, key)), Accept, CodeAdmitted(key))
  }
}
