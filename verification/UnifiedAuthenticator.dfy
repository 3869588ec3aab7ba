/** The unified authenticator as the program builds it: immutable handles on
    shared cells, updated in place by every check. */
module UnifiedAuthenticators {
  import opened Options
  import opened RateLimiter
  import opened UnifiedPolicy

  /** The state directory: authorised client keys and the shadow file. */
  class StateDir {
    var vault: set<Key>
    var shadow: Shadow

    constructor (vault: set<Key>, shadow: Shadow)
      ensures this.vault == vault && this.shadow == shadow
    {
      this.vault, this.shadow := vault, shadow;
    }
  }

  /** Tracking handles of a pairing; `notifies` tells whether channels are attached. */
  class PairingMonitor {
    const notifies: bool
    var successFlag: bool
    var failedAttempts: nat
    var pairSignals: nat
    var burnSignals: nat

    constructor (notifies: bool)
      ensures this.notifies == notifies
      ensures !successFlag && failedAttempts == 0 && pairSignals == 0 && burnSignals == 0
    {
      this.notifies := notifies;
      successFlag, failedAttempts, pairSignals, burnSignals := false, 0, 0, 0;
    }
  }

  class KeyList {
    var keys: seq<Key>

    constructor (keys: seq<Key>)
      ensures this.keys == keys
    {
      this.keys := keys;
    }
  }

  class FailureClock {
    var last: Option<nat>

    constructor ()
      ensures last == None
    {
      last := None;
    }
  }

  class KeySlot {
    var cached: Option<Key>

    constructor ()
      ensures cached == None
    {
      cached := None;
    }
  }

  class UnifiedAuthenticator {
    const state: StateDir
    const config: Config
    const authorizedKeys: KeyList
    const monitor: PairingMonitor
    const lastFailure: FailureClock
    const cachedKey: KeySlot

    /** Nothing is attached to a monitor made for a stand-alone authenticator. */
    constructor (state: StateDir, config: Config, keys: seq<Key>)
      ensures this.state == state && this.config == config
      ensures fresh(authorizedKeys) && fresh(monitor) && fresh(lastFailure) && fresh(cachedKey)
      ensures Look() == View(keys, Limiter(0, None), false, None, false, 0, 0)
    {
      this.state, this.config := state, config;
      authorizedKeys := new KeyList(keys);
      monitor := new PairingMonitor(false);
      lastFailure := new FailureClock();
      cachedKey := new KeySlot();
    }

    /** Shares the monitor's flag and counter, but not the failure clock. */
    constructor WithTracking(state: StateDir, config: Config, keys: seq<Key>, monitor: PairingMonitor)
      ensures this.state == state && this.config == config && this.monitor == monitor
      ensures fresh(authorizedKeys) && fresh(lastFailure) && fresh(cachedKey)
      ensures Look() == View(keys, Limiter(monitor.failedAttempts, None), monitor.successFlag, None,
                             monitor.notifies, monitor.pairSignals, monitor.burnSignals)
    {
      this.state, this.config, this.monitor := state, config, monitor;
      authorizedKeys := new KeyList(keys);
      lastFailure := new FailureClock();
      cachedKey := new KeySlot();
    }

    /** A view for one connection: every handle is shared except the key slot. */
    constructor ForNewSession(parent: UnifiedAuthenticator)
      ensures state == parent.state && config == parent.config
      ensures authorizedKeys == parent.authorizedKeys && monitor == parent.monitor
      ensures lastFailure == parent.lastFailure && fresh(cachedKey)
      ensures Look() == parent.Look().(cached := None)
    {
      state, config := parent.state, parent.config;
      authorizedKeys, monitor, lastFailure := parent.authorizedKeys, parent.monitor, parent.lastFailure;
      cachedKey := new KeySlot();
    }

    /** The values behind the handles. */
    ghost function Look(): View
      reads authorizedKeys, monitor, lastFailure, cachedKey
    {
      View(authorizedKeys.keys, Limiter(monitor.failedAttempts, lastFailure.last), monitor.successFlag,
           cachedKey.cached, monitor.notifies, monitor.pairSignals, monitor.burnSignals)
    }

    ghost function LookDisk(): Disk
      reads state
    {
      Disk(state.vault, state.shadow)
    }

    method IsLockedOut(now: nat) returns (locked: bool)
      modifies monitor`failedAttempts
      ensures locked == Blocks(old(Look()).limiter, now)
      ensures Look() == old(Look()).(limiter := Tested(old(Look()).limiter, now))
    {
      if monitor.failedAttempts < MAX_FAILURES {
        return false;
      }
      if lastFailure.last.None? {
        return true;
      }
      if now - lastFailure.last.value > LOCKOUT_WINDOW {
        monitor.failedAttempts := 0;
        return false;
      }
      return true;
    }

    method ResetFailures()
      modifies monitor`failedAttempts
      ensures Look() == WithSuccess(old(Look()))
    {
      monitor.failedAttempts := 0;
    }

    method RecordFailure(now: nat)
      modifies monitor`failedAttempts, monitor`burnSignals, lastFailure
      ensures Look() == WithFailure(old(Look()), now)
    {
      lastFailure.last := Some(now);
      monitor.failedAttempts := monitor.failedAttempts + 1;
      if monitor.failedAttempts >= MAX_FAILURES && monitor.notifies {
        monitor.burnSignals := monitor.burnSignals + 1;
      }
    }

    method RefreshKeys(read: VaultRead)
      modifies authorizedKeys
      ensures Look() == Refreshed(old(Look()), read)
    {
      if read.ReadOk? {
        authorizedKeys.keys := read.listing;
      }
    }

    /** Appends an admitted key in memory, raises the flag and tells the server. */
    method Admit(key: Key)
      modifies authorizedKeys, monitor`successFlag, monitor`pairSignals
      ensures Look() == WithAdmitted(old(Look()), key)
    {
      authorizedKeys.keys := authorizedKeys.keys + [key];
      monitor.successFlag := true;
      if monitor.notifies {
        monitor.pairSignals := monitor.pairSignals + 1;
      }
    }

    /** Writes the key's record below the state directory. */
    method WriteAuthorizedClient(key: Key, writeOk: bool) returns (ok: bool)
      modifies state`vault
      ensures ok == writeOk
      ensures state.vault == if ok then old(state.vault) + {key} else old(state.vault)
    {
      if writeOk {
        state.vault := state.vault + {key};
      }
      return writeOk;
    }

    method CheckPublicKey(key: Key, io: Io) returns (reply: Reply)
      modifies state`vault, authorizedKeys, monitor, lastFailure, cachedKey
      ensures var o := PublicKeyCall(config, old(LookDisk()), old(Look()), key, io);
              LookDisk() == o.disk && Look() == o.view && reply == o.reply
    {
      var locked := IsLockedOut(io.now);
      if locked {
        return Reject;
      }
      if config.policy.AcceptAll? {
        return Accept;
      }
      if key in authorizedKeys.keys {
        ResetFailures();
        return Accept;
      }
      RefreshKeys(io.read);
      if key in authorizedKeys.keys {
        ResetFailures();
        return Accept;
      }
      if config.policy.Strict? {
        RecordFailure(io.now);
        return Reject;
      }
      if !state.shadow.Absent? || config.temp.Some? {
        cachedKey.cached := Some(key);
        return Reject;
      }
      if authorizedKeys.keys == [] {
        var written := WriteAuthorizedClient(key, io.writeOk);
        if !written {
          return Error;
        }
        Admit(key);
        ResetFailures();
        return Accept;
      }
      RecordFailure(io.now);
      return Reject;
    }

    method CheckPassword(password: string, io: Io) returns (reply: Reply)
      modifies state`vault, authorizedKeys, monitor, lastFailure, cachedKey
      ensures var o := PasswordCall(config, old(LookDisk()), old(Look()), password, io);
              LookDisk() == o.disk && Look() == o.view && reply == o.reply
    {
      var locked := IsLockedOut(io.now);
      if locked {
        return Reject;
      }
      match PasswordMatch(config, state.shadow, password) {
        case NoMatch =>
          cachedKey.cached := None;
          RecordFailure(io.now);
          return Reject;
        case NodePassword =>
          cachedKey.cached := None;
        case PairingCode =>
          if cachedKey.cached.Some? {
            var key := cachedKey.cached.value;
            cachedKey.cached := None;
            if key !in authorizedKeys.keys {
              var written := WriteAuthorizedClient(key, io.writeOk);
              if !written {
                return Error;
              }
              Admit(key);
            }
          }
      }
      ResetFailures();
      return Accept;
    }
  }
}
