# Verification of irosh

Dafny models of the parts of irosh whose behaviour ranges over unbounded runs or
unbounded inputs, and proofs of what they promise. Code that updates objects step by
step is modelled by classes and loops, each proved against a function of its inputs or
of its old state; the theorems are lemmas about those functions over all runs.

| files | what they model |
|---|---|
| `RateLimiter.dfy`, `PasswordAuth.dfy` | the decaying failure counter, and the password authenticator whose checks overlap |
| `UnifiedPolicy.dfy`, `CallFacts.dfy`, `UnifiedAuthenticator.dfy` | one call of the unified authenticator as a function, and the class with its shared cells |
| `AuthRuns.dfy`, `AuthTheorems.dfy` | any number of authenticators, session views and monitors over one state directory, and what every run keeps |
| `AuthRates.dfy`, `AuthSharing.dfy` | how fast failures can follow each other, and which sharings of a monitor keep the rate bound |
| `TrustStore.dfy` | the directory of authorised client keys |
| `AtomicWrite.dfy`, `TempNames.dfy` | the atomic secure write as steps of many writers, with failures, crashes and power loss |
| `EchoFilter.dfy`, `DsrDetector.dfy` | the byte-stream machines of the shell channel |
| `Completion.dfy`, `ShellWords.dfy`, `Fnmatch.dfy`, `Sorting.dfy` | tab completion, both ways |
| `Paths.dfy` | path sanitising and lexical resolution |
| `Framing.dfy` | metadata and transfer frames, dispatch on the magic |
| `WormholeServer.dfy` | the server's event loop around the pairing wormhole |
| `History.dfy`, `IdleReaper.dfy` | command history and the idle reaper |

Conventions: times are natural numbers of nanoseconds on a clock that does not go back.
A key is identified with its fingerprint, a password hash with the set of passwords it
verifies, JSON payloads with their bytes. The failure counter is a `nat`: it is proved to
stay within 3 (or within c + 2 for c overlapping checks), far below the wrap-around of the
32-bit counter. Outcomes of disk operations are inputs of each call. A mutex that is
poisoned is not modelled.

## Where the code and its comments differ

- Echo filter (`src/server/handler/pty.rs:181-183`): the comment says the remainder of a
  sequence split over two calls is swallowed by the next call. The code keeps no state
  between calls, so it is echoed (`SplitArrowKeyIsEchoed`). `ComposesExactlyAtClosedCuts`
  gives the exact condition under which filtering call by call equals filtering the whole.
- Rate limiting (`docs/README.md:347-358` calls the window node-wide): authenticators made
  over one monitor share the counter but not the failure clock, and the server makes one
  per pairing connection (`src/server/protocol.rs:164-175`). All runs keep
  to three failures a window if and only if at most one authenticator, with all its session
  views, uses the monitor, or nobody is ever let in (`RateBoundExactly`). Where k use it
  and the counter never decays without a failure, as it never does among strict ones, they
  keep to 3k failures a window (`RateBoundOfMany`, `RateBoundOfStrict`). From a clear counter any
  number of failures fits into an instant if and only if two use it and one of them is not
  strict (`UnboundedExactly`); pairing connections with a code do it by presenting a key
  (`SharedMonitorEscapesRateBound`). Accepting under the accept-all policy does not clear
  the counter (`RepliesAreCounted`).
- No permanent lockout (`src/auth/unified.rs:154-156`): an authenticator that has recorded
  no failure itself is shut out of a full shared counter for good, until somebody else
  clears it or lets it decay (`ShutForGoodExactly`, `NoClockNoWindow`); three failures of
  another connection are enough (`StrangersFailuresShutOut`).
- First use (`src/auth/unified.rs:316-317`): a failed listing of the vault is ignored, so a
  claimed vault is open to first use exactly when the listing fails and the list in memory
  is empty (`TofuIntoClaimedVaultExactly`); the once-only guarantee needs successful
  listings (`TofuAtMostOnce`, `TofuTwiceWhenListingFails`).
- Precedence (`src/auth/unified.rs:37-41`, revocation in `cli/src/commands/trust.rs:144`):
  the key list in memory is looked at first and refreshed only for an unknown key
  (`src/auth/unified.rs:306-315`). A key revoked while the server runs is still accepted by
  an authenticator that has it in memory, under the strict policy too
  (`RevokedKeyIsStillAccepted`, `StrictAcceptsRevokedKey`), until that authenticator lists
  the vault for some other key (`AcceptedKeyIsVaultedOrRevoked`). And where the vault
  cannot be listed, a key that it holds and memory lacks is refused, although established
  trust is to win always; a pairing connection starts with an empty memory when its own
  listing fails (`src/server/protocol.rs:154-162`). `CacheIsTransparentExactly` says for
  every call let in whether it decides as the precedence read off the disk.
- Completion (`src/server/transfer/control.rs:144-146`): the escaped prefix is matched
  literally for a matcher that takes a backslash inside brackets as itself. For one that
  lets it escape, escaping is exact just for prefixes without a backslash
  (`EscapingIsExact`, `PathsAgreeExactly`).
- History (`cli/src/commands/connect/history.rs:53-59`): memory and file stay in step exactly
  when the file ended its last line and the command is a single one (`AddIsFaithfulExactly`).

## Model

| member | source | states |
|---|---|---|
| UnifiedAuthenticators.UnifiedAuthenticator.constructor | src/auth/unified.rs:74-92 | a new authenticator shares nothing: fresh key list, clear flag, zero counter, no failure time, empty slot, no channels |
| UnifiedAuthenticators.UnifiedAuthenticator.WithTracking | src/auth/unified.rs:97-116 | shares the monitor's flag and counter, but has its own failure clock, key list and slot |
| UnifiedAuthenticators.UnifiedAuthenticator.ForNewSession | src/auth/unified.rs:125-138 | a session view shares every handle with its parent except a fresh, empty key slot |
| UnifiedAuthenticators.UnifiedAuthenticator.IsLockedOut | src/auth/unified.rs:157-173 | answers the lock test and decays a full counter whose last failure is older than the window |
| UnifiedAuthenticators.UnifiedAuthenticator.ResetFailures | src/auth/unified.rs:176-178 | only the counter goes to zero |
| UnifiedAuthenticators.UnifiedAuthenticator.RecordFailure | src/auth/unified.rs:182-193 | counts one failure, stamps the clock, signals a burn from the third failure on |
| UnifiedAuthenticators.UnifiedAuthenticator.RefreshKeys | src/auth/unified.rs:205-211 | replaces the in-memory keys by a successful listing and leaves them on a failed one |
| UnifiedAuthenticators.UnifiedAuthenticator.CheckPublicKey | src/auth/unified.rs:291-370 | the in-place checks leave exactly the disk, cells and reply of the policy function `PublicKeyCall`, which the lemmas below are about |
| UnifiedAuthenticators.UnifiedAuthenticator.CheckPassword | src/auth/unified.rs:372-420 | likewise for `PasswordCall`: node password, pairing code with the cached key, or failure |
| CallFacts.PublicKeyAccounts | src/auth/unified.rs:295-367 | counter, flag and signals after a public-key call follow from whether it failed, succeeded, admitted or did none of it |
| CallFacts.PasswordAccounts | src/auth/unified.rs:376-417 | the same for password calls |
| CallFacts.PublicKeySlot | src/auth/unified.rs:344-349 | a presentation fills the slot with the presented key, and then is rejected, or leaves it alone |
| CallFacts.PasswordSlot | src/auth/unified.rs:381-413 | a password call that is not rate limited leaves the slot empty, whatever the password |
| CallFacts.PublicKeyMemory | src/auth/unified.rs:306-361 | keys in memory come from memory, a listing or the vault; an accepted key is among them |
| CallFacts.PublicKeyDecision | src/auth/unified.rs:291-370 | every effect of a public-key call as an equivalence over what was known before it: deed, reply, slot, memory, disk and clock, with the sixty seconds and three failures written out |
| CallFacts.PasswordEffects | src/auth/unified.rs:372-420 | the same for a password call |
| AuthTheorems.VaultChangesOnlyByAdmission | src/auth/unified.rs:351-361 | apart from outside edits a step changes the vault only by adding the one key its call admits |
| AuthTheorems.VaultOnlyGrows | src/auth/unified.rs:306-366 | without revocations the vault only grows over any run |
| AuthTheorems.TofuFindsEmptyVault | src/auth/unified.rs:352-361 | with a successful listing, first-use admission finds the vault empty and leaves just the presented key |
| AuthTheorems.TofuIntoClaimedVaultExactly | src/auth/unified.rs:315-361 | a call admits on first use into a claimed vault exactly if its listing fails and its memory is empty, besides the conditions of every first use |
| AuthTheorems.TofuTwiceExplained | src/auth/unified.rs:315-361 | between two first-use admissions on any authenticators a revocation happened, or the second went by an empty memory because its listing failed |
| AuthTheorems.TofuTwiceNeedsRevocation | src/auth/unified.rs:315-361 | where the second listing succeeds, a revocation happened between |
| AuthTheorems.TofuAtMostOnce | src/auth/unified.rs:351-361 | at most one first-use admission in any interleaving of calls on any number of authenticators; it is the first entry and stays |
| AuthTheorems.TofuTwiceWhenListingFails | src/auth/unified.rs:316-318 | a failing listing lets a second authenticator admit a stranger into a claimed vault |
| AuthTheorems.PasswordModesFreezeVault | src/auth/unified.rs:336-349 | while a node password is set and nobody holds a code, no run of calls changes the vault |
| AuthTheorems.StaleKeyWasRevoked | src/auth/unified.rs:205-211 | over any run a key in an authenticator's memory and not in the vault was revoked, and that authenticator has not listed the vault since |
| AuthTheorems.AcceptedKeyIsVaultedOrRevoked | src/auth/unified.rs:306-324 | every key accepted under Strict or Tofu has its record on disk, or was revoked with no listing by its authenticator since |
| AuthTheorems.AcceptedKeysAreVaulted | src/auth/unified.rs:306-324 | so without revocations every accepted key has its record |
| AuthTheorems.RevokedKeyIsStillAccepted | src/auth/unified.rs:306-313 | a key revoked while it is in memory is accepted under every policy, and its record stays gone |
| AuthTheorems.StrictAcceptsRevokedKey | src/auth/unified.rs:306-313 | such a run under the strict policy, from a backed memory and with a vault that lists |
| AuthTheorems.CacheIsTransparentExactly | src/auth/unified.rs:37-45 | for every call that is let in, whether it decides as the documented precedence read off the disk alone: not for a revoked key in memory, nor where the listing fails and memory, in place of the vault, lacks the key or differs in being empty |
| AuthTheorems.CacheIsTransparent | src/auth/unified.rs:37-45 | it does for a memory that the vault backs and a vault that can be listed |
| AuthTheorems.PasswordDecision | src/auth/unified.rs:215-251 | node password before code, unreadable file refuses all; the code admits exactly a waiting unknown key |
| AuthTheorems.SlotFrame | src/auth/unified.rs:118-138 | only a session's own calls touch its slot, and in which way |
| AuthTheorems.PresentedKeyWaits | src/auth/unified.rs:344-349 | an unknown key presented under first use while a password is set is in the slot afterwards, whatever else is in memory; it is refused and not counted |
| AuthTheorems.PairingAdmits | src/auth/unified.rs:344-397 | over any run such a presentation, followed by the code in that session's next password call let in, admits exactly that key: record, memory, flag, cleared counter, empty slot |
| AuthTheorems.SlotHoldsPresentedKey | src/auth/unified.rs:344-349 | a cached key was presented earlier to the same session, with no password call let in since |
| AuthTheorems.SessionIsolation | src/auth/unified.rs:381-397 | in every interleaving a key admitted by a session's password step was presented to that session |
| AuthTheorems.PresentationsAreConsumedOnce | src/auth/unified.rs:385-394 | two admissions of one session have a presentation of the later key between them |
| AuthTheorems.MonitorStep | src/auth/unified.rs:175-193 | what each step of anybody does to a monitor: counter, flag, pairing and burn signals |
| AuthTheorems.RepliesAreCounted | src/auth/unified.rs:406-416 | acceptance clears the counter, except under accept-all; a refused password is counted |
| AuthTheorems.FlagTellsAdmission | src/auth/unified.rs:140-144 | the flag is up exactly when somebody sharing it admitted a key; one pairing signal per admission |
| AuthTheorems.CounterNeverExceedsThree | src/auth/unified.rs:157-193 | the counter of any monitor stays within three, however many authenticators share it |
| AuthRates.FourFailuresOutliveWindow | src/auth/unified.rs:157-193 | four failures on one monitor, with no success between and no call that forgets the first, take more than the window |
| AuthRates.RateBound | src/auth/unified.rs:18-22 | n failures on one monitor, by however many authenticators, take at least 60 * floor((n-1)/3) seconds if nothing between succeeds or forgets a failure |
| AuthRates.LoneAuthenticatorRemembers | src/auth/unified.rs:125-138 | a monitor with one authenticator and its session views never forgets a failure |
| AuthRates.RateBoundOfOne | src/auth/unified.rs:18-22 | so for one authenticator and its session views the bound holds without that proviso |
| AuthRates.SharedMonitorEscapesRateBound | src/server/protocol.rs:164-175 | two pairing authenticators over one monitor can record any number of failures at one instant without a success |
| AuthSharing.RateBoundOfMany | src/auth/unified.rs:18-22 | n failures of k authenticators on one monitor take at least 60 * floor((n-1)/(3k)) seconds, if nothing between succeeds or decays the counter without failing |
| AuthSharing.RateBoundOfStrict | src/auth/unified.rs:326-334 | so for k strict authenticators whose slots hold no key, without the second proviso |
| AuthSharing.RateBoundExactly | src/auth/unified.rs:154-173 | from any state, every run keeps the bound of one authenticator if and only if at most one uses the monitor, or its counter is full and no user has a failure time |
| AuthSharing.UnboundedExactly | src/auth/unified.rs:154-173 | from a clear counter and empty slots, any number of failures at one instant is possible if and only if two authenticators use the monitor and one of them is not strict |
| AuthRates.FullCounterShutsOut | src/auth/unified.rs:157-173 | a call is turned away exactly while the counter is full and the caller's own clock shows no failure older than the window; it changes nothing |
| AuthRates.ShutForGoodExactly | src/auth/unified.rs:165-167 | a full counter blocks at all times exactly if the caller has no failure time |
| AuthRates.NoClockNoWindow | src/auth/unified.rs:165-167 | over any run a full counter used only by authenticators without a failure time stays full and refuses every call |
| AuthRates.StrangersFailuresShutOut | src/server/protocol.rs:164-175 | three failures over one pairing connection reach that state for another |
| PasswordAuths.PasswordAuth.BeginCheck | src/auth/password.rs:111-114 | the half of a check before the await: lock test and admission |
| PasswordAuths.PasswordAuth.FinishCheck | src/auth/password.rs:130-135 | the half after the await: clear, record, or pass an error on |
| PasswordAuths.CounterIsWrongsSinceReset | src/auth/password.rs:66-136 | over every run the counter is the number of wrong passwords since the last right one or decay, and the clock shows the last wrong one |
| PasswordAuths.SuccessUnlocks | src/auth/password.rs:130-136 | after a right password every check is let in until three more wrong ones are found |
| PasswordAuths.BurstBound | src/auth/password.rs:66-98 | with at most c checks in flight the counter stays within c + 2, and once full counter plus in-flight does |
| PasswordAuths.BurstBoundIsTight | src/auth/password.rs:111-136 | every positive c allows a run that reaches c + 2 |
| PasswordAuths.RateBound | src/auth/password.rs:66-98 | with at most c in flight, n failures with no success between the first and the last take at least 60 * floor((n-1)/(c+2)) seconds |
| TrustStore.TrustDir.WriteAuthorizedClient | src/storage/trust.rs:209-221 | writes exactly the record named after the id, or nothing |
| TrustStore.TrustDir.ResetAuthorizedClient | src/storage/trust.rs:243-257 | removes exactly the record named after the id and tells whether there was one, or fails and removes nothing |
| TrustStore.TrustDir.LoadAuthorizedClient | src/storage/trust.rs:125-140 | a missing record is none, an unreadable one an error |
| TrustStore.TrustDir.LoadAllAuthorizedClients | src/storage/trust.rs:151-179 | lists the parsing `.pub` files in directory order, or fails exactly if the directory or one of its entries cannot be read |
| TrustStore.ListedExactly | src/storage/trust.rs:161-175 | an id is listed with a key exactly if its file is there and parses as that key |
| TrustStore.ListingFollowsOrder | src/storage/trust.rs:161-175 | a listing follows the directory's order file by file |
| TrustStore.FileNamesAreFlat | src/storage/trust.rs:80-87 | whatever the id holds its file lies in the directory itself: the four path characters become underscores, the others stay |
| TrustStore.FingerprintsHaveOwnFiles | src/storage/trust.rs:80-87 | distinct fingerprints have distinct file names |
| TrustStore.AuthorisingIsMapUpdate | src/storage/trust.rs:209-245 | authorising and revoking act as update and removal of a map from fingerprints to keys |
| TrustStore.RevokingListedId | src/storage/trust.rs:243-245 | a listed id revokes its own record exactly if it holds no replaced character |
| TrustStore.AdmittingAddsKey | src/storage/trust.rs:209-221 | admitting a key adds it to the vault's set of keys and touches no other record |
| TrustStore.RevokingRemovesListedKey | src/storage/trust.rs:243-257 | revoking by a listed id removes exactly the key listed with it |
| TempNames.TempIsNotTarget | src/storage/utils.rs:30-42 | a temporary path is never the target's |
| TempNames.TempNameForm | src/storage/utils.rs:30-42 | a dot, the base name after its leading dots, the suffix as sixteen digits that read back as it, and `.tmp` |
| TempNames.SuffixesDecide | src/storage/utils.rs:30-42 | 64-bit suffixes that differ give temporary paths that differ, for any files in any directories |
| AtomicWrite.SuffixesGiveDistinctNames | src/storage/utils.rs:30-32 | writers of any files with different random suffixes never share a temporary path or use a target's, unless a target is called like a temporary file |
| AtomicWrite.WriteCall.CreateFile | src/storage/utils.rs:45-48 | the create call is the machine's create step |
| AtomicWrite.WriteCall.WriteAll | src/storage/utils.rs:54-58 | all chunks written, or a prefix of the data in a private temporary file |
| AtomicWrite.WriteCall.Attempt | src/storage/utils.rs:44-71 | succeeds exactly without faults, replacing the target; otherwise at most the temporary file is extra |
| AtomicWrite.WriteCall.AtomicWriteSecure | src/storage/utils.rs:21-77 | on success the target holds the complete data, synced and private, and nothing else changed; on failure the namespace is as before once cleaned up; all of it a run of the step machine |
| AtomicWrite.StepKeeps | src/storage/utils.rs:44-76 | every step of every writer, failing or not, and every crash or power loss keeps the invariant |
| AtomicWrite.NeverTorn | src/storage/utils.rs:9-13 | over any interleaving of writers a path holds its initial file or the complete data of the last writer that renamed, even across power loss |
| AtomicWrite.SuccessIsVisible | src/storage/utils.rs:65-70 | after a successful write the target holds its data or that of a writer of the same target that renamed after it |
| AtomicWrite.DataStaysPrivate | src/storage/utils.rs:50-51 | written bytes sit in files of mode 0600 only |
| AtomicWrite.NoTempIsLeft | src/storage/utils.rs:73-75 | a writer that finished, or failed and cleaned up, leaves no temporary file |
| EchoFilter.FilterEchoBytes | src/server/handler/pty.rs:175-241 | the nested index loops compute the token grammar `Filter` |
| EchoFilter.FilterIsTheMachine | src/server/handler/pty.rs:178-240 | the token grammar equals a six-state byte machine |
| EchoFilter.FilterComposes | src/server/handler/pty.rs:175-241 | after an input that ends at a token boundary filtering goes on as if afresh |
| EchoFilter.ComposesExactlyAtClosedCuts | src/server/handler/pty.rs:181-183 | filtering two pieces equals filtering their concatenation, for all continuations, exactly if the cut is at a token boundary |
| EchoFilter.SplitArrowKeyIsEchoed | src/server/handler/pty.rs:181-183 | a split arrow key is echoed by the second call |
| EchoFilter.ByteAfterClosedCut | src/server/handler/pty.rs:230-238 | outside sequences text, LF and TAB echo as they are, CR as LF, other controls not at all |
| EchoFilter.SequencesVanish | src/server/handler/pty.rs:189-217 | a complete control sequence or command string at a token boundary vanishes and leaves the rest unchanged |
| EchoFilter.AnyControlSequenceVanishes | src/server/handler/pty.rs:189-200 | a control sequence ends at the first byte outside 0x20 to 0x3F and vanishes with it; unfinished it swallows all its bytes |
| EchoFilter.AnyCommandStringVanishes | src/server/handler/pty.rs:201-217 | a command string ends at BEL, at ESC backslash, or at ESC alone with the next byte read afresh |
| EchoFilter.DesignatorsVanish | src/server/handler/pty.rs:218-224 | `(`, `)` and `#` after ESC take along one more byte, whatever it is |
| EchoFilter.ShortEscapesVanish | src/server/handler/pty.rs:225-228 | any other byte after ESC is taken alone and what follows echoes |
| EchoFilter.OutputIsCleanText | src/server/handler/pty.rs:166-174 | only text, LF and TAB come out; exactly such input passes unchanged; filtering is idempotent |
| DsrDetector.DsrReader.Feed | src/server/handler/exec.rs:533-559 | after any chunks the state and the number of replies are those of naive search in the whole stream |
| DsrDetector.StateIsLongestMatch | src/server/handler/exec.rs:495-503 | the state is the length of the longest suffix that is a proper prefix of the query |
| DsrDetector.DetectionIsExact | src/server/handler/exec.rs:537-557 | the matcher fires on a byte exactly when the query ends there |
| DsrDetector.QueryIsCursorReport | src/server/handler/exec.rs:533-553 | the answered queries are the places where the bytes ESC [ 6 n end within ten seconds |
| DsrDetector.RepliesGrow | src/server/handler/exec.rs:543-553 | the number of answered queries grows by one exactly at a detection inside the window |
| DsrDetector.EveryEarlyQueryIsAnswered | src/server/handler/exec.rs:504-511 | while the window lasts every occurrence is answered once |
| Completion.GlobEscape | src/server/transfer/control.rs:147-160 | the escaping loop computes `Escaped` |
| Completion.EscapedTakesItself | src/server/transfer/control.rs:147-160 | escaped text before any pattern takes just itself off a name |
| Completion.EscapingIsExact | src/server/transfer/control.rs:144-146 | an escaped prefix and a star match exactly the names that start with the prefix, if and only if no backslash in it meets a matcher that lets it escape inside brackets |
| ShellWords.QuotedReadsBack | src/server/transfer/control.rs:96 | single-quoting reads back as the text itself |
| Completion.ScriptReadsAsCommand | src/server/transfer/control.rs:96-102 | whatever the prefix, the shell passes `find` that one pattern and nothing else |
| Completion.ParseFindTypeEntries | src/server/transfer/control.rs:162-179 | the pairwise loop computes the entries of the NUL-separated fields |
| Completion.FoundParsesBack | src/server/transfer/control.rs:162-179 | for any pattern, printing a record for each matching entry and parsing the records gives those entries as they are offered |
| Completion.LivePathOffers | src/server/transfer/control.rs:90-116 | for any prefix the live pipeline offers what the escaped prefix and a star select, dropping the starting point; it has no output exactly for a prefix with a NUL |
| Completion.FilterDirectory | src/server/transfer/control.rs:71-86 | the directory loop offers the entries that start with the prefix |
| Completion.HandleCompletionRequest | src/server/transfer/control.rs:47-142 | a stateless context answers the sorted prefix filter, a live one the sorted selection of the pattern; unless a backslash meets an escaping matcher both answers are the names with the prefix, a slash after directories, each entry once, in code-point order |
| Completion.BothPathsAgree | src/server/transfer/control.rs:70-137 | two listings of one directory, in any orders, get the same answer on both paths |
| Completion.EscapedBackslashMisleads | src/server/transfer/control.rs:147-160 | for every prefix with a backslash there is a name on which an escaping matcher and the prefix filter differ |
| Completion.PathsAgreeExactly | src/server/transfer/control.rs:47-142 | a file-name prefix is answered alike in every directory if and only if it holds a NUL or no backslash in it meets an escaping matcher |
| Sorting.SortedIsUnique | src/server/transfer/control.rs:137 | a list has one sorted arrangement, so any sort gives it |
| Sorting.LeIsCodePointOrder | src/server/transfer/control.rs:137 | a prefix comes first, otherwise the smaller first differing character decides |
| Sorting.SortPutsInOrder | src/server/transfer/control.rs:137 | sorting keeps the elements and puts them in that order |
| Paths.SanitizeRemotePath | src/transport/transfer/helpers.rs:15-78 | the component loop computes `Sanitized`, with each error in its order |
| Paths.PathMeaning | src/transport/transfer/helpers.rs:15-78 | for any text and its pieces between slashes: each rejection exactly by counting names and `..` piece by piece, and from every directory an accepted path followed piece by piece leads to the cleaned names, never out of it |
| Paths.SplitJoins | src/transport/transfer/helpers.rs:35-40 | the pieces between slashes hold no slash and joined by slashes give the text back |
| Paths.AcceptedStaysBelow | src/transport/transfer/helpers.rs:5-8 | below every directory an accepted path resolves to it plus the cleaned names, never leaving it on the way |
| Paths.RejectedExactly | src/transport/transfer/helpers.rs:10-13 | each rejection happens exactly for its reason: NUL, absolute, a prefix with more `..` than names, or empty |
| Paths.AcceptedAreNames | src/transport/transfer/helpers.rs:35-56 | the result is a list of plain names |
| Paths.SanitizeIsIdempotent | src/transport/transfer/helpers.rs:15-78 | a cleaned path is accepted unchanged |
| Paths.AcceptedEntryStaysBelow | src/server/transfer/state.rs:436-473 | an accepted entry path is unchanged and stays below its directory whether backslashes separate or not |
| Paths.EntryRejectedExactly | src/server/transfer/state.rs:445-473 | each rejection of an entry path is equivalent to its reason in the text; anything else passes unchanged |
| Paths.AllowedExactly | src/server/transfer/state.rs:417-419 | a relative path is let through exactly if no `..` stands between slashes and none between backslashes |
| Paths.AllowedStaysBelowCwd | src/server/transfer/state.rs:417-432 | a relative path let through stays below the working directory |
| Paths.ChecksLineUp | src/server/transfer/state.rs:445-473 | what the other two checks accept the network sanitiser refuses only for a NUL or for naming nothing |
| Framing.Sink.WriteFrame | src/transport/transfer/codec/mod.rs:61-79 | refuses an oversized payload before sending anything, else sends exactly the encoding |
| Framing.PrefixedStream.ReadExact | src/transport/stream.rs:59-70 | reads exactly the next bytes of prefix and stream, whatever the read sizes |
| Framing.PrefixedStream.ReadFrame | src/transport/metadata/codec.rs:54-80 | reads what `Decode` makes of the bytes ahead, with the same errors in the same order, and consumes just the frame |
| Framing.LengthReadsBack | src/transport/metadata/codec.rs:43-46 | a length survives its big-endian form |
| Framing.WireFormat | src/transport/metadata/codec.rs:8-27 | the bytes of a header, the kinds and the size limits of both protocols |
| Framing.RefusedExactly | src/transport/metadata/codec.rs:54-80 | every error and every success of reading, byte by byte, with the length as a big-endian number |
| Framing.DecodeInvertsEncode | src/transport/metadata/codec.rs:30-80 | a frame followed by anything reads back, leaving exactly that |
| Framing.DecodedIsEncoded | src/transport/metadata/codec.rs:54-80 | whatever decodes is the encoding of a sendable frame |
| Framing.StrictPrefixIsIncomplete | src/transport/metadata/codec.rs:54-80 | a frame cut short anywhere is incomplete and nothing else |
| Framing.ListsRoundTrip | src/transport/transfer/codec/reader.rs:20-66 | a list of frames reads back as that list |
| Framing.EncodingIsInjective | src/transport/transfer/codec/mod.rs:61-79 | lists of frames with equal bytes are equal |
| Framing.Dispatch | src/server/side_streams.rs:59-93 | routes by magic, and the replayed stream decodes as the original would |
| Framing.RoutesAreExclusive | src/server/side_streams.rs:78-93 | a frame of one protocol is routed to it and refused by the other for its magic |
| Framing.RoutedExactly | src/server/side_streams.rs:59-93 | a stream is routed by `IRMD` or `IRFT` exactly |
| Framing.ReadMetadataRequest | src/transport/metadata/codec.rs:100-114 | gives what the frame ahead is as a request, each error as it is, and accepts exactly the streams that start with an empty request frame |
| Framing.RequestRefusals | src/transport/metadata/codec.rs:100-114 | metadata instead of a request is refused for its kind, a request with a payload for the size |
| WormholeServer.Server.Burn | src/server/mod.rs:485-492 | aborts both tasks, asks to unpublish, clears the slot |
| WormholeServer.Server.Handle | src/server/mod.rs:464-611 | each event leaves the state of `Handled` |
| WormholeServer.Server.Run | src/server/mod.rs:458-639 | the loop with its exits and clean-up computes `After` |
| WormholeServer.StepConserves | src/server/mod.rs:473-541 | every event keeps the conservation law |
| WormholeServer.RunConserves | src/server/mod.rs:458-639 | live tasks are those of the active wormhole that did not end by themselves; enabled codes are the unpublished ones, in order, and the active one |
| WormholeServer.NoEndsNoGaps | src/server/mod.rs:496-526 | two live tasks if a wormhole is set, else none |
| WormholeServer.ExitLeavesNothing | src/server/mod.rs:625-639 | after the exit no wormhole or task is left and every enabling was unpublished once |
| WormholeServer.EnablingOpens | src/server/mod.rs:473-530 | an enabling puts in place the code, password and persistence it carries with two new tasks, or, where the loop ends there, leaves nothing |
| WormholeServer.ActiveIsLastEnabled | src/server/mod.rs:473-530 | over every run the active wormhole has code, password and persistence of the last enabling |
| WormholeServer.WormholeSurvives | src/server/mod.rs:459-617 | a wormhole survives a run if and only if nothing in it ends a wormhole of its kind |
| WormholeServer.EnabledRun | src/server/mod.rs:459-617 | so for the wormhole of any enabling in a run, by the flag that event carried |
| WormholeServer.OneShotIsBurnt | src/server/mod.rs:573-592 | the first success after a one-shot enabling leaves no wormhole and no task, its code unpublished last, and a shutdown asked for if so configured |
| WormholeServer.LeavesExactly | src/server/mod.rs:459-617 | when the loop leaves and when a shutdown is asked for, as equivalences |
| WormholeServer.PersistentSurvives | src/server/mod.rs:459-617 | a persistent wormhole survives a run if and only if nothing in it enables, disables, bursts or closes the control channel, or finds no session after a shutdown was asked for; so any number of successes |
| WormholeServer.SignalsBurn | src/server/mod.rs:573-610 | a success burns a one-shot wormhole, a failure burst any; a stale signal burns nothing; and exactly when the loop then ends |
| WormholeServer.ShutdownSticks | src/server/mod.rs:613-617 | a shutdown request is never taken back and ends the loop at the first event without sessions |
| History.CommandHistory.constructor | cli/src/commands/connect/history.rs:17-37 | loads the last thousand lines |
| History.LinesReadBack | cli/src/commands/connect/history.rs:21-30 | lines ended by LF or CR LF read back, and an unfinished last one too |
| History.LoadedIsTail | cli/src/commands/connect/history.rs:21-30 | what is loaded are the last thousand lines |
| History.CommandHistory.Add | cli/src/commands/connect/history.rs:40-60 | trims, skips empty and repeated commands, keeps a window of a thousand, appends to the file |
| History.TrimIsExact | cli/src/commands/connect/history.rs:41 | trimming drops blanks at both ends and nothing else |
| History.AddRecords | cli/src/commands/connect/history.rs:40-60 | what adding leaves of entries and file, case by case |
| History.CommandHistory.MoveUp | cli/src/commands/connect/history.rs:63-78 | moves to the older entry, saving the typed line the first time |
| History.CommandHistory.MoveDown | cli/src/commands/connect/history.rs:81-92 | moves to the newer entry or back to the typed line |
| History.CommandHistory.AbandonNavigation | cli/src/commands/connect/history.rs:95-98 | leaves navigation with a new pending line |
| History.OutOfNavigation | cli/src/commands/connect/history.rs:81-98 | abandoning keeps entries and file; out of navigation a move down does nothing |
| History.UpsShowOlder | cli/src/commands/connect/history.rs:63-78 | after k moves up one more shows the entry with k newer ones, or the oldest |
| History.HistoryIsFaithfulCache | cli/src/commands/connect/history.rs:17-60 | after any run over a newline-terminated file the entries are what a new history would load |
| History.AddIsFaithfulExactly | cli/src/commands/connect/history.rs:53-59 | adding keeps memory and file in step exactly if nothing new is added, or the file ended its line and the command holds no newline |
| History.DownsUndoUps | cli/src/commands/connect/history.rs:63-92 | after k ups exactly min(k, n) downs return the typed line, through ever newer entries |
| IdleReaper.Reaper.MarkChannelActive | src/server/handler/mod.rs:117-130 | records traffic unless the timeout is disabled |
| IdleReaper.PeriodIsClamped | src/server/handler/mod.rs:156-159 | the period is a quarter of the timeout between ten milliseconds and a minute |
| IdleReaper.Reaper.CloseStale | src/server/handler/mod.rs:176-190 | drops and closes one by one up to the first failing close |
| IdleReaper.Reaper.Tick | src/server/handler/mod.rs:161-191 | one tick drops and closes the stale channels in order up to the first failing close and keeps every fresh one |
| IdleReaper.TrafficIsRemembered | src/server/handler/mod.rs:126-130 | until a late tick the map holds the channel's last traffic |
| IdleReaper.ClosedOnTime | src/server/handler/mod.rs:155-175 | a silent channel is closed after the timeout and within one period of it, by the first late tick |
| IdleReaper.EventuallyClosed | src/server/handler/mod.rs:160-190 | a run that goes on long enough does close it then |
| IdleReaper.BusyChannelIsNeverClosed | src/server/handler/mod.rs:169-173 | over any run a channel is never closed exactly if at every tick its last traffic, unless forgotten since, is at most the timeout old |

## Left out

- iroh, QUIC, russh, Pkarr, Argon2, blobs and JSON: foreign libraries; password verification is a predicate of the hash, payloads are bytes.
- Interleavings inside one call of the unified authenticator: a call is one step, because the vault is read before the memory lock is taken and the once-only guarantee needs that.
- The finite capacity of the pairing channels: signals are counted when sent, not when delivered.
- DsrDetector.EveryEarlyQueryIsAnswered: a reply is counted when it is sent, and a full channel to the terminal drops it.
- `supported_methods`, the key-only and combined authenticators: each is settled by short case analysis.
- The host command that authorises or removes keys: modelled as outside edits of the vault.
- Windows path components, ACLs and device names, the `~` branches of path resolution and the empty-path test: Unix rules only.
- Splitting a completion path into directory and prefix: decided by library path functions; the model starts from the two parts.
- UTF-8 in completion: names are sequences of characters; NUL, the quoted and the escaped characters are single bytes in UTF-8, and code-point order is byte order.
- Character classes and collating symbols in file-name patterns: escaping never produces them.
- A directory that changes while it is listed, and entries whose type cannot be read.
- AtomicWrite.NeverTorn: hard links to a temporary name and writers that share a random suffix are excluded, as the source relies on 64-bit random names; changes of the namespace are taken to reach the disk in order.
- Creating and restricting the parent directory before a write: a single step that may fail.
- The stream position after a framing error: the connection is dropped there.
- Upload, download and blob handlers, PTY spawning, signals, service managers, terminal and command-line interface.
- Attribution of a success, failure or expiry signal to a particular wormhole: the channels carry no identity.
- The send on the IPC shutdown channel: taken to complete.
- Two processes sharing one history file, failing appends and files that are not UTF-8.
- Late or coalesced timer ticks: ticks come one period apart and are single steps.
