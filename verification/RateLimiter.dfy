/** The failure counter with a decaying window that both password-checking
    authenticators embed. Times are nanoseconds on a clock that never goes back. */
module RateLimiter {
  import opened Options

  const LOCKOUT_WINDOW: nat := 60_000_000_000
  const MAX_FAILURES: nat := 3

  datatype Limiter = Limiter(fails: nat, last: Option<nat>)

  /** Whether a call made at `now` is turned away before anything is checked. */
  predicate Blocks(l: Limiter, now: nat) {
    l.fails >= MAX_FAILURES && (l.last.None? || now - l.last.value <= LOCKOUT_WINDOW)
  }

  /** The limiter after the lock test made at `now`: a full counter whose last
      failure is older than the window decays to zero. */
  function Tested(l: Limiter, now: nat): Limiter {
    if l.fails >= MAX_FAILURES && !Blocks(l, now) then l.(fails := 0) else l
  }

  function Recorded(l: Limiter, now: nat): Limiter {
    Limiter(l.fails + 1, Some(now))
  }

  function Cleared(l: Limiter): Limiter {
    l.(fails := 0)
  }
}
