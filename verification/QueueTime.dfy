/**
 * Deadlines of lib/queue.c. Times are nanoseconds; a `struct timespec` is split into
 * seconds and nanoseconds.
 */
module QueueTime {

  const SECOND: nat := 1_000_000_000

  const MILLISECOND: nat := 1_000_000

  datatype Timespec = Timespec(sec: int, nsec: int) {

    /** The nanosecond part `pthread_cond_timedwait` accepts. */
    predicate Valid() {
      0 <= nsec <= 999_999_999
    }

    function Nanos(): int {
      sec * SECOND + nsec
    }
  }

  function FromNanos(t: nat): (ts: Timespec)
    ensures ts.Valid() && ts.Nanos() == t
  {
    Timespec(t / SECOND, t % SECOND)
  }

  /** C division by 1000, which truncates toward zero. */
  function Quotient(timeout: int): int {
    if timeout >= 0 then timeout / 1000 else -(-timeout / 1000)
  }

  function Remainder(timeout: int): int {
    timeout - 1000 * Quotient(timeout)
  }

  /** `queue_ts_add()`: the carry takes 999999999, not 1000000000. */
  function Add(ts: Timespec, timeout: int): Timespec {
    var nsec := ts.nsec + Remainder(timeout) * MILLISECOND;
    if nsec > 999_999_999 then
      Timespec(ts.sec + Quotient(timeout) + 1, nsec - 999_999_999)
    else
      Timespec(ts.sec + Quotient(timeout), nsec)
  }

  /** The deadline of a wait that starts at `now`; a zero timeout adds nothing. */
  function Deadline(now: nat, timeout: int): Timespec {
    if timeout != 0 then Add(FromNanos(now), timeout) else FromNanos(now)
  }

  /** The deadline is exact, or one nanosecond late exactly when the addition carries. */
  lemma DeadlineExact(now: nat, timeout: int)
    ensures Deadline(now, timeout).Nanos() ==
            now + timeout * MILLISECOND +
            if timeout >= 0 && now % SECOND + timeout % 1000 * MILLISECOND >= SECOND then 1 else 0
  {
  }

  /**
   * The deadline is one the wait accepts exactly when a negative timeout does not borrow
   * from the seconds; in particular always for a timeout of zero or more.
   */
  lemma DeadlineValid(now: nat, timeout: int)
    ensures Deadline(now, timeout).Valid() <==>
            timeout >= 0 || now % SECOND >= (-timeout) % 1000 * MILLISECOND
  {
  }

  /** A negative timeout that borrows: minus one millisecond at the start of a second. */
  lemma NegativeTimeoutBorrows()
    ensures !Deadline(5 * SECOND, -1).Valid()
  {
  }
}
