/** The parts of a Redis server that several services share: keys that may carry an expiry. */
module Redis {
  import opened Wrappers

  datatype Expiry = Never | At(ms: int)

  /** A key holding one value.  Expired keys linger in this record and are dropped when looked at. */
  datatype Key<+T> = Absent | Held(value: T, expiry: Expiry) {
    predicate LiveAt(now: int) {
      Held? && (expiry.Never? || now < expiry.ms)
    }

    /** What GET answers at server time `now`. */
    function Get(now: int): Option<T> {
      if LiveAt(now) then Some(value) else None
    }
  }

  /** Math.ceil(ms / 1000). */
  function CeilSeconds(ms: nat): (q: nat)
    ensures 1000 * q - 1000 < ms <= 1000 * q
  {
    (ms + 999) / 1000
  }
}
