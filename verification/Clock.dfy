/** Time: instants are nanoseconds since the Unix epoch, the store keeps whole seconds. */
module Clock {
  const SECOND := 1_000_000_000
  const DAY := 86_400 * SECOND

  // time.Time.Unix rounds towards the past; so does `/` for a positive divisor.
  function Unix(instant: int): int { instant / SECOND }

  // 9999-01-01T00:00:00Z, the expiry given to registered mailboxes (internal/web/routes.go:29).
  const NEVER_EXPIRES := 253_370_764_800 * SECOND

  lemma UnixMonotone(a: int, b: int)
    requires a <= b
    ensures Unix(a) <= Unix(b)
  {}

  lemma UnixAfterDays(instant: int, days: int)
    ensures Unix(instant + days * DAY) == Unix(instant) + days * 86_400
  {
    assert days * DAY == days * 86_400 * SECOND;
  }
}
