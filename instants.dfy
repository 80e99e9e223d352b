/**
  Monotonic instants: a span of time since the program started, with
  checked, saturating and panicking arithmetic against durations.

  A `std::time::Duration` (whole seconds in a `u64` plus a nanosecond part
  below one second) is modelled by the total number of nanoseconds it
  stands for; that is a one-to-one correspondence, and it orders and adds
  the same way.
*/
module Instants {
  import opened Wrappers

  /** The largest `Duration`: `u64::MAX` seconds and 999 999 999 nanoseconds. */
  const MaxNanos: int := 0xFFFF_FFFF_FFFF_FFFF * 1_000_000_000 + 999_999_999

  type Duration = n: nat | n <= MaxNanos

  /** An instant is the duration since the start of the uptime clock. */
  datatype Instant = Instant(since: Duration)

  /** `Duration::from_micros`. */
  function FromMicros(us: nat): (d: Duration)
    requires us <= 0xFFFF_FFFF_FFFF_FFFF
    ensures d / 1000 == us && d % 1000 == 0
  {
    us * 1000
  }

  /** `checked_duration_since`: how long after `earlier` this instant is, or nothing when `earlier` is later. */
  function CheckedDurationSince(i: Instant, earlier: Instant): (r: Option<Duration>)
    ensures r.None? <==> earlier.since > i.since
    ensures r.Some? ==> earlier.since + r.value == i.since
  {
    if earlier.since > i.since then None else Some(i.since - earlier.since)
  }

  /** `duration_since`: the checked difference, or zero when `earlier` is later. */
  function DurationSince(i: Instant, earlier: Instant): (r: Duration)
    ensures earlier.since <= i.since ==> earlier.since + r == i.since
    ensures earlier.since > i.since ==> r == 0
  {
    match CheckedDurationSince(i, earlier)
    case Some(d) => d
    case None => 0
  }

  /** `saturating_duration_since`: written the same way as `duration_since`. */
  function SaturatingDurationSince(i: Instant, earlier: Instant): (r: Duration)
    ensures earlier.since <= i.since ==> earlier.since + r == i.since
    ensures earlier.since > i.since ==> r == 0
  {
    match CheckedDurationSince(i, earlier)
    case Some(d) => d
    case None => 0
  }

  /** `Instant - Instant`: the saturating difference. */
  function Difference(i: Instant, rhs: Instant): (r: Duration)
    ensures r == SaturatingDurationSince(i, rhs)
    ensures r == 0 <==> i.since <= rhs.since
  {
    DurationSince(i, rhs)
  }

  /** `checked_add`: the later instant, or nothing when the duration would overflow. */
  function CheckedAdd(i: Instant, d: Duration): (r: Option<Instant>)
    ensures r.None? <==> i.since + d > MaxNanos
    ensures r.Some? ==> r.value.since == i.since + d
  {
    if i.since + d <= MaxNanos then Some(Instant(i.since + d)) else None
  }

  /** `checked_sub`: the earlier instant, or nothing when `d` is longer than the time since the start. */
  function CheckedSub(i: Instant, d: Duration): (r: Option<Instant>)
    ensures r.None? <==> d > i.since
    ensures r.Some? ==> r.value.since + d == i.since
  {
    if d <= i.since then Some(Instant(i.since - d)) else None
  }

  /** `Instant + Duration`: panics on overflow, so the sum must fit. */
  function Plus(i: Instant, d: Duration): (r: Instant)
    requires i.since + d <= MaxNanos
    ensures CheckedAdd(i, d) == Some(r)
  {
    Instant(i.since + d)
  }

  /** `Instant - Duration`: panics on underflow, so `d` must not be longer than the time since the start. */
  function Minus(i: Instant, d: Duration): (r: Instant)
    requires d <= i.since
    ensures CheckedSub(i, d) == Some(r)
  {
    Instant(i.since - d)
  }

  /** `+=`: the same instant `+` gives. */
  method AddAssign(i: Instant, d: Duration) returns (i': Instant)
    requires i.since + d <= MaxNanos
    ensures i' == Plus(i, d)
  {
    i' := Instant(i.since + d);
  }

  /** `-=`: the same instant `-` gives. */
  method SubAssign(i: Instant, d: Duration) returns (i': Instant)
    requires d <= i.since
    ensures i' == Minus(i, d)
  {
    i' := Instant(i.since - d);
  }

  /** `duration_since` and `saturating_duration_since` are the same function. */
  lemma SinceFormsAgree(i: Instant, earlier: Instant)
    ensures DurationSince(i, earlier) == SaturatingDurationSince(i, earlier)
    ensures CheckedDurationSince(i, earlier).Some? ==> DurationSince(i, earlier) == CheckedDurationSince(i, earlier).value
  {
  }

  /**
    Adding a duration and taking it away again gives the instant back,
    and the time from the instant to the sum is the duration added.
  */
  lemma AddSubRoundTrip(i: Instant, d: Duration)
    requires i.since + d <= MaxNanos
    ensures Minus(Plus(i, d), d) == i
    ensures CheckedDurationSince(Plus(i, d), i) == Some(d)
    ensures Difference(Plus(i, d), i) == d
  {
  }

  /** Of two different instants, exactly one is a checked duration after the other. */
  lemma SinceOneWay(a: Instant, b: Instant)
    requires a != b
    ensures CheckedDurationSince(a, b).Some? != CheckedDurationSince(b, a).Some?
  {
  }
}
