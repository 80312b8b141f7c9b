/**
 Conversions between timer ticks and timespecs, and the settable realtime clock, for any
 tick frequency from 1 Hz to 1 GHz.  The kernel's 64-bit widths are written out.
 */
module Clock {
  import opened Wrappers
  import opened Arith

  const NSEC: nat := 1_000_000_000
  const UINT64_MAX: nat := 0xFFFF_FFFF_FFFF_FFFF
  const INT64_MAX: nat := 0x7FFF_FFFF_FFFF_FFFF
  const INT64_MIN: int := -0x8000_0000_0000_0000

  /** `struct timespec`: two signed 64-bit numbers. */
  datatype Timespec = Timespec(sec: int, nsec: int)

  predicate Frequency(f: nat) {
    1 <= f <= NSEC
  }

  predicate Ticks(t: nat) {
    t <= UINT64_MAX
  }

  /** A 64-bit value read as signed. */
  function Signed(x: nat): int
    requires x <= UINT64_MAX
  {
    if x <= INT64_MAX then x else x - UINT64_MAX - 1
  }

  /** Seconds of 64 bits and normalised nanoseconds. */
  predicate Stored(ts: Timespec) {
    INT64_MIN <= ts.sec <= INT64_MAX && 0 <= ts.nsec < NSEC
  }

  predicate IsValid(ts: Timespec) {
    0 <= ts.sec <= INT64_MAX && 0 <= ts.nsec < NSEC
  }

  /** `mtime_to_timespec` */
  function ToTimespec(ticks: nat, f: nat): (ts: Timespec)
    requires Ticks(ticks) && Frequency(f)
    ensures 0 <= ts.nsec < NSEC
    ensures SecondsFit(ticks, f) <==> ts.sec >= 0
  {
    NanosInRange(ticks % f, f);
    QuotientSmall(ticks, f);
    Timespec(Signed(ticks / f), ticks % f * NSEC / f)
  }

  /** The whole seconds of a tick count fit a signed 64-bit number. */
  predicate SecondsFit(ticks: nat, f: nat)
    requires f > 0
  {
    ticks / f <= INT64_MAX
  }

  lemma NanosInRange(rem: nat, f: nat)
    requires rem < f
    ensures 0 <= rem * NSEC / f < NSEC
  {
    DivBounds(rem * NSEC, f);
    MulMono(rem + 1, f, NSEC);
    if rem * NSEC / f >= NSEC {
      MulMono(NSEC, rem * NSEC / f, f);
    }
  }

  lemma QuotientSmall(ticks: nat, f: nat)
    requires f >= 1
    ensures 0 <= ticks / f <= ticks
  {
    DivBounds(ticks, f);
    MulMono(1, f, ticks / f);
  }

  /** At two ticks a second or more the seconds always fit. */
  lemma OnlyOneHertzOverflows(ticks: nat, f: nat)
    requires Ticks(ticks) && Frequency(f)
    ensures SecondsFit(ticks, f) <==> f >= 2 || ticks <= INT64_MAX
  {
    if f >= 2 {
      DivBounds(ticks, f);
      MulMono(2, f, ticks / f);
    }
  }

  // ---- A requested time as ticks ----

  /** `timespec_to_mtime_delta`; None is -EINVAL. */
  function ToTicks(ts: Timespec, f: nat): Option<nat>
    requires Frequency(f)
  {
    if !IsValid(ts) then None
    else
      MulMono(0, ts.sec, f);
      MulMono(0, ts.nsec, f);
      var secTicks := if ts.sec > UINT64_MAX / f then UINT64_MAX else ts.sec * f;
      var nsecTicks := (ts.nsec * f + 999_999_999) / 1_000_000_000;
      Some(if nsecTicks > UINT64_MAX - secTicks then UINT64_MAX else secTicks + nsecTicks)
  }

  /** No product the conversions form exceeds 64 bits. */
  lemma ProductsFit(ts: Timespec, rem: nat, f: nat)
    requires Frequency(f) && IsValid(ts) && rem < f
    ensures ts.nsec * f + 999_999_999 <= UINT64_MAX && rem * NSEC <= UINT64_MAX
    ensures ts.sec <= UINT64_MAX / f ==> ts.sec * f <= UINT64_MAX
  {
    MulMono(ts.nsec, NSEC, f);
    CapIsExact(ts.sec, f);
  }

  /** Nanoseconds since the epoch. */
  function Nanos(ts: Timespec): int {
    ts.sec * NSEC + ts.nsec
  }

  /** `n` ticks last at least as long as the requested time. */
  predicate Covers(n: nat, ts: Timespec, f: nat) {
    n * NSEC >= Nanos(ts) * f
  }

  /** The quotient rounded up is the least number whose multiple reaches `x`. */
  lemma CeilIsLeast(x: nat, n: nat)
    ensures n * NSEC >= x <==> n >= (x + 999_999_999) / 1_000_000_000
  {
  }

  lemma CoversSplit(n: int, ts: Timespec, f: nat)
    requires n + ts.sec * f >= 0
    ensures Covers(n + ts.sec * f, ts, f) <==> n * NSEC >= ts.nsec * f
  {
    assert Nanos(ts) * f == ts.sec * f * NSEC + ts.nsec * f;
    assert (n + ts.sec * f) * NSEC == n * NSEC + ts.sec * f * NSEC;
  }

  /** `n` ticks cover the request exactly when they reach seconds and rounded-up nanoseconds together. */
  lemma CoversIff(n: nat, ts: Timespec, f: nat)
    requires Frequency(f) && IsValid(ts)
    ensures Covers(n, ts, f) <==> n >= ts.sec * f + (ts.nsec * f + 999_999_999) / 1_000_000_000
  {
    MulMono(0, ts.nsec, f);
    var m := n - ts.sec * f;
    CoversSplit(m, ts, f);
    if m >= 0 {
      CeilIsLeast(ts.nsec * f, m);
    }
  }

  /** The seconds' ticks are capped only when they really exceed 64 bits. */
  lemma CapIsExact(sec: nat, f: nat)
    requires f > 0
    ensures sec > UINT64_MAX / f <==> sec * f > UINT64_MAX
  {
    DivBounds(UINT64_MAX, f);
    if sec > UINT64_MAX / f {
      MulMono(UINT64_MAX / f + 1, sec, f);
      assert (UINT64_MAX / f + 1) * f == UINT64_MAX / f * f + f;
    } else {
      MulMono(sec, UINT64_MAX / f, f);
    }
  }

  /** The delta is the least tick count not shorter than the request, capped at the largest one. */
  lemma DeltaIsLeast(ts: Timespec, f: nat, n: nat)
    requires Frequency(f) && IsValid(ts)
    ensures ToTicks(ts, f).Some? && ToTicks(ts, f).value <= UINT64_MAX
    ensures n < UINT64_MAX ==> (Covers(n, ts, f) <==> n >= ToTicks(ts, f).value)
  {
    CapIsExact(ts.sec, f);
    MulMono(0, ts.nsec, f);
    MulMono(0, ts.sec, f);
    CoversIff(n, ts, f);
  }

  // ---- Round trip ----

  /** Rounding the nanoseconds of `rem` ticks down and back up gives `rem` again. */
  lemma RemainderReturns(rem: nat, f: nat)
    requires Frequency(f) && rem < f
    ensures (rem * NSEC / f * f + 999_999_999) / 1_000_000_000 == rem
  {
    var q := rem * NSEC / f;
    DivBounds(rem * NSEC, f);
    CeilIsLeast(q * f, rem);
    if rem > 0 {
      CeilIsLeast(q * f, rem - 1);
    }
  }

  /** Ticks to timespec and back is the identity exactly when the seconds fit; otherwise it is -EINVAL. */
  lemma RoundTrip(ticks: nat, f: nat)
    requires Ticks(ticks) && Frequency(f)
    ensures ToTicks(ToTimespec(ticks, f), f) == if SecondsFit(ticks, f) then Some(ticks) else None
  {
    if SecondsFit(ticks, f) {
      DivBounds(ticks, f);
      CapIsExact(ticks / f, f);
      RemainderReturns(ticks % f, f);
    }
  }

  /** Such a failing count: 2^63 ticks of one second. */
  lemma RoundTripCanFail()
    ensures ToTicks(ToTimespec(INT64_MAX + 1, 1), 1) == None
  {
    RoundTrip(INT64_MAX + 1, 1);
  }

  // ---- The realtime clock ----

  function Compare(a: Timespec, b: Timespec): int {
    if a.sec != b.sec then (if a.sec < b.sec then -1 else 1)
    else if a.nsec != b.nsec then (if a.nsec < b.nsec then -1 else 1)
    else 0
  }

  lemma CompareIsOrder(a: Timespec, b: Timespec)
    requires 0 <= a.nsec < NSEC && 0 <= b.nsec < NSEC
    ensures Compare(a, b) < 0 <==> Nanos(a) < Nanos(b)
    ensures Compare(a, b) == 0 <==> Nanos(a) == Nanos(b)
  {
  }

  const LAST: Timespec := Timespec(INT64_MAX, NSEC - 1)

  class Realtime {
    const frequency: nat
    var offset: Timespec

    constructor (f: nat)
      requires Frequency(f)
      ensures frequency == f && offset == Timespec(0, 0) && Stored(offset)
    {
      frequency, offset := f, Timespec(0, 0);
    }

    /**
     `kernel_realtime_set` at tick `t`: refuses invalid values and values before the
     monotonic clock; otherwise the offset is the exact difference if and only if that is
     representable, as it is whenever the monotonic seconds are.
     */
    method Set(value: Timespec, t: nat) returns (ok: bool)
      requires Frequency(frequency) && Ticks(t)
      modifies this
      ensures ok <==> IsValid(value) && Nanos(value) >= Nanos(ToTimespec(t, frequency))
      ensures ok ==> offset == OffsetOf(value, t, frequency) && Stored(offset)
      ensures ok ==> var exact := Nanos(value) - Nanos(ToTimespec(t, frequency));
                     && (Nanos(offset) == exact <==> exact <= Nanos(LAST))
                     && (exact <= Nanos(LAST) ==> IsValid(offset))
                     && (SecondsFit(t, frequency) ==> exact <= Nanos(LAST))
      ensures !ok ==> offset == old(offset)
    {
      if !IsValid(value) {
        return false;
      }
      var mono := ToTimespec(t, frequency);
      CompareIsOrder(value, mono);
      if Compare(value, mono) < 0 {
        return false;
      }
      var o := Timespec(value.sec - mono.sec, value.nsec - mono.nsec);
      if o.nsec < 0 {
        o := Timespec(o.sec - 1, o.nsec + NSEC);
      }
      offset := o.(sec := Signed(o.sec));
      OffsetParts(value, mono, o);
      return true;
    }

    /** `kernel_realtime_now` at tick `t`. */
    method Now(t: nat) returns (value: Timespec)
      requires Frequency(frequency) && Ticks(t) && Stored(offset)
      ensures value == Reading(offset, t, frequency)
    {
      var mono := ToTimespec(t, frequency);
      SumParts(mono, offset);
      var seconds := mono.sec + offset.sec;
      if seconds > INT64_MAX || seconds < INT64_MIN {
        return LAST;
      }
      var nanoseconds := mono.nsec + offset.nsec;
      if nanoseconds >= NSEC {
        nanoseconds := nanoseconds - NSEC;
        if seconds == INT64_MAX {
          return LAST;
        }
        seconds := seconds + 1;
      }
      return Timespec(seconds, nanoseconds);
    }
  }

  /** Seconds and nanoseconds of a sum, and whether it is past the last representable time. */
  lemma SumParts(a: Timespec, b: Timespec)
    requires 0 <= a.nsec < NSEC && 0 <= b.nsec < NSEC
    ensures var sum, carry := Nanos(a) + Nanos(b), if a.nsec + b.nsec >= NSEC then 1 else 0;
            && sum / NSEC == a.sec + b.sec + carry && sum % NSEC == a.nsec + b.nsec - carry * NSEC
            && (sum > Nanos(LAST) <==> a.sec + b.sec + carry > INT64_MAX)
  {
    var carry := if a.nsec + b.nsec >= NSEC then 1 else 0;
    var s, n := a.sec + b.sec + carry, a.nsec + b.nsec - carry * NSEC;
    assert Nanos(a) + Nanos(b) == s * NSEC + n && 0 <= n < NSEC;
  }

  /** The difference to the monotonic clock as it is stored, in 64 bits of seconds. */
  function OffsetOf(value: Timespec, t: nat, f: nat): Timespec
    requires Ticks(t) && Frequency(f) && IsValid(value) && Nanos(value) >= Nanos(ToTimespec(t, f))
  {
    var exact := Nanos(value) - Nanos(ToTimespec(t, f));
    Timespec(if exact > Nanos(LAST) then exact / NSEC - UINT64_MAX - 1 else exact / NSEC, exact % NSEC)
  }

  lemma OffsetParts(value: Timespec, mono: Timespec, o: Timespec)
    requires Nanos(o) == Nanos(value) - Nanos(mono) && 0 <= o.nsec < NSEC
    ensures var exact := Nanos(value) - Nanos(mono);
            o.sec == exact / NSEC && o.nsec == exact % NSEC && (o.sec > INT64_MAX <==> exact > Nanos(LAST))
  {
  }

  /**
   The sum of offset and monotonic time, carried into seconds; the last representable time if
   the sum is later, and also if the sum of the seconds is below 64 bits.
   */
  function Reading(offset: Timespec, t: nat, f: nat): (r: Timespec)
    requires Ticks(t) && Frequency(f) && Stored(offset)
    ensures 0 <= r.nsec < NSEC
  {
    var sum := Nanos(ToTimespec(t, f)) + Nanos(offset);
    if sum > Nanos(LAST) || ToTimespec(t, f).sec + offset.sec < INT64_MIN then LAST
    else Timespec(sum / NSEC, sum % NSEC)
  }

  /**
   After a successful set at tick `t0` the clock reads, at any later tick, the set value
   plus the monotonic time passed since, or the last representable time.  If the monotonic
   seconds fitted at the set, it does so exactly as long as they fit; if they did not, exactly
   if the difference could be stored, or the time to read is the last anyway.
   */
  lemma ReadsSetPlusElapsed(value: Timespec, t0: nat, t1: nat, f: nat)
    requires Frequency(f) && Ticks(t1) && t0 <= t1
    requires IsValid(value) && Nanos(value) >= Nanos(ToTimespec(t0, f))
    ensures Stored(OffsetOf(value, t0, f))
    ensures var expected := Nanos(value) + ElapsedNanos(t0, t1, f);
            var right := Nanos(Reading(OffsetOf(value, t0, f), t1, f)) == if expected > Nanos(LAST) then Nanos(LAST) else expected;
            right <==>
              if SecondsFit(t0, f) then SecondsFit(t1, f)
              else Nanos(value) - Nanos(ToTimespec(t0, f)) <= Nanos(LAST) || expected == Nanos(LAST)
  {
    OnlyOneHertzOverflows(t0, f);
    OnlyOneHertzOverflows(t1, f);
    if SecondsFit(t0, f) {
      ReadsWhileFitting(value, t0, t1, f);
    } else {
      ReadsBeyond(value, t0, t1);
    }
  }

  lemma ReadsWhileFitting(value: Timespec, t0: nat, t1: nat, f: nat)
    requires Frequency(f) && Ticks(t1) && t0 <= t1 && SecondsFit(t0, f)
    requires IsValid(value) && Nanos(value) >= Nanos(ToTimespec(t0, f))
    ensures IsValid(OffsetOf(value, t0, f))
    ensures var expected := Nanos(value) + ElapsedNanos(t0, t1, f);
            SecondsFit(t1, f) <==>
              Nanos(Reading(OffsetOf(value, t0, f), t1, f)) == if expected > Nanos(LAST) then Nanos(LAST) else expected
  {
    if !SecondsFit(t1, f) {
      OnlyOneHertzOverflows(t1, f);
      OnlyOneHertzOverflows(t0, f);
    }
  }

  /** At 1 Hz, set after 2^63 ticks. */
  lemma ReadsBeyond(value: Timespec, t0: nat, t1: nat)
    requires INT64_MAX < t0 <= t1 && Ticks(t1) && IsValid(value) && Nanos(value) >= Nanos(ToTimespec(t0, 1))
    ensures Stored(OffsetOf(value, t0, 1))
    ensures var expected := Nanos(value) + ElapsedNanos(t0, t1, 1);
            var right := Nanos(Reading(OffsetOf(value, t0, 1), t1, 1)) == if expected > Nanos(LAST) then Nanos(LAST) else expected;
            right <==> Nanos(value) - Nanos(ToTimespec(t0, 1)) <= Nanos(LAST) || expected == Nanos(LAST)
  {
    var mono := ToTimespec(t0, 1);
    assert mono == Timespec(t0 - UINT64_MAX - 1, 0) && ToTimespec(t1, 1) == Timespec(t1 - UINT64_MAX - 1, 0);
    var o := Timespec(value.sec - mono.sec, value.nsec);
    OffsetParts(value, mono, o);
    assert ElapsedNanos(t0, t1, 1) == (t1 - t0) * NSEC;
  }

  /** Time between two ticks, each taken at the clock's nanosecond resolution. */
  function ElapsedNanos(t0: nat, t1: nat, f: nat): int
    requires f > 0
  {
    t1 / f * NSEC + t1 % f * NSEC / f - (t0 / f * NSEC + t0 % f * NSEC / f)
  }
}
