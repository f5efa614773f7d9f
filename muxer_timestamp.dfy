/** The muxer's 90 kHz clock. The steady clock is an input: every reading is a
    time point in microseconds. */
module MuxerTimestamp {
  import opened Bytes

  /** Largest value of the signed 64-bit product elapsed * 90. */
  const MaxInt64: int := 0x7fff_ffff_ffff_ffff

  /** Elapsed microseconds in 90 kHz ticks, under integer division. */
  function Ticks(elapsedUs: nat): nat
  {
    elapsedUs * 90 / 1000
  }

  /** One second is 90000 ticks and one millisecond 90 ticks; zero elapsed is tick zero. */
  lemma {:induction false} TicksAtReferencePoints()
    ensures Ticks(0) == 0
    ensures Ticks(1000) == 90
    ensures Ticks(1_000_000) == 90_000
  {
  }

  /** More elapsed time never gives an earlier timestamp. */
  lemma {:induction false} TicksMonotone(a: nat, b: nat)
    requires a <= b
    ensures Ticks(a) <= Ticks(b)
  {
  }

  /** Whole milliseconds give exactly 90 ticks each; any remainder below a millisecond
      adds fewer than 90. */
  lemma {:induction false} TicksOfMilliseconds(ms: nat, rest: nat)
    requires rest < 1000
    ensures 90 * ms <= Ticks(1000 * ms + rest) < 90 * ms + 90
  {
    assert (1000 * ms + rest) * 90 == 1000 * (90 * ms) + rest * 90;
    assert rest * 90 < 90000;
  }

  class MuxerTimestamp {
    /** Clock::time_point recorded by start(), in microseconds. */
    var startTime: int

    constructor ()
      ensures startTime == 0
    {
      startTime := 0;
    }

    method Start(now: int)
      modifies this
      ensures startTime == now
    {
      startTime := now;
    }

    /** getCurrentTimestamp at steady-clock reading now. The clock is monotone, and the
        signed 64-bit product elapsed * 90 must not overflow. */
    function CurrentTimestamp(now: int): (ts: uint64)
      reads this
      requires startTime <= now && (now - startTime) * 90 <= MaxInt64
      ensures ts == Ticks(now - startTime)
    {
      (now - startTime) * 90 / 1000
    }

    /** Immediately after start() the timestamp is zero. */
    lemma {:induction false} TimestampAtStart()
      ensures CurrentTimestamp(startTime) == 0
    {
    }
  }
}
