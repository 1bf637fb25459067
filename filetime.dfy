/**
 * ntp_time_to_system_time of the single-shot Windows client: an NTP timestamp (seconds and
 * 2^-32 fractions since 1900) becomes a FILETIME, a count of 100 ns ticks since 1601 split
 * into two 32-bit words. All arithmetic is unsigned 64-bit and is written out with its
 * wrap-around; the lemmas show that no wrap survives.
 */
module WindowsTime {
  import opened Bytes
  import opened Timestamp

  /** WINDOWS_TICK: ticks per second. */
  const WindowsTick: nat := 10_000_000
  /** SEC_TO_UNIX_EPOCH: seconds from 1601-01-01 to 1970-01-01. */
  const SecToUnixEpoch: nat := 11644473600

  /** The sub-second ticks: frac * 10^7 / 2^32 in 64-bit unsigned arithmetic. */
  function FractionTicks(frac: u32): nat
  {
    ((frac * WindowsTick) % TwoTo64) / TwoTo32
  }

  /** The multiplication frac * 10^7 never wraps, and the ticks stay below one second. */
  lemma FractionTicksBound(frac: u32)
    ensures frac * WindowsTick < TwoTo64
    ensures FractionTicks(frac) == (frac * WindowsTick) / TwoTo32 < WindowsTick
  {
  }

  /**
   * win_time: the Unix seconds (the 64-bit difference of the seconds field and the
   * 1900-1970 delta) shifted to 1601, times 10^7, plus the sub-second ticks, all modulo 2^64.
   */
  function WinTicks(sec: u32, frac: u32): (ticks: nat)
    ensures ticks < TwoTo64
  {
    var seconds1601 := (DecodeSeconds(sec) + SecToUnixEpoch) % TwoTo64;
    ((seconds1601 * WindowsTick) % TwoTo64 + FractionTicks(frac)) % TwoTo64
  }

  /** The seconds since 1601 that a seconds field stands for, before 1970 when it is below the delta. */
  function Seconds1601(sec: u32): (s: int)
    ensures SecToUnixEpoch - NtpEpochDelta <= s < SecToUnixEpoch - NtpEpochDelta + TwoTo32
  {
    sec - NtpEpochDelta + SecToUnixEpoch
  }

  lemma Seconds1601Wrapped(sec: u32)
    ensures (DecodeSeconds(sec) + SecToUnixEpoch) % TwoTo64 == Seconds1601(sec)
  {
    if sec < NtpEpochDelta {
      assert DecodeSeconds(sec) + SecToUnixEpoch == Seconds1601(sec) + TwoTo64;
    }
  }

  /**
   * No wrap survives: even a seconds field below the 1900-1970 delta, whose Unix seconds
   * wrap, comes back to its date between 1900 and 1970 once the 1601 shift is added.
   */
  lemma TicksExact(sec: u32, frac: u32)
    ensures WinTicks(sec, frac) == Seconds1601(sec) * WindowsTick + FractionTicks(frac)
  {
    Seconds1601Wrapped(sec);
    FractionTicksBound(frac);
    var s := Seconds1601(sec);
    assert s * WindowsTick < (SecToUnixEpoch - NtpEpochDelta + TwoTo32) * WindowsTick;
    assert s * WindowsTick + WindowsTick <= TwoTo64;
  }

  /** The ticks divided by 10^7 are the seconds since 1601, the remainder the sub-second ticks. */
  lemma TicksDecompose(sec: u32, frac: u32)
    ensures WinTicks(sec, frac) / WindowsTick == Seconds1601(sec)
    ensures WinTicks(sec, frac) % WindowsTick == FractionTicks(frac)
  {
    TicksExact(sec, frac);
    FractionTicksBound(frac);
    var s, f := Seconds1601(sec), FractionTicks(frac);
    assert WinTicks(sec, frac) == s * WindowsTick + f;
    assert 0 <= f < WindowsTick;
  }

  /** From 1970 on the whole seconds agree with the Unix seconds the other client decodes. */
  lemma TicksMatchUnixSeconds(sec: u32, frac: u32)
    requires sec >= NtpEpochDelta
    ensures WinTicks(sec, frac) / WindowsTick == DecodeSeconds(sec) + SecToUnixEpoch
  {
    TicksDecompose(sec, frac);
  }

  lemma FractionTicksMonotone(f1: u32, f2: u32)
    requires f1 <= f2
    ensures FractionTicks(f1) <= FractionTicks(f2)
  {
    FractionTicksBound(f1);
    FractionTicksBound(f2);
    assert f1 * WindowsTick <= f2 * WindowsTick;
  }

  /** Later NTP timestamps, ordered by seconds and then fraction, never give fewer ticks. */
  lemma TicksMonotone(s1: u32, f1: u32, s2: u32, f2: u32)
    requires s1 < s2 || (s1 == s2 && f1 <= f2)
    ensures WinTicks(s1, f1) <= WinTicks(s2, f2)
  {
    TicksExact(s1, f1);
    TicksExact(s2, f2);
    FractionTicksBound(f1);
    if s1 < s2 {
      assert Seconds1601(s1) + 1 <= Seconds1601(s2);
      assert (Seconds1601(s1) + 1) * WindowsTick <= Seconds1601(s2) * WindowsTick;
    } else {
      FractionTicksMonotone(f1, f2);
    }
  }

  /** FILETIME: dwLowDateTime and dwHighDateTime. */
  datatype FileTime = FileTime(low: u32, high: u32)

  /** The 64-bit value a FILETIME stands for. */
  function Join(ft: FileTime): (ticks: nat)
    ensures ticks < TwoTo64
  {
    ft.high * TwoTo32 + ft.low
  }

  /** The split of a 64-bit value: `& 0xFFFFFFFF` keeps the low word, `>> 32` the high word. */
  function Split(ticks: nat): FileTime
    requires ticks < TwoTo64
  {
    FileTime(ticks % TwoTo32, ticks / TwoTo32)
  }

  /** The two words put back together give the value that was split. */
  lemma JoinSplit(ticks: nat)
    requires ticks < TwoTo64
    ensures Join(Split(ticks)) == ticks
  {
  }

  /** Each FILETIME is the split of exactly one value. */
  lemma SplitJoin(ft: FileTime)
    ensures Split(Join(ft)) == ft
  {
    var t := Join(ft);
    assert t / TwoTo32 == ft.high && t % TwoTo32 == ft.low;
  }

  /** The FILETIME handed to FileTimeToSystemTime for a big-endian seconds and fraction pair. */
  function ToFileTime(sec: u32, frac: u32): (ft: FileTime)
    ensures Join(ft) == WinTicks(sec, frac)
  {
    JoinSplit(WinTicks(sec, frac));
    Split(WinTicks(sec, frac))
  }

  /** The Unix epoch plus half a second is 116444736005000000 ticks after 1601. */
  lemma WorkedExample()
    ensures WinTicks(NtpEpochDelta, 0x8000_0000) == 116444736005000000
    ensures ToFileTime(NtpEpochDelta, 0x8000_0000) == FileTime(0xD58A_CB40, 0x019D_B1DE)
  {
    TicksExact(NtpEpochDelta, 0x8000_0000);
  }
}
