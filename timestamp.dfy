/**
 * NTP timestamps: 32-bit seconds since 1900-01-01 and a 32-bit binary fraction
 * (section 3 of RFC 4330). The client converts them to and from seconds since 1970-01-01.
 * Floating point is idealised here as exact `real` arithmetic.
 */
module Timestamp {
  import opened Bytes

  /** Seconds from 1900-01-01 to 1970-01-01 (NTP_TIMESTAMP_DELTA). */
  const NtpEpochDelta: nat := 2208988800
  const TwoTo64: int := 0x1_0000_0000_0000_0000
  const FractionScale: real := 4294967296.0

  /**
   * The seconds field a client writes for integer Unix seconds `unixSec`:
   * the sum is taken in 64 bits and stored into a uint32, so it wraps modulo 2^32.
   */
  function EncodeSeconds(unixSec: u32): (sec: u32)
    ensures unixSec + NtpEpochDelta < TwoTo32 ==> sec == unixSec + NtpEpochDelta
    ensures unixSec + NtpEpochDelta >= TwoTo32 ==> sec == unixSec + NtpEpochDelta - TwoTo32
  {
    (unixSec + NtpEpochDelta) % TwoTo32
  }

  /**
   * Unix seconds from an NTP seconds field: the uint32 minus the unsigned 64-bit constant,
   * which wraps modulo 2^64 when the field lies before 1970.
   */
  function DecodeSeconds(sec: u32): (unixSec: nat)
    ensures sec >= NtpEpochDelta ==> unixSec == sec - NtpEpochDelta
    ensures sec < NtpEpochDelta ==> unixSec == sec - NtpEpochDelta + TwoTo64
  {
    (sec - NtpEpochDelta) % TwoTo64
  }

  /** decode(encode(s)) == s while the NTP seconds field has not wrapped. */
  lemma SecondsRoundTrip(unixSec: u32)
    requires unixSec + NtpEpochDelta < TwoTo32
    ensures DecodeSeconds(EncodeSeconds(unixSec)) == unixSec
  {
  }

  /** encode(decode(n)) == n for every field from 1970 on. */
  lemma SecondsFieldRoundTrip(sec: u32)
    requires sec >= NtpEpochDelta
    ensures DecodeSeconds(sec) < TwoTo32 && EncodeSeconds(DecodeSeconds(sec)) == sec
  {
  }

  /** The client's send-time seconds field for a local clock reading `t` (t1_sec). */
  function SecondsField(t: real): u32
    requires 0.0 <= t < TwoTo32 as real
  {
    EncodeSeconds(t.Floor)
  }

  /** The fraction field for a local clock reading `t` (t1_frac), (t - floor t) * 2^32 truncated. */
  function FractionField(t: real): (frac: u32)
    requires 0.0 <= t < TwoTo32 as real
  {
    var x := (t - t.Floor as real) * FractionScale;
    assert 0.0 <= x < FractionScale;
    x.Floor
  }

  /** A timestamp pair as seconds since 1970, the value the client computes for T2 and T3. */
  function ToUnixReal(sec: u32, frac: u32): real
  {
    DecodeSeconds(sec) as real + frac as real / FractionScale
  }

  /** The seconds field loses nothing modulo 2^32: decoding it gives back the whole seconds of `t`, wrap or no wrap. */
  lemma SecondsFieldDecodes(t: real)
    requires 0.0 <= t < TwoTo32 as real
    ensures DecodeSeconds(SecondsField(t)) % TwoTo32 == t.Floor
  {
  }

  /** The fraction field is the sub-second part of `t` in units of 2^-32 s, truncated. */
  lemma FractionFieldTruncates(t: real)
    requires 0.0 <= t < TwoTo32 as real
    ensures var frac := FractionField(t) as real;
            frac <= (t - t.Floor as real) * FractionScale < frac + 1.0
  {
  }

  /** The fraction adds less than one second to the decoded seconds. */
  lemma ToUnixRealBounds(sec: u32, frac: u32)
    ensures DecodeSeconds(sec) as real <= ToUnixReal(sec, frac) < DecodeSeconds(sec) as real + 1.0
  {
  }

  /** Encoding a clock reading and decoding it loses less than 2^-32 seconds (and never rounds up). */
  lemma TimestampRoundTrip(t: real)
    requires 0.0 <= t && t.Floor + NtpEpochDelta < TwoTo32
    ensures var d := ToUnixReal(SecondsField(t), FractionField(t));
            d <= t < d + 1.0 / FractionScale
  {
    var f := t.Floor;
    var x := (t - f as real) * FractionScale;
    assert FractionField(t) == x.Floor;
    SecondsRoundTrip(f);
    assert x.Floor as real <= x < x.Floor as real + 1.0;
    var d := ToUnixReal(SecondsField(t), FractionField(t));
    assert d == f as real + x.Floor as real / FractionScale;
    assert t == f as real + x / FractionScale;
  }
}
