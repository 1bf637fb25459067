/**
 * validate_ntp_response: the client sanity checks of section 5 of RFC 4330 on a decoded reply.
 * The check of the echoed origin seconds is modelled twice: as written (32-bit signed
 * arithmetic with wrap-around, abs(INT_MIN) == INT_MIN) and corrected (the wrapped
 * difference must lie in -1..1); the rest of the model uses the corrected check.
 */
module Validator {
  import opened Bytes
  import opened Packet

  const MinValidStratum: nat := 1
  const MaxValidStratum: nat := 15

  /** The (int) cast of a uint32 on a two's-complement target. */
  function ToInt32(x: u32): (v: int)
    ensures -TwoTo31 <= v < TwoTo31 && (v - x) % TwoTo32 == 0
  {
    if x < TwoTo31 then x else x - TwoTo32
  }

  /** The value a 32-bit signed register holds for the mathematical result `v`. */
  function Wrap32(v: int): (r: int)
    ensures -TwoTo31 <= r < TwoTo31 && (r - v) % TwoTo32 == 0
  {
    (v + TwoTo31) % TwoTo32 - TwoTo31
  }

  /** abs() on a 32-bit int: INT_MIN has no positive counterpart and comes back unchanged. */
  function Abs32(v: int): int
    requires -TwoTo31 <= v < TwoTo31
  {
    if v == -TwoTo31 then v else if v < 0 then -v else v
  }

  /** `abs((int)resp_orig_sec - (int)sent_sec) > 1` is false, as the code computes it. */
  function OriginWithinToleranceAsWritten(respOrigSec: u32, sentSec: u32): bool
  {
    Abs32(Wrap32(ToInt32(respOrigSec) - ToInt32(sentSec))) <= 1
  }

  /** The intended tolerance: the echoed seconds are within one second of the sent seconds, modulo 2^32. */
  function OriginWithinTolerance(respOrigSec: u32, sentSec: u32): bool
  {
    -1 <= Wrap32(ToInt32(respOrigSec) - ToInt32(sentSec)) <= 1
  }

  /** The wrapped signed difference depends only on the difference modulo 2^32. */
  lemma WrappedDifference(respOrigSec: u32, sentSec: u32)
    ensures Wrap32(ToInt32(respOrigSec) - ToInt32(sentSec)) == Wrap32(respOrigSec - sentSec)
  {
    var a := ToInt32(respOrigSec) - ToInt32(sentSec);
    var b := respOrigSec - sentSec;
    assert (a - b) % TwoTo32 == 0;
    var k := (a - b) / TwoTo32;
    assert a == b + k * TwoTo32;
    assert (a + TwoTo31) % TwoTo32 == (b + TwoTo31) % TwoTo32;
  }

  /** The corrected check accepts exactly the differences 0, +1 and -1 modulo 2^32. */
  lemma OriginToleranceExact(respOrigSec: u32, sentSec: u32)
    ensures OriginWithinTolerance(respOrigSec, sentSec) <==>
            (respOrigSec - sentSec) % TwoTo32 in {0, 1, TwoTo32 - 1}
  {
    WrappedDifference(respOrigSec, sentSec);
  }

  /** Away from the 2^32 wrap the corrected check is the plain tolerance |resp - sent| <= 1. */
  lemma OriginToleranceNoWrap(respOrigSec: u32, sentSec: u32)
    requires -TwoTo31 < respOrigSec - sentSec < TwoTo31
    ensures OriginWithinTolerance(respOrigSec, sentSec) <==> -1 <= respOrigSec - sentSec <= 1
  {
    WrappedDifference(respOrigSec, sentSec);
  }

  /** The two checks disagree only when the echo is exactly 2^31 seconds away. */
  lemma OriginChecksAgree(respOrigSec: u32, sentSec: u32)
    requires (respOrigSec - sentSec) % TwoTo32 != TwoTo31
    ensures OriginWithinToleranceAsWritten(respOrigSec, sentSec) == OriginWithinTolerance(respOrigSec, sentSec)
  {
    WrappedDifference(respOrigSec, sentSec);
  }

  /** As written, an echo 2^31 seconds (about 68 years) off is accepted. */
  lemma HalfEraEchoAccepted()
    ensures OriginWithinToleranceAsWritten(1752516352, 3900000000)
    ensures !OriginWithinTolerance(1752516352, 3900000000)
  {
    assert ToInt32(1752516352) - ToInt32(3900000000) == TwoTo31;
  }

  /**
   * validate_ntp_response: the checks run in order and the first failing one refuses the reply.
   * Neither the sent fraction nor the echoed origin fraction takes part.
   */
  function ValidateResponse(p: NtpPacket, sentSec: u32, sentFrac: u32): (ok: bool)
    ensures ok <==> Mode(p.liVnMode) in {4, 5}
                    && MinValidStratum <= p.stratum <= MaxValidStratum
                    && OriginWithinTolerance(p.origSec, sentSec)
                    && p.transSec != 0
  {
    var mode := Mode(p.liVnMode);
    if mode != 4 && mode != 5 then false
    else if p.stratum == 0 then false
    else if p.stratum > MaxValidStratum then false
    else if !OriginWithinTolerance(p.origSec, sentSec) then false
    else if p.transSec == 0 then false
    else true
  }

  /** The fractions do not influence the verdict. */
  lemma FractionsIgnored(p: NtpPacket, sentSec: u32, sentFrac: u32, otherFrac: u32, echoedFrac: u32)
    ensures ValidateResponse(p, sentSec, sentFrac) == ValidateResponse(p.(origFrac := echoedFrac), sentSec, otherFrac)
  {
  }

  /** A packet in client mode, such as our own request reflected back, is refused. */
  lemma ClientModeRefused(p: NtpPacket, sentSec: u32, sentFrac: u32)
    requires Mode(p.liVnMode) == 3
    ensures !ValidateResponse(p, sentSec, sentFrac)
  {
  }

  /** Stratum 0 (unsynchronised) and stratum 16 are refused. */
  lemma BadStratumRefused(p: NtpPacket, sentSec: u32, sentFrac: u32)
    requires p.stratum == 0 || p.stratum > MaxValidStratum
    ensures !ValidateResponse(p, sentSec, sentFrac)
  {
  }

  /** A server reply that echoes the sent seconds exactly, with mode 4, stratum 1 and a non-zero transmit time, is accepted. */
  lemma ServerEchoAccepted(p: NtpPacket, sentSec: u32, sentFrac: u32)
    requires Mode(p.liVnMode) == 4 && p.stratum == 1 && p.origSec == sentSec && p.transSec != 0
    ensures ValidateResponse(p, sentSec, sentFrac)
  {
  }
}
