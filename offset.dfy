/**
 * Round-trip delay and corrected time from the four timestamps of one exchange
 * (T1 client send, T2 server receive, T3 server transmit, T4 client receive),
 * all seconds since 1970; double arithmetic is idealised as `real`.
 */
module Offset {

  function RoundTripDelay(t1: real, t2: real, t3: real, t4: real): real
  {
    (t4 - t1) - (t3 - t2)
  }

  /** The corrected time: the server's transmit time plus half the round-trip delay. */
  function CorrectedTime(t1: real, t2: real, t3: real, t4: real): real
  {
    t3 + RoundTripDelay(t1, t2, t3, t4) / 2.0
  }

  /** The clock offset ((T2 - T1) + (T3 - T4)) / 2 of section 5 of RFC 4330. */
  function ClockOffset(t1: real, t2: real, t3: real, t4: real): real
  {
    ((t2 - t1) + (t3 - t4)) / 2.0
  }

  /** The corrected time is the local receive time shifted by the clock offset. */
  lemma CorrectedIsLocalPlusOffset(t1: real, t2: real, t3: real, t4: real)
    ensures CorrectedTime(t1, t2, t3, t4) == t4 + ClockOffset(t1, t2, t3, t4)
  {
  }

  /**
   * With equal one-way delays `d` and a server clock ahead by `theta`, the delay
   * is the two legs and the corrected time is the server's clock at the moment T4.
   */
  lemma SymmetricPathExact(t1: real, t3: real, d: real, theta: real)
    ensures var t2 := t1 + d + theta;
            var t4 := t3 + d - theta;
            RoundTripDelay(t1, t2, t3, t4) == 2.0 * d && CorrectedTime(t1, t2, t3, t4) == t4 + theta
  {
  }

  /** T1 = 0, T2 = 10, T3 = 10.1, T4 = 0.2 gives delay 0.1 and corrected time 10.15. */
  lemma WorkedExample()
    ensures RoundTripDelay(0.0, 10.0, 10.1, 0.2) == 0.1
    ensures CorrectedTime(0.0, 10.0, 10.1, 0.2) == 10.15
  {
  }
}
