/**
 * sync_with_server_multi_sample: `samples` exchanges with one host, strictly in order,
 * averaging the corrected time and the delay over the successful ones. Sums and
 * averages are idealised as `real`.
 */
module Sampling {
  import opened Bytes
  import opened Platform
  import opened Exchange

  /** MAX_SAMPLES, the size of the results array. */
  const MaxSamples: nat := 5

  /** The results of the exchanges answered by `ss`, in order. */
  function Outcomes(ss: seq<Script>): seq<NtpResult>
  {
    seq(|ss|, i requires 0 <= i < |ss| => ExchangeOutcome(ss[i]))
  }

  /** The number of successful results. */
  function SuccessCount(rs: seq<NtpResult>): (n: nat)
    ensures n <= |rs|
  {
    if rs == [] then 0
    else SuccessCount(rs[..|rs| - 1]) + (if rs[|rs| - 1].error == Success then 1 else 0)
  }

  /** The sum of the corrected times of the successful results. */
  function SumTime(rs: seq<NtpResult>): real
  {
    if rs == [] then 0.0
    else SumTime(rs[..|rs| - 1]) + (if rs[|rs| - 1].error == Success then rs[|rs| - 1].correctedTime else 0.0)
  }

  /** The sum of the delays of the successful results. */
  function SumDelay(rs: seq<NtpResult>): real
  {
    if rs == [] then 0.0
    else SumDelay(rs[..|rs| - 1]) + (if rs[|rs| - 1].error == Success then rs[|rs| - 1].delay else 0.0)
  }

  /**
   * The host's result: the means over the successful samples, or RECV_TIMEOUT with zero
   * time and delay when none succeeded, whatever the samples' own errors were.
   */
  function Aggregate(rs: seq<NtpResult>): NtpResult
  {
    var n := SuccessCount(rs);
    if n == 0 then Failed(RecvTimeout)
    else NtpResult(SumTime(rs) / n as real, SumDelay(rs) / n as real, Success)
  }

  /** The datagrams sent by the exchanges answered by `ss`. */
  function SentAll(ss: seq<Script>): seq<seq<byte>>
  {
    if ss == [] then [] else SentAll(ss[..|ss| - 1]) + SentBy(ss[|ss| - 1])
  }

  function Repeat(hostname: string, n: nat): (hs: seq<string>)
    ensures |hs| == n && forall i :: 0 <= i < n ==> hs[i] == hostname
  {
    seq(n, _ => hostname)
  }

  /** The world after `n` exchanges with `hostname`, one after the other. */
  function AfterSampling(w: World, hostname: string, n: nat): (w': World)
    requires n <= |w.exchanges|
    ensures w'.exchanges == w.exchanges[n..]
    ensures w'.clockSets == w.clockSets && w'.clockWrites == w.clockWrites
    ensures w'.openSockets == w.openSockets && w'.liveAddrInfos == w.liveAddrInfos
  {
    if n == 0 then w else AfterExchange(AfterSampling(w, hostname, n - 1), hostname)
  }

  /** `n` exchanges look the name up `n` times. */
  lemma {:induction false} SamplingLookups(w: World, hostname: string, n: nat)
    requires n <= |w.exchanges|
    ensures AfterSampling(w, hostname, n).lookups == w.lookups + Repeat(hostname, n)
  {
    if n == 0 {
      assert w.lookups + Repeat(hostname, 0) == w.lookups;
    } else {
      SamplingLookups(w, hostname, n - 1);
      assert Repeat(hostname, n - 1) + [hostname] == Repeat(hostname, n);
    }
  }

  /** `n` exchanges send what each of the first `n` answers let through, in order. */
  lemma {:induction false} SamplingSent(w: World, hostname: string, n: nat)
    requires n <= |w.exchanges|
    ensures AfterSampling(w, hostname, n).sent == w.sent + SentAll(w.exchanges[..n])
  {
    if n == 0 {
      assert w.exchanges[..0] == [];
    } else {
      SamplingSent(w, hostname, n - 1);
      var prev := AfterSampling(w, hostname, n - 1);
      assert prev.exchanges[0] == w.exchanges[n - 1];
      SentAllStep(w.exchanges, n);
      assert AfterSampling(w, hostname, n).sent
          == (w.sent + SentAll(w.exchanges[..n - 1])) + SentBy(w.exchanges[n - 1]);
    }
  }

  lemma SentAllStep(ss: seq<Script>, n: nat)
    requires 1 <= n <= |ss|
    ensures SentAll(ss[..n]) == SentAll(ss[..n - 1]) + SentBy(ss[n - 1])
  {
    assert ss[..n][..n - 1] == ss[..n - 1];
  }

  lemma OutcomesStep(ss: seq<Script>, i: nat)
    requires i < |ss|
    ensures Outcomes(ss[..i + 1]) == Outcomes(ss[..i]) + [ExchangeOutcome(ss[i])]
  {
  }

  /** One more exchange: the world advances by one answer and the sums by its result. */
  lemma SampleStep(w: World, hostname: string, i: nat, before: World, after: World, sample: NtpResult)
    requires i < |w.exchanges| && before == AfterSampling(w, hostname, i)
    requires sample == ExchangeOutcome(before.exchanges[0]) && after == AfterExchange(before, hostname)
    ensures after == AfterSampling(w, hostname, i + 1) && sample == ExchangeOutcome(w.exchanges[i])
    ensures var done := Outcomes(w.exchanges[..i]);
            && SuccessCount(done + [sample]) == SuccessCount(done) + (if sample.error == Success then 1 else 0)
            && SumTime(done + [sample]) == SumTime(done) + (if sample.error == Success then sample.correctedTime else 0.0)
            && SumDelay(done + [sample]) == SumDelay(done) + (if sample.error == Success then sample.delay else 0.0)
            && done + [sample] == Outcomes(w.exchanges[..i + 1])
  {
    OutcomesStep(w.exchanges, i);
    AppendOne(Outcomes(w.exchanges[..i]), sample);
  }

  /**
   * Queries the host `samples` times into the results array, keeping the count and the sums of
   * the successful samples, and returns their means or RECV_TIMEOUT when none succeeded.
   */
  method SyncMultiSample(hostname: string, samples: int, w: World) returns (r: NtpResult, w': World)
    requires 1 <= samples <= MaxSamples
    requires samples <= |w.exchanges|
    ensures r == Aggregate(Outcomes(w.exchanges[..samples]))
    ensures w' == AfterSampling(w, hostname, samples)
  {
    var results := new NtpResult[MaxSamples];
    var successCount := 0;
    var sumTime, sumDelay := 0.0, 0.0;
    w' := w;
    var i := 0;
    while i < samples
      invariant 0 <= i <= samples
      invariant w' == AfterSampling(w, hostname, i)
      invariant var done := Outcomes(w.exchanges[..i]);
                successCount == SuccessCount(done) && sumTime == SumTime(done) && sumDelay == SumDelay(done)
    {
      ghost var before := w';
      var sample;
      sample, w' := QueryServer(hostname, w');
      SampleStep(w, hostname, i, before, w', sample);
      results[i] := sample;
      if sample.error == Success {
        sumTime := sumTime + sample.correctedTime;
        sumDelay := sumDelay + sample.delay;
        successCount := successCount + 1;
      }
      i := i + 1;
    }
    if successCount == 0 {
      return Failed(RecvTimeout), w';
    }
    r := NtpResult(sumTime / successCount as real, sumDelay / successCount as real, Success);
  }

  /** SuccessCount is zero exactly when no sample succeeded. */
  lemma {:induction false} NoSuccessIffZero(rs: seq<NtpResult>)
    ensures SuccessCount(rs) == 0 <==> forall i :: 0 <= i < |rs| ==> rs[i].error != Success
  {
    if rs != [] {
      var init := rs[..|rs| - 1];
      NoSuccessIffZero(init);
      assert forall i :: 0 <= i < |init| ==> init[i] == rs[i];
    }
  }

  /** With no successful sample the host reports RECV_TIMEOUT, time 0 and delay 0, whatever went wrong. */
  lemma AllFailedReportsTimeout(rs: seq<NtpResult>)
    requires forall i :: 0 <= i < |rs| ==> rs[i].error != Success
    ensures Aggregate(rs) == NtpResult(0.0, 0.0, RecvTimeout)
  {
    NoSuccessIffZero(rs);
  }

  /** The host succeeds exactly when one of its samples did. */
  lemma AggregateSucceedsIff(rs: seq<NtpResult>)
    ensures Aggregate(rs).error == Success <==> exists i :: 0 <= i < |rs| && rs[i].error == Success
    ensures Aggregate(rs).error in {Success, RecvTimeout}
  {
    NoSuccessIffZero(rs);
  }

  /** The successful results, in order. */
  function Successes(rs: seq<NtpResult>): (ok: seq<NtpResult>)
    ensures forall i :: 0 <= i < |ok| ==> ok[i].error == Success
  {
    if rs == [] then []
    else Successes(rs[..|rs| - 1]) + (if rs[|rs| - 1].error == Success then [rs[|rs| - 1]] else [])
  }

  lemma {:induction false} AppendOne(rs: seq<NtpResult>, x: NtpResult)
    ensures SuccessCount(rs + [x]) == SuccessCount(rs) + (if x.error == Success then 1 else 0)
    ensures SumTime(rs + [x]) == SumTime(rs) + (if x.error == Success then x.correctedTime else 0.0)
    ensures SumDelay(rs + [x]) == SumDelay(rs) + (if x.error == Success then x.delay else 0.0)
  {
    assert (rs + [x])[..|rs|] == rs;
  }

  lemma {:induction false} SuccessesKeepSums(rs: seq<NtpResult>)
    ensures SuccessCount(Successes(rs)) == SuccessCount(rs)
    ensures SumTime(Successes(rs)) == SumTime(rs) && SumDelay(Successes(rs)) == SumDelay(rs)
  {
    if rs != [] {
      var init, last := rs[..|rs| - 1], rs[|rs| - 1];
      SuccessesKeepSums(init);
      if last.error == Success {
        assert Successes(rs) == Successes(init) + [last];
        AppendOne(Successes(init), last);
      } else {
        assert Successes(rs) == Successes(init);
      }
    }
  }

  /** Failed samples take no part: averaging only the successful samples gives the same result. */
  lemma FailedSamplesIgnored(rs: seq<NtpResult>)
    ensures Aggregate(Successes(rs)) == Aggregate(rs)
  {
    SuccessesKeepSums(rs);
  }

  lemma DivisionBounds(s: real, n: real, lo: real, hi: real)
    requires n > 0.0 && lo * n <= s <= hi * n
    ensures lo <= s / n <= hi
  {
    assert (s / n) * n == s;
  }

  /** `n` copies of `x` added up. */
  function Scaled(x: real, n: nat): real
  {
    if n == 0 then 0.0 else Scaled(x, n - 1) + x
  }

  lemma {:induction false} ScaledIsProduct(x: real, n: nat)
    ensures Scaled(x, n) == x * n as real
  {
    if n > 0 {
      ScaledIsProduct(x, n - 1);
      assert x * (n - 1) as real + x == x * n as real;
    }
  }

  lemma MeanBounds(sum: real, n: nat, lo: real, hi: real)
    requires n > 0 && Scaled(lo, n) <= sum <= Scaled(hi, n)
    ensures lo <= sum / n as real <= hi
  {
    ScaledIsProduct(lo, n);
    ScaledIsProduct(hi, n);
    DivisionBounds(sum, n as real, lo, hi);
  }

  lemma {:induction false} SumTimeBounds(rs: seq<NtpResult>, lo: real, hi: real)
    requires forall i :: 0 <= i < |rs| && rs[i].error == Success ==> lo <= rs[i].correctedTime <= hi
    ensures Scaled(lo, SuccessCount(rs)) <= SumTime(rs) <= Scaled(hi, SuccessCount(rs))
  {
    if rs != [] {
      var init, last := rs[..|rs| - 1], rs[|rs| - 1];
      forall i | 0 <= i < |init| && init[i].error == Success
        ensures lo <= init[i].correctedTime <= hi
      {
        assert init[i] == rs[i];
      }
      SumTimeBounds(init, lo, hi);
    }
  }

  /** The averaged corrected time lies between the smallest and largest successful sample. */
  lemma AverageWithinSamples(rs: seq<NtpResult>, lo: real, hi: real)
    requires Aggregate(rs).error == Success
    requires forall i :: 0 <= i < |rs| && rs[i].error == Success ==> lo <= rs[i].correctedTime <= hi
    ensures lo <= Aggregate(rs).correctedTime <= hi
  {
    SumTimeBounds(rs, lo, hi);
    var n, sum := SuccessCount(rs), SumTime(rs);
    assert n > 0 && Aggregate(rs).correctedTime == sum / n as real;
    MeanBounds(sum, n, lo, hi);
  }

  /** Three samples at 100.0, 100.2 (failed) and 100.1 average to 100.05 with delay 0.015 from two successes. */
  lemma WorkedExample()
    ensures var rs := [NtpResult(100.0, 0.01, Success), NtpResult(100.2, 0.03, RecvTimeout),
                       NtpResult(100.1, 0.02, Success)];
            SuccessCount(rs) == 2 && Aggregate(rs) == NtpResult(100.05, 0.015, Success)
  {
    var rs := [NtpResult(100.0, 0.01, Success), NtpResult(100.2, 0.03, RecvTimeout),
               NtpResult(100.1, 0.02, Success)];
    assert rs[..2][..1] == [rs[0]] && rs[..2] == [rs[0], rs[1]] && rs[..|rs| - 1] == rs[..2];
    assert [rs[0]][..0] == [];
    var r1, r2 := rs[..1], rs[..2];
    assert r1[..0] == [] && r2[..1] == r1 && rs[..2] == r2;
    assert SumTime(r1) == 100.0 && SumDelay(r1) == 0.01;
    assert SumTime(r2) == 100.0 && SumDelay(r2) == 0.01;
    assert SumTime(rs) == 200.1 && SumDelay(rs) == 0.03;
    assert SuccessCount(rs) == 2;
  }
}
