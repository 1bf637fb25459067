/**
 * The server fallback of `main`: an optional user host, checked for syntax before any
 * network activity, then the built-in pool in its fixed order; the run stops at the first
 * host whose samples average successfully and whose clock-set call succeeds.
 */
module Fallback {
  import opened Wrappers
  import opened Hostname
  import opened Platform
  import opened Exchange
  import opened Sampling

  /** INTERNAL_NTP_SERVERS, in array order. */
  const Pool: seq<string> := ["ntp.aliyun.com", "time.cloudflare.com", "pool.ntp.org"]

  /** The hosts in the order they are tried: the user's host first, when one was given. */
  function Candidates(customServer: Option<string>): (hosts: seq<string>)
    ensures |hosts| == |Pool| + (if customServer.Some? then 1 else 0)
    ensures customServer.Some? ==> hosts[0] == customServer.value && hosts[1..] == Pool
    ensures customServer.None? ==> hosts == Pool
  {
    (if customServer.Some? then [customServer.value] else []) + Pool
  }

  /** Where the run stands: whether the clock has been set, and the world so far. */
  datatype Progress = Progress(done: bool, world: World)

  /** One candidate host: sample it; if the average succeeded, try to set the clock with it. */
  function TryHost(w: World, hostname: string, samples: nat): Progress
    requires Provisioned(w, 1, samples)
  {
    var average := Aggregate(Outcomes(w.exchanges[..samples]));
    var sampled := AfterSampling(w, hostname, samples);
    if average.error != Success then Progress(false, sampled)
    else
      var applied := SetTimePlatform(sampled, average.correctedTime);
      Progress(applied.0 == Success, applied.1)
  }

  lemma ProvisionedForOne(w: World, hosts: nat, samples: nat)
    requires hosts >= 1 && Provisioned(w, hosts, samples)
    ensures Provisioned(w, 1, samples)
  {
    assert hosts * samples >= samples;
  }

  /** A host attempt uses at most one host's share of the answers. */
  lemma TryHostProvision(w: World, hostname: string, samples: nat, hosts: nat)
    requires hosts >= 1 && Provisioned(w, hosts, samples) && Provisioned(w, 1, samples)
    ensures Provisioned(TryHost(w, hostname, samples).world, hosts - 1, samples)
  {
    assert (hosts - 1) * samples == hosts * samples - samples;
    assert forall i :: 0 <= i < |w.exchanges| - samples ==> w.exchanges[samples..][i] == w.exchanges[samples + i];
  }

  /** Tries `hosts` in order from `p`, stopping as soon as the clock has been set. */
  function TryCandidates(p: Progress, hosts: seq<string>, samples: nat): Progress
    requires p.done || Provisioned(p.world, |hosts|, samples)
    decreases |hosts|
  {
    if hosts == [] || p.done then p
    else
      ProvisionedForOne(p.world, |hosts|, samples);
      TryHostProvision(p.world, hosts[0], samples, |hosts|);
      TryCandidates(TryHost(p.world, hosts[0], samples), hosts[1..], samples)
  }

  datatype RunResult = RunResult(exitCode: int, world: World)

  /** The whole run: exit code 0 exactly when some host's time reached the clock. */
  function ClientRun(customServer: Option<string>, samples: nat, w: World): RunResult
    requires Provisioned(w, |Candidates(customServer)|, samples)
  {
    if customServer.Some? && !ValidateHostname(customServer) then RunResult(1, w)
    else
      var p := TryCandidates(Progress(false, w), Candidates(customServer), samples);
      RunResult(if p.done then 0 else 1, p.world)
  }

  /**
   * One host as main handles it in either stage: sample it, then set the clock on success.
   * `hosts` counts this host and those that may still follow it.
   */
  method AttemptHost(hostname: string, samples: int, w: World, ghost hosts: nat) returns (success: bool, w': World)
    requires 1 <= samples <= MaxSamples && hosts >= 1 && Provisioned(w, hosts, samples)
    ensures Provisioned(w, 1, samples) && Progress(success, w') == TryHost(w, hostname, samples)
    ensures Provisioned(w', hosts - 1, samples)
  {
    ProvisionedForOne(w, hosts, samples);
    TryHostProvision(w, hostname, samples, hosts);
    success := false;
    var result;
    result, w' := SyncMultiSample(hostname, samples, w);
    if result.error == Success {
      var applied := SetTimePlatform(w', result.correctedTime);
      var setError := applied.0;
      w' := applied.1;
      if setError == Success {
        success := true;
      }
    }
  }

  /** Stage 2: the pool hosts in array order, stopping at the first that sets the clock. */
  method TryPool(samples: int, w: World) returns (success: bool, w': World)
    requires 1 <= samples <= MaxSamples && Provisioned(w, |Pool|, samples)
    ensures Progress(success, w') == TryCandidates(Progress(false, w), Pool, samples)
  {
    success := false;
    w' := w;
    var i := 0;
    ghost var left: nat := |Pool|;
    while i < |Pool|
      invariant 0 <= i <= |Pool| && left == |Pool| - i
      invariant Provisioned(w', left, samples)
      invariant TryCandidates(Progress(false, w'), Pool[i..], samples) == TryCandidates(Progress(false, w), Pool, samples)
      invariant !success
    {
      assert Pool[i..][1..] == Pool[i + 1..];
      ghost var before := w';
      success, w' := AttemptHost(Pool[i], samples, w', left);
      assert TryCandidates(Progress(false, before), Pool[i..], samples)
          == TryCandidates(Progress(success, w'), Pool[i + 1..], samples);
      if success {
        DoneIsFinal(Progress(true, w'), Pool[i + 1..], samples);
        return;
      }
      i, left := i + 1, left - 1;
    }
  }

  /** main from the syntax check on: stage 1 with the user's host, stage 2 over the pool. */
  method RunClient(customServer: Option<string>, samples: int, w: World) returns (exitCode: int, w': World)
    requires 1 <= samples <= MaxSamples
    requires Provisioned(w, |Candidates(customServer)|, samples)
    ensures RunResult(exitCode, w') == ClientRun(customServer, samples, w)
  {
    var success := false;
    w' := w;
    ghost var spec := TryCandidates(Progress(false, w), Candidates(customServer), samples);
    if customServer.Some? {
      if !ValidateHostname(customServer) {
        return 1, w;
      }
      success, w' := AttemptHost(customServer.value, samples, w, |Pool| + 1);
      assert Candidates(customServer)[1..] == Pool;
    }
    assert spec == TryCandidates(Progress(success, w'), Pool, samples);
    if !success {
      success, w' := TryPool(samples, w');
    }
    exitCode := if success then 0 else 1;
  }

  /** An invalid user host name ends the run with exit code 1 before any lookup, send or clock call. */
  lemma InvalidHostnameStopsRun(customServer: Option<string>, samples: nat, w: World)
    requires Provisioned(w, |Candidates(customServer)|, samples)
    requires customServer.Some? && !ValidateHostname(customServer)
    ensures ClientRun(customServer, samples, w) == RunResult(1, w)
  {
  }

  /** Once the clock is set no further host is tried. */
  lemma DoneIsFinal(p: Progress, hosts: seq<string>, samples: nat)
    requires p.done
    ensures TryCandidates(p, hosts, samples) == p
  {
  }

  /**
   * Trying hosts from a state where the clock is not set either ends with no clock write,
   * or ends with exactly one new write, appended to the earlier ones, and the done flag.
   */
  lemma {:induction false} ClockWrittenOnce(p: Progress, hosts: seq<string>, samples: nat)
    requires !p.done && Provisioned(p.world, |hosts|, samples)
    ensures var q := TryCandidates(p, hosts, samples);
            && (q.done ==> |q.world.clockWrites| == |p.world.clockWrites| + 1
                           && q.world.clockWrites[..|p.world.clockWrites|] == p.world.clockWrites)
            && (!q.done ==> q.world.clockWrites == p.world.clockWrites)
    decreases |hosts|
  {
    if hosts != [] {
      ProvisionedForOne(p.world, |hosts|, samples);
      TryHostProvision(p.world, hosts[0], samples, |hosts|);
      var r := TryHost(p.world, hosts[0], samples);
      if !r.done {
        ClockWrittenOnce(r, hosts[1..], samples);
      } else {
        assert r.world.clockWrites[..|p.world.clockWrites|] == p.world.clockWrites;
      }
    }
  }

  /** Exit code 0 exactly when the system clock was written, and then it was written once. */
  lemma ExitCodeReportsClockSet(customServer: Option<string>, samples: nat, w: World)
    requires Provisioned(w, |Candidates(customServer)|, samples)
    ensures var r := ClientRun(customServer, samples, w);
            && (r.exitCode == 0 || r.exitCode == 1)
            && (r.exitCode == 0 <==> |r.world.clockWrites| == |w.clockWrites| + 1)
            && (r.exitCode == 1 ==> r.world.clockWrites == w.clockWrites)
  {
    if !(customServer.Some? && !ValidateHostname(customServer)) {
      ClockWrittenOnce(Progress(false, w), Candidates(customServer), samples);
    }
  }

  /** The lookups made for `hosts`, each host `samples` times, in order. */
  function Expand(hosts: seq<string>, samples: nat): seq<string>
  {
    if hosts == [] then [] else Repeat(hosts[0], samples) + Expand(hosts[1..], samples)
  }

  lemma ExpandCons(hosts: seq<string>, k: nat, samples: nat)
    requires 1 <= k <= |hosts|
    ensures Expand(hosts[..k], samples) == Repeat(hosts[0], samples) + Expand(hosts[1..][..k - 1], samples)
  {
    assert hosts[..k][0] == hosts[0] && hosts[..k][1..] == hosts[1..][..k - 1];
  }

  /**
   * `after` extends `before` by the lookups of a non-empty prefix of `hosts`, and only a
   * run that `finished` (set the clock) leaves hosts out.
   */
  predicate ContactedPrefix(before: seq<string>, after: seq<string>, finished: bool, hosts: seq<string>, samples: nat)
  {
    exists k :: 1 <= k <= |hosts| && after == before + Expand(hosts[..k], samples) && (k < |hosts| ==> finished)
  }

  lemma PrefixFirst(before: seq<string>, after: seq<string>, finished: bool, hosts: seq<string>, samples: nat)
    requires hosts != [] && after == before + Repeat(hosts[0], samples) && (|hosts| > 1 ==> finished)
    ensures ContactedPrefix(before, after, finished, hosts, samples)
  {
    ExpandCons(hosts, 1, samples);
    assert Expand(hosts[1..][..0], samples) == [];
    assert after == before + Expand(hosts[..1], samples);
  }

  lemma PrefixStep(before: seq<string>, middle: seq<string>, after: seq<string>, finished: bool,
                   hosts: seq<string>, samples: nat)
    requires |hosts| > 1 && middle == before + Repeat(hosts[0], samples)
    requires ContactedPrefix(middle, after, finished, hosts[1..], samples)
    ensures ContactedPrefix(before, after, finished, hosts, samples)
  {
    var k :| 1 <= k <= |hosts[1..]| && after == middle + Expand(hosts[1..][..k], samples)
             && (k < |hosts[1..]| ==> finished);
    ExpandCons(hosts, k + 1, samples);
    assert after == before + Expand(hosts[..k + 1], samples);
  }

  /** One host attempt looks its name up once per sample. */
  lemma TryHostLookups(w: World, hostname: string, samples: nat)
    requires Provisioned(w, 1, samples)
    ensures TryHost(w, hostname, samples).world.lookups == w.lookups + Repeat(hostname, samples)
  {
    SamplingLookups(w, hostname, samples);
  }

  /**
   * Hosts are contacted in the given order, each for all its samples; the hosts contacted
   * form a non-empty prefix of the list, and a host is left out only after the clock was set.
   */
  lemma {:induction false} TriesPrefixInOrder(p: Progress, hosts: seq<string>, samples: nat)
    requires !p.done && hosts != [] && Provisioned(p.world, |hosts|, samples)
    ensures var q := TryCandidates(p, hosts, samples);
            ContactedPrefix(p.world.lookups, q.world.lookups, q.done, hosts, samples)
    decreases |hosts|
  {
    ProvisionedForOne(p.world, |hosts|, samples);
    TryHostProvision(p.world, hosts[0], samples, |hosts|);
    var r := TryHost(p.world, hosts[0], samples);
    var q := TryCandidates(p, hosts, samples);
    assert q == TryCandidates(r, hosts[1..], samples);
    TryHostLookups(p.world, hosts[0], samples);
    if r.done || |hosts| == 1 {
      PrefixFirst(p.world.lookups, q.world.lookups, q.done, hosts, samples);
    } else {
      TriesPrefixInOrder(r, hosts[1..], samples);
      PrefixStep(p.world.lookups, r.world.lookups, q.world.lookups, q.done, hosts, samples);
    }
  }

  /** The run contacts the user's host (if any) and then the pool, in order, as a prefix. */
  lemma CandidatesInOrder(customServer: Option<string>, samples: nat, w: World)
    requires Provisioned(w, |Candidates(customServer)|, samples)
    requires customServer.Some? ==> ValidateHostname(customServer)
    ensures var r := ClientRun(customServer, samples, w);
            ContactedPrefix(w.lookups, r.world.lookups, r.exitCode == 0, Candidates(customServer), samples)
  {
    TriesPrefixInOrder(Progress(false, w), Candidates(customServer), samples);
  }

  /**
   * When the user's host does not end with the clock set (no sample succeeded, or the
   * clock-set call failed), the run continues exactly as a run without a user host would.
   */
  lemma UserHostFallsThrough(hostname: string, samples: nat, w: World)
    requires ValidateHostname(Some(hostname))
    requires Provisioned(w, |Pool| + 1, samples)
    requires !TryHost(w, hostname, samples).done
    ensures var next := TryHost(w, hostname, samples).world;
            Provisioned(next, |Pool|, samples)
            && ClientRun(Some(hostname), samples, w) == ClientRun(None, samples, next)
  {
    TryHostProvision(w, hostname, samples, |Pool| + 1);
    assert Candidates(Some(hostname))[1..] == Pool;
  }

  /** When every exchange fails, the run exits with 1 and the clock-set call is never made. */
  lemma {:induction false} NoAnswerNoClockCall(p: Progress, hosts: seq<string>, samples: nat)
    requires !p.done && Provisioned(p.world, |hosts|, samples)
    requires forall i :: 0 <= i < |p.world.exchanges| ==> ExchangeOutcome(p.world.exchanges[i]).error != Success
    ensures var q := TryCandidates(p, hosts, samples);
            !q.done && q.world.clockSets == p.world.clockSets && q.world.clockWrites == p.world.clockWrites
    decreases |hosts|
  {
    if hosts != [] {
      var w := p.world;
      ProvisionedForOne(w, |hosts|, samples);
      TryHostProvision(w, hosts[0], samples, |hosts|);
      var outcomes := Outcomes(w.exchanges[..samples]);
      AllFailedReportsTimeout(outcomes);
      var r := TryHost(w, hosts[0], samples);
      assert forall i :: 0 <= i < |r.world.exchanges| ==> r.world.exchanges[i] == w.exchanges[samples + i];
      NoAnswerNoClockCall(r, hosts[1..], samples);
    }
  }

  lemma TotalFailure(customServer: Option<string>, samples: nat, w: World)
    requires Provisioned(w, |Candidates(customServer)|, samples)
    requires forall i :: 0 <= i < |w.exchanges| ==> ExchangeOutcome(w.exchanges[i]).error != Success
    ensures var r := ClientRun(customServer, samples, w);
            r.exitCode == 1 && r.world.clockSets == w.clockSets && r.world.clockWrites == w.clockWrites
  {
    if !(customServer.Some? && !ValidateHostname(customServer)) {
      NoAnswerNoClockCall(Progress(false, w), Candidates(customServer), samples);
    }
  }
}
