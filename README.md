# ntpc — a verified model of a one-shot SNTP client

ntpc sets the system clock from an SNTP server. It sends one 48-octet request over UDP and
reads back the reply in the packet layout of section 4 of RFC 4330 (section 7.3 of RFC 5905).
It then:

- checks the reply against the client sanity rules of section 5 of RFC 4330;
- turns the four timestamps into a round-trip delay and a corrected time;
- averages several samples per host;
- falls back from a user-given host to a built-in pool of three servers, stopping at the
  first host whose average and clock-set call both succeed.

A second, older program, ntpc.exe.c, makes a single request to one host. It reads the
transmit timestamp at octets 40 and 44 of the reply and converts it with integer arithmetic
into a Windows FILETIME (100 ns ticks since 1601).

This project models both programs in Dafny and proves properties about the models. Its
modules follow the source:

| file | module | what it models |
|---|---|---|
| bytes.dfy | `Bytes` | octets, 32-bit words, `htonl`/`ntohl` |
| packet.dfy | `Packet` | the packed `ntp_packet` struct, its 48-octet image, the request |
| timestamp.dfy | `Timestamp` | the 1900/1970 epoch shift and the seconds and fraction fields |
| hostname.dfy | `Hostname` | `validate_hostname` |
| validator.dfy | `Validator` | `validate_ntp_response` |
| offset.dfy | `Offset` | delay, corrected time and clock offset |
| platform.dfy | `Platform` | error codes, results, and the outside world as a value |
| exchange.dfy | `Exchange` | `query_ntp_server` |
| sampling.dfy | `Sampling` | `sync_with_server_multi_sample` |
| fallback.dfy | `Fallback` | the two-stage fallback in `main` |
| filetime.dfy | `WindowsTime` | `ntp_time_to_system_time` of ntpc.exe.c |
| legacy.dfy | `LegacyClient` | `main` of ntpc.exe.c |
| wrappers.dfy | `Wrappers` | `Option` |

The outside world is one `World` value that methods take and return:

- a queue of per-exchange scripts: whether `getaddrinfo`, `socket` and `sendto` succeed, the
  octets `recv` delivers, and the local clock readings T1 and T4;
- a queue of clock-set outcomes;
- logs of the names looked up, the datagrams sent and the values written to the clock;
- counters of the sockets and address lists held.

The imperative parts keep the source's shape:

- `query_ntp_server` fills a 48-octet array in place, with `recv` overwriting it, and reaches
  a single cleanup block by labelled `break`, as the C code does by `goto cleanup`.
- The sample loop writes an array of results and keeps running sums.
- `main` loops over the pool with a success flag and leaves the loop at the first host whose
  clock-set succeeds; here the stage-2 method `TryPool` returns from inside its loop at that point.

Each method is proved against a function that specifies it. The lemmas are stated over those
functions.

Where the code and the documented design disagree, the model follows the code:

- `query_ntp_server` never reports `NTP_ERR_INVALID_STRATUM`. A stratum of 0 or above 15 fails
  validation, and the exchange reports `NTP_ERR_INVALID_RESPONSE`.
- A clock-set failure of any kind, `NTP_ERR_PERMISSION_DENIED` included, moves on to the next
  candidate host. This holds in stage 1 as well: a failed set on the user's host falls through
  to the pool.
- A host whose samples all fail reports `NTP_ERR_RECV_TIMEOUT`, whatever the samples' own
  errors were.

## Model

| member | source | states |
|---|---|---|
| Bytes.BE32 | ntpc_all.c:273-274 | htonl: the four octets, most significant first, that a stored word occupies; always four of them (their relation to ntohl is stated by Bytes.ReadWrittenWord and Bytes.WriteReadWord) |
| Bytes.ReadBE32 | ntpc_all.c:297-300 | ntohl of a loaded word: the value of four octets read most significant first; no contract of its own, its inverse relation to BE32 is stated by Bytes.ReadWrittenWord and Bytes.WriteReadWord |
| Bytes.ReadWrittenWord | ntpc_all.c:297-300 | ntohl of a word stored by htonl gives back the word |
| Bytes.WriteReadWord | ntpc_all.c:297-300 | the four octets of any stored word are the big-endian image of the value ntohl reads from them |
| Packet.Serialize | ntpc_all.c:86-104 | the memory image of the packed struct: always 48 octets, four header octets and eleven big-endian words (member by member: Packet.SerializedWord; inverse: Packet.DecodeSerialize) |
| Packet.Decode | ntpc_all.c:86-104 | the struct as recv leaves it in memory, read from 48 octets; no contract of its own, member k is stated by Packet.DecodeWord and its inverse by Packet.SerializeDecode |
| Packet.Mode | ntpc_all.c:164 | `li_vn_mode & 0x07`: the mode is always below 8 |
| Packet.DecodeWord | ntpc_all.c:86-104 | member k of the packed struct is read from the big-endian word at octet 4 + 4k |
| Packet.SerializedWord | ntpc_all.c:86-104 | in the struct's memory image, member k occupies octets 4 + 4k .. 4 + 4k + 3, most significant first |
| Packet.DecodeSerialize | ntpc_all.c:86-104 | reading a struct back from its 48-octet image gives every member unchanged |
| Packet.SerializeDecode | ntpc_all.c:86-104 | any 48 octets read as a struct and laid out again give the same octets: the layout loses nothing |
| Packet.RequestDatagram | ntpc_all.c:240-274 | the request is 48 octets: octet 0 is 0x1B, octets 1..39 are zero, and octets 40..47 are the big-endian transmit seconds and fraction |
| Packet.RequestHeader | ntpc_all.c:265 | octet 0 of the request carries leap indicator 0, version 3 and mode 3 |
| Timestamp.EncodeSeconds | ntpc_all.c:269 | the sent seconds field is the Unix seconds plus 2208988800, less 2^32 exactly when the sum leaves the 32-bit range |
| Timestamp.DecodeSeconds | ntpc_all.c:302-303 | from 1970 on the Unix seconds are the field minus 2208988800; before 1970 the unsigned subtraction wraps by 2^64 |
| Timestamp.SecondsField | ntpc_all.c:269 | t1_sec for a clock reading t, the encoded whole seconds; no contract of its own, stated by Timestamp.SecondsFieldDecodes and Timestamp.TimestampRoundTrip |
| Timestamp.SecondsFieldDecodes | ntpc_all.c:269 | decoding t1_sec gives back the whole seconds of t modulo 2^32, wrap or no wrap |
| Timestamp.FractionField | ntpc_all.c:270 | t1_frac, the sub-second part of t times 2^32 truncated; no contract of its own, stated by Timestamp.FractionFieldTruncates |
| Timestamp.FractionFieldTruncates | ntpc_all.c:270 | t1_frac is the sub-second part of t times 2^32, truncated: it lies within one unit below that product |
| Timestamp.ToUnixReal | ntpc_all.c:302-303 | T2 and T3 as seconds since 1970; no contract of its own, stated by Timestamp.ToUnixRealBounds and Timestamp.TimestampRoundTrip |
| Timestamp.ToUnixRealBounds | ntpc_all.c:302-303 | T2 and T3 are the decoded seconds plus a fraction that adds less than one second |
| Timestamp.SecondsRoundTrip | ntpc_all.c:269-303 | decoding the seconds field the client wrote gives back its Unix seconds while the field has not wrapped |
| Timestamp.SecondsFieldRoundTrip | ntpc_all.c:269-303 | every seconds field from 1970 on decodes to a 32-bit value that encodes back to the same field |
| Timestamp.TimestampRoundTrip | ntpc_all.c:268-303 | a clock reading sent as seconds and fraction decodes to a value at most 2^-32 s below it and never above it (reals) |
| Hostname.ScanChars | ntpc_all.c:150-158 | the scan succeeds exactly when every character is an ASCII letter, a digit, '.' or '-' |
| Hostname.ValidateHostname | ntpc_all.c:145-158 | a name is accepted exactly when it is present, 1 to 255 characters long and every character is whitelisted |
| Hostname.SlashRefused | ntpc_all.c:150-156 | a name with a '/' anywhere is refused |
| Validator.ToInt32 | ntpc_all.c:185 | the (int) cast of a uint32 lies in the 32-bit signed range and is congruent to it modulo 2^32 |
| Validator.Wrap32 | ntpc_all.c:185 | a 32-bit signed register holds a value in range congruent to the mathematical result modulo 2^32 |
| Validator.OriginWithinToleranceAsWritten | ntpc_all.c:185-186 | the origin check as the code computes it: 32-bit casts, a wrapping subtraction and an abs that leaves INT_MIN negative; no contract of its own, what it accepts is stated by Validator.OriginChecksAgree and Validator.HalfEraEchoAccepted |
| Validator.OriginWithinTolerance | ntpc_all.c:180-190 | the corrected origin check, used by ValidateResponse; no contract of its own, what it accepts is stated by Validator.OriginToleranceExact and Validator.OriginToleranceNoWrap |
| Validator.WrappedDifference | ntpc_all.c:185 | the wrapped signed difference of the casts depends only on the unsigned difference modulo 2^32 |
| Validator.OriginToleranceExact | ntpc_all.c:180-190 | the corrected origin check accepts exactly the echoes 0, +1 or -1 seconds from the sent seconds, modulo 2^32 |
| Validator.OriginToleranceNoWrap | ntpc_all.c:185-186 | away from the 2^32 wrap the corrected origin check is the plain tolerance abs(resp - sent) <= 1 |
| Validator.OriginChecksAgree | ntpc_all.c:185-186 | the check as written and the corrected check agree on every pair except a difference of exactly 2^31 |
| Validator.HalfEraEchoAccepted | ntpc_all.c:185-186 | as written, an echo 2^31 seconds from the sent seconds is accepted; the corrected check refuses it |
| Validator.ValidateResponse | ntpc_all.c:161-199 | a reply is accepted exactly when its mode is 4 or 5, its stratum is in 1..15, its origin seconds are within one second of the sent seconds and its transmit seconds are non-zero |
| Validator.FractionsIgnored | ntpc_all.c:162-190 | neither the sent fraction nor the echoed origin fraction changes the verdict |
| Validator.ClientModeRefused | ntpc_all.c:164-168 | a packet in client mode 3 is refused |
| Validator.BadStratumRefused | ntpc_all.c:170-178 | stratum 0 and every stratum above 15 are refused |
| Validator.ServerEchoAccepted | ntpc_all.c:161-199 | a mode-4, stratum-1 reply echoing the sent seconds with a non-zero transmit time is accepted, whatever the sent fraction |
| Offset.RoundTripDelay | ntpc_all.c:310 | delay = (T4 - T1) - (T3 - T2); no contract of its own, its meaning (two one-way legs) is stated by Offset.SymmetricPathExact |
| Offset.CorrectedTime | ntpc_all.c:311 | corrected time = T3 + delay / 2; no contract of its own, its meaning is stated by Offset.CorrectedIsLocalPlusOffset and Offset.SymmetricPathExact |
| Offset.CorrectedIsLocalPlusOffset | ntpc_all.c:305-311 | T3 + delay/2 equals T4 plus the clock offset ((T2 - T1) + (T3 - T4)) / 2 |
| Offset.SymmetricPathExact | ntpc_all.c:310-311 | with equal one-way delays d and a server ahead by theta, the delay is 2d and the corrected time is the server's clock at T4 |
| Offset.WorkedExample | ntpc_all.c:310-311 | T1 = 0, T2 = 10, T3 = 10.1, T4 = 0.2 give delay 0.1 and corrected time 10.15 |
| Exchange.FillRequest | ntpc_all.c:264-274 | writing octet 0 and the htonl'd transmit pair into the zeroed packet gives exactly the request datagram |
| Exchange.Receive | ntpc_all.c:282 | recv returns the count of octets delivered or -1, and a full 48-octet reply replaces the whole packet |
| Exchange.QueryServer | ntpc_all.c:236-317 | the result is the one the error ladder assigns to the exchange's script; the world advances by one lookup, at most one sent request and one used script; every socket and address list acquired is released on every path |
| Exchange.ExchangeOutcome | ntpc_all.c:236-317 | the result query_ntp_server computes from one script; no contract of its own, stated by Exchange.ExchangeLadder and Exchange.SuccessfulExchange and met by Exchange.QueryServer |
| Exchange.ExchangeLadder | ntpc_all.c:246-312 | each error holds exactly when its step is the first to fail: DNS, socket, send, a short or missing reply, and INVALID_RESPONSE for a full reply that fails validation; SUCCESS exactly when every step passes; the error is always one of these six, never INVALID_STRATUM; failures carry time and delay 0 |
| Exchange.ReflectedRequestRefused | ntpc_all.c:264-294 | our own request echoed back by the network is refused as an invalid response |
| Exchange.SuccessfulExchange | ntpc_all.c:291-312 | a successful exchange used a full mode 4 or 5 reply with non-zero transmit seconds, and its corrected time is T4 plus the clock offset |
| Sampling.SuccessCount | ntpc_all.c:330-340 | the number of successes never exceeds the number of samples |
| Sampling.AfterSampling | ntpc_all.c:330-331 | n exchanges use the first n scripts and leave the clock, the clock-set queue and the held sockets and address lists as they were |
| Sampling.SamplingLookups | ntpc_all.c:330-331 | n exchanges look the host name up exactly n times, in order |
| Sampling.SamplingSent | ntpc_all.c:330-331 | n exchanges send, in order, the requests of those of the first n scripts whose sendto succeeded |
| Sampling.SyncMultiSample | ntpc_all.c:321-356 | the loop runs exactly `samples` exchanges; the result is the mean time and delay over the successful samples, or RECV_TIMEOUT when none succeeded |
| Sampling.Aggregate | ntpc_all.c:342-350 | the host result from the success count and the sums; no contract of its own, stated by Sampling.AggregateSucceedsIff, Sampling.AllFailedReportsTimeout and Sampling.AverageWithinSamples |
| Sampling.NoSuccessIffZero | ntpc_all.c:330-345 | the success count is zero exactly when no sample succeeded |
| Sampling.AllFailedReportsTimeout | ntpc_all.c:342-345 | when every sample fails, whatever the errors, the host reports RECV_TIMEOUT with time and delay 0 |
| Sampling.AggregateSucceedsIff | ntpc_all.c:342-351 | the host succeeds exactly when some sample succeeded, and otherwise reports only RECV_TIMEOUT |
| Sampling.FailedSamplesIgnored | ntpc_all.c:332-336 | averaging only the successful samples gives the same result: failed samples take no part |
| Sampling.AverageWithinSamples | ntpc_all.c:348-350 | the averaged corrected time lies between the smallest and the largest successful sample |
| Sampling.WorkedExample | ntpc_all.c:330-350 | samples at 100.0, 100.2 (failed) and 100.1 average to 100.05 with delay 0.015 from two successes |
| Platform.SetTimePlatform | ntpc_all.c:202-233 | set_system_time_platform as an outside call: it consumes one queued outcome; the clock gains exactly the value t when the outcome is success and is unchanged otherwise; nothing else in the world changes |
| Fallback.Candidates | ntpc_all.c:407-440 | the hosts tried are the user's host first, when one was given, then the three pool hosts in array order |
| Fallback.TryHost | ntpc_all.c:415-430 | one host: sample it, and set the clock only if the average succeeded; no contract of its own, stated by Fallback.TryHostLookups and met by Fallback.AttemptHost |
| Fallback.TryCandidates | ntpc_all.c:437-454 | the fallback loop over a host list, stopping once the clock is set; no contract of its own, stated by Fallback.DoneIsFinal, Fallback.ClockWrittenOnce and Fallback.TriesPrefixInOrder and met by Fallback.TryPool |
| Fallback.ClientRun | ntpc_all.c:403-465 | main from the hostname check to the exit code; no contract of its own, stated by Fallback.ExitCodeReportsClockSet, Fallback.CandidatesInOrder and Fallback.TotalFailure and met by Fallback.RunClient |
| Fallback.AttemptHost | ntpc_all.c:415-430 | one host is sampled and, only if its average succeeded, the clock is set; success means the set succeeded; the answers left suffice for the hosts still to come |
| Fallback.TryPool | ntpc_all.c:437-454 | stage 2 tries the pool hosts in order and stops at the first whose clock-set succeeds |
| Fallback.RunClient | ntpc_all.c:403-465 | main's outcome, from the syntax check to the exit code, is the fallback run over the candidate hosts |
| Fallback.InvalidHostnameStopsRun | ntpc_all.c:407-412 | an invalid user host exits with 1 before any lookup, send or clock call |
| Fallback.DoneIsFinal | ntpc_all.c:442-448 | once the clock has been set no further host is tried |
| Fallback.ClockWrittenOnce | ntpc_all.c:415-454 | a run either leaves the clock untouched or writes it exactly once, appended after earlier writes |
| Fallback.ExitCodeReportsClockSet | ntpc_all.c:456-465 | the exit code is 0 or 1, and it is 0 exactly when the clock was written once |
| Fallback.TryHostLookups | ntpc_all.c:415-440 | one host attempt looks the host's name up once per sample |
| Fallback.TriesPrefixInOrder | ntpc_all.c:437-453 | hosts are contacted in list order, all samples of each, forming a non-empty prefix; hosts are skipped only after the clock was set |
| Fallback.CandidatesInOrder | ntpc_all.c:407-454 | a valid run contacts the user's host and then the pool in order; it leaves hosts out only when it exits with 0 |
| Fallback.UserHostFallsThrough | ntpc_all.c:417-437 | when the user's host does not end with the clock set, the run continues exactly as a run without a user host |
| Fallback.NoAnswerNoClockCall | ntpc_all.c:437-454 | when every exchange fails, no clock-set call is made and nothing is written |
| Fallback.TotalFailure | ntpc_all.c:403-465 | when every exchange fails, the run exits with 1 and never calls the clock setter |
| WindowsTime.FractionTicks | ntpc.exe.c:53 | frac * 10^7 / 2^32 in 64-bit unsigned arithmetic; no contract of its own, bounded by WindowsTime.FractionTicksBound and monotone by WindowsTime.FractionTicksMonotone |
| WindowsTime.FractionTicksBound | ntpc.exe.c:53 | frac * 10^7 fits in 64 bits, and the sub-second ticks frac * 10^7 / 2^32 stay below 10^7 |
| WindowsTime.WinTicks | ntpc.exe.c:47-53 | the tick count is a 64-bit unsigned value |
| WindowsTime.Seconds1601Wrapped | ntpc.exe.c:47-50 | the wrapped Unix seconds plus 11644473600, taken modulo 2^64, are the true seconds since 1601, even for fields before 1970 |
| WindowsTime.TicksExact | ntpc.exe.c:47-53 | no wrap survives: the ticks are seconds since 1601 times 10^7 plus the sub-second ticks |
| WindowsTime.TicksDecompose | ntpc.exe.c:47-53 | ticks / 10^7 are the seconds since 1601 and ticks % 10^7 the sub-second ticks |
| WindowsTime.TicksMatchUnixSeconds | ntpc.exe.c:47-53 | for fields from 1970 on, ticks / 10^7 = sec - 2208988800 + 11644473600 |
| WindowsTime.FractionTicksMonotone | ntpc.exe.c:53 | a larger fraction never gives fewer sub-second ticks |
| WindowsTime.TicksMonotone | ntpc.exe.c:47-53 | the ticks never decrease along (sec, frac) in lexicographic order |
| WindowsTime.Join | ntpc.exe.c:56-57 | high * 2^32 + low is below 2^64 |
| WindowsTime.Split | ntpc.exe.c:56-57 | the low and high 32-bit words of the ticks; no contract of its own, inverse of Join by WindowsTime.JoinSplit and WindowsTime.SplitJoin |
| WindowsTime.JoinSplit | ntpc.exe.c:56-57 | the low and high words put back together give the ticks that were split |
| WindowsTime.SplitJoin | ntpc.exe.c:56-57 | every FILETIME is the split of exactly one 64-bit value |
| WindowsTime.ToFileTime | ntpc.exe.c:41-57 | the FILETIME's words join to the tick count of the timestamp |
| WindowsTime.WorkedExample | ntpc.exe.c:47-57 | the Unix epoch plus half a second is 116444736005000000 ticks, FILETIME (0xD58ACB40, 0x019DB1DE) |
| LegacyClient.LegacyRequest | ntpc.exe.c:73-110 | the request is 48 octets: 0x1B, then zeros; no transmit timestamp is set |
| LegacyClient.LegacyRequestDecodes | ntpc.exe.c:73-110 | that request is the other client's request with a zero transmit timestamp |
| LegacyClient.ShortReplyAsWritten | ntpc.exe.c:122-123 | `bytes_received < sizeof(ntp_packet)` with the int converted to a 64-bit size_t; no contract of its own, stated by LegacyClient.ShortReplyAsWrittenExact and LegacyClient.RecvFailurePassesAsWritten |
| LegacyClient.ShortReplyAsWrittenExact | ntpc.exe.c:122-123 | as written, the length check refuses exactly the counts 0..47 |
| LegacyClient.ShortReplyChecksAgree | ntpc.exe.c:122-123 | on every non-negative count the check as written and the intended check agree |
| LegacyClient.RecvFailurePassesAsWritten | ntpc.exe.c:122-128 | SOCKET_ERROR passes the check as written and fails the intended one |
| LegacyClient.TransmitWords | ntpc.exe.c:135-136 | the words read at octets 40 and 44 are the transmit seconds and fraction of the packet layout |
| LegacyClient.LegacyMainAsWritten | ntpc.exe.c:63-167 | main as written, with the size_t length check; no contract of its own, stated by LegacyClient.LegacyChecksAgree and LegacyClient.RecvFailureSetsClockAsWritten |
| LegacyClient.LegacyMain | ntpc.exe.c:63-167 | main with the intended length check; no contract of its own, stated by LegacyClient.LegacyMainOutcome |
| LegacyClient.LegacyMainOutcome | ntpc.exe.c:78-147 | with the intended check, the run exits with 0 exactly when every call succeeds and a full reply arrives; the clock is asked for the FILETIME of the reply's transmit timestamp, and only then |
| LegacyClient.LegacyChecksAgree | ntpc.exe.c:122-128 | whenever recv returned a count, the program as written behaves as intended |
| LegacyClient.RecvFailureSetsClockAsWritten | ntpc.exe.c:122-147 | as written, a failed recv still sets the clock from the untouched buffer and exits with 0; the intended check exits with 1 without touching the clock |

## Left out

- Sockets, name resolution and Winsock are not modelled. Their outcomes are inputs: the
  per-exchange scripts and, for ntpc.exe.c, one script per run. `getaddrinfo`, `socket`,
  `setsockopt`, `sendto`, `recv`, `gethostbyname` and `WSAStartup` are among them, and so are
  the receive timeout and port 123.
- `init_networking` and `cleanup_networking` (ntpc_all.c:401, 464): `RunClient` starts after a
  successful start-up. A failed start-up, which exits with 1, is not modelled.
- `get_local_time_double`: the readings T1 and T4 come from the script.
- `set_system_time_platform` (ntpc_all.c:202-233) is an opaque call, `Platform.SetTimePlatform`. It reports the next queued
  outcome (success, permission denied or failure), and a success logs the value written. Its
  own double-to-tick conversion is not modelled.
- `FileTimeToSystemTime`, `SetSystemTime` and `GetLocalTime` in ntpc.exe.c: the model
  records the FILETIME handed to the clock and takes the call's outcome from the script.
- Double-precision arithmetic is idealised as exact `real` arithmetic: the fraction
  encoding, T2/T3, the delay, the corrected time and the averages. Rounding is not modelled.
- Diagnostics (`printf`, `fprintf`, `ntp_error_strings`, `print_usage`, `ctime`, `sprintf`) are
  output only and are not modelled.
- Command-line parsing is not modelled except the sample-count bound 1..5 (ntpc_all.c:388),
  which is the precondition of the sampling and fallback methods. The argument-count check of
  ntpc.exe.c (lines 64-68) is not modelled either.
- `closesocket` and `WSACleanup` in ntpc.exe.c are not tracked. Release on every path is
  proved for `query_ntp_server` only.
- `size_t` is taken as 64 bits in the length check of ntpc.exe.c.
- `time_t` is taken as 64 bits in `ntp_time_to_system_time` (ntpc.exe.c:47). With a 32-bit
  `time_t`, seconds fields below 61505152 (before 1901-12-13) would give a different tick
  count from the one `WindowsTime.WinTicks` states.
- Validator.ValidateResponse: the exchange, sampling and fallback modules use the corrected
  origin check `OriginWithinTolerance`, not the check as written at ntpc_all.c:185-186. The
  two differ only on an echo exactly 2^31 seconds from the sent seconds, which the code as
  written accepts on a non-optimised two's-complement build and the model refuses (see the
  first row of "## Findings" and `Validator.OriginChecksAgree`).
- The world must script enough answers for every host that may be tried (`Provisioned`). This
  is an artefact of supplying outcomes in advance, not a requirement of the program.
- Exchange.Receive: for a reply shorter than 48 octets, it does not state which octets of the
  packet were overwritten, because the exchange refuses such replies without reading the
  packet.
- Sampling.SyncMultiSample: the contents of the local `results` array are not stated. Only the
  count and the sums taken from it reach the result.
- Era rollover is modelled exactly rather than excluded. Seconds fields before 1970 make the
  64-bit unsigned subtractions wrap, and the lemmas prove which value results.

## Findings

| source | as written | input that shows it | evidently intended | confidence | as-written member | corrected member |
|---|---|---|---|---|---|---|
| ntpc_all.c:185-186 | `abs((int)resp_orig_sec - (int)sent_sec) > 1` subtracts in 32-bit signed arithmetic. Two behaviours are undefined in C here: the signed overflow of the subtraction and abs(INT_MIN). On the usual two's-complement wrap a difference of 2^31 becomes INT_MIN, and abs(INT_MIN) stays negative, so the reply passes; an optimising compiler may instead assume neither happens and refuse the echo | echoed origin seconds 1752516352 with sent seconds 3900000000 (2^31 apart, about 68 years) is accepted | refuse every echo more than one second from the sent seconds, modulo 2^32 | not executed | Validator.HalfEraEchoAccepted | Validator.OriginToleranceExact |
| ntpc.exe.c:122-123 | `bytes_received < sizeof(ntp_packet)` converts the int count to size_t, so -1 becomes 2^64 - 1 and passes | recv returns SOCKET_ERROR (-1, a timeout or error); the uninitialised buffer is decoded, the clock is set from it, and the program exits with 0 | a failed or short recv exits with 1 before the buffer is read | not executed | LegacyClient.RecvFailureSetsClockAsWritten | LegacyClient.LegacyMainOutcome |
