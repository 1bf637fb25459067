/**
 * What the client sees of the operating system and the network, as values. The outcome of
 * every socket call of one exchange and of every clock-set call is supplied in advance, in
 * the order the calls are made; what the client does to the outside (names looked up,
 * datagrams sent, values written to the system clock, sockets and address lists held) is
 * recorded in the same value.
 */
module Platform {
  import opened Bytes
  import opened Wrappers
  import Packet

  /** ntp_error_t, in the order of its enumerators. */
  datatype NtpError =
    | Success
    | DnsFailed
    | SocketCreate
    | SendFailed
    | RecvTimeout
    | InvalidResponse
    | InvalidStratum
    | SetTimeFailed
    | PermissionDenied
    | InvalidHostname

  /** ntp_result: corrected time and delay in seconds (idealised as `real`) and the outcome. */
  datatype NtpResult = NtpResult(correctedTime: real, delay: real, error: NtpError)

  function Failed(e: NtpError): NtpResult
  {
    NtpResult(0.0, 0.0, e)
  }

  /** The outcomes set_system_time_platform can report. */
  type SetTimeError = e: NtpError | e.Success? || e.PermissionDenied? || e.SetTimeFailed?
    witness Success

  /**
   * How the world answers one exchange: whether getaddrinfo, socket and sendto succeed,
   * the octets recv places in the packet (None when it fails or times out), and the two
   * readings of the local wall clock taken before sending (T1) and after receiving (T4).
   */
  datatype ExchangeScript = ExchangeScript(
    resolves: bool,
    socketOpens: bool,
    sendSucceeds: bool,
    reply: Option<seq<byte>>,
    t1: real,
    t4: real)

  /** recv never writes past the 48-byte packet, and the clock reading fits the uint32 cast. */
  predicate WellFormed(s: ExchangeScript)
  {
    (s.reply.Some? ==> |s.reply.value| <= Packet.PacketSize)
    && 0.0 <= s.t1 < TwoTo32 as real
  }

  /** The answers the world can give. */
  type Script = s: ExchangeScript | WellFormed(s)
    witness ExchangeScript(false, false, false, None, 0.0, 0.0)

  datatype World = World(
    exchanges: seq<Script>,          // answers to the exchanges still to come
    clockSets: seq<SetTimeError>,    // outcomes of the clock-set calls still to come
    lookups: seq<string>,            // host names passed to the resolver
    sent: seq<seq<byte>>,            // datagrams handed to the network
    clockWrites: seq<real>,          // values written to the system clock
    openSockets: nat,
    liveAddrInfos: nat)

  /** Enough answers for `hosts` hosts sampled `samples` times each. */
  predicate Provisioned(w: World, hosts: nat, samples: nat)
  {
    |w.exchanges| >= hosts * samples && |w.clockSets| >= hosts
  }

  /**
   * set_system_time_platform, treated as an opaque call: it reports the next outcome, and
   * only a successful call writes the clock.
   */
  function SetTimePlatform(w: World, t: real): (r: (SetTimeError, World))
    requires |w.clockSets| > 0
    ensures r.1.clockSets == w.clockSets[1..]
    ensures r.0 == Success ==> r.1.clockWrites == w.clockWrites + [t]
    ensures r.0 != Success ==> r.1.clockWrites == w.clockWrites
    ensures r.1.exchanges == w.exchanges && r.1.lookups == w.lookups && r.1.sent == w.sent
    ensures r.1.openSockets == w.openSockets && r.1.liveAddrInfos == w.liveAddrInfos
  {
    var outcome := w.clockSets[0];
    (outcome, w.(clockSets := w.clockSets[1..],
                 clockWrites := if outcome == Success then w.clockWrites + [t] else w.clockWrites))
  }
}
