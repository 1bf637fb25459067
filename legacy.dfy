/**
 * main of the single-shot Windows client: one fixed request to one host, a length check on
 * what recv returned, the transmit timestamp read at octets 40 and 44 of the receive buffer,
 * and its FILETIME handed to the clock. Winsock calls are supplied as outcomes.
 */
module LegacyClient {
  import opened Bytes
  import opened Wrappers
  import opened Packet
  import opened Timestamp
  import opened WindowsTime

  /** SOCKET_ERROR, what recv returns when it fails or times out. */
  const SocketError: int := -1

  /** The request: a zeroed packet whose first octet is 0x1B, sent whole; no transmit time is set. */
  function LegacyRequest(): (b: seq<byte>)
    ensures |b| == PacketSize && b[0] == ClientFirstByte
    ensures forall i :: 1 <= i < PacketSize ==> b[i] == 0
  {
    var b := RequestDatagram(0, 0);
    assert forall i :: 40 <= i < 44 ==> b[i] == b[40..44][i - 40];
    assert forall i :: 44 <= i < 48 ==> b[i] == b[44..48][i - 44];
    b
  }

  /** The legacy request is the other client's request with a zero transmit timestamp. */
  lemma LegacyRequestDecodes()
    ensures Decode(LegacyRequest()) == ClientRequest(0, 0)
  {
    DecodeSerialize(ClientRequest(0, 0));
  }

  /**
   * The length check as written: the int count is compared with a size_t, so it is first
   * converted to the unsigned type (64 bits here) and a negative count becomes huge.
   */
  function ShortReplyAsWritten(bytesReceived: int): bool
    requires -TwoTo31 <= bytesReceived < TwoTo31
  {
    bytesReceived % TwoTo64 < PacketSize
  }

  /** The length check as intended: fewer than 48 octets, or none at all, is a failure. */
  function ShortReply(bytesReceived: int): bool
  {
    bytesReceived < PacketSize
  }

  /** As written, only the counts 0..47 are refused; every negative count passes. */
  lemma ShortReplyAsWrittenExact(bytesReceived: int)
    requires -TwoTo31 <= bytesReceived < TwoTo31
    ensures ShortReplyAsWritten(bytesReceived) <==> 0 <= bytesReceived < PacketSize
  {
    if bytesReceived < 0 {
      assert bytesReceived % TwoTo64 == bytesReceived + TwoTo64;
    }
  }

  /** The two checks agree on every count recv can return except SOCKET_ERROR. */
  lemma ShortReplyChecksAgree(bytesReceived: int)
    requires 0 <= bytesReceived < TwoTo31
    ensures ShortReplyAsWritten(bytesReceived) == ShortReply(bytesReceived)
  {
  }

  /** A failed recv passes the check as written and fails the intended one. */
  lemma RecvFailurePassesAsWritten()
    ensures !ShortReplyAsWritten(SocketError) && ShortReply(SocketError)
  {
    ShortReplyAsWrittenExact(SocketError);
  }

  /**
   * The transmit seconds and fraction: the words at octets 40 and 44 of the buffer, each
   * put into host order by ntohl, that is read big-endian.
   */
  function TransmitWords(buffer: seq<byte>): (t: (u32, u32))
    requires |buffer| == PacketSize
    ensures t == (Decode(buffer).transSec, Decode(buffer).transFrac)
  {
    DecodeWord(buffer, TransSecWord);
    DecodeWord(buffer, TransFracWord);
    (ReadBE32(buffer, 40), ReadBE32(buffer, 44))
  }

  /**
   * How the world answers one run: WSAStartup, socket, gethostbyname and sendto succeed or
   * fail, recv returns a count (-1 for an error or a timeout) and leaves the buffer holding
   * `buffer` (octets it did not write are whatever the stack held), and SetSystemTime
   * succeeds or fails.
   */
  datatype LegacyScript = LegacyScript(
    startup: bool,
    socketOpens: bool,
    resolves: bool,
    sendSucceeds: bool,
    received: int,
    buffer: seq<byte>,
    clockSetSucceeds: bool)

  predicate LegacyWellFormed(s: LegacyScript)
  {
    |s.buffer| == PacketSize && SocketError <= s.received <= PacketSize
  }

  /** The exit code, the datagrams sent, and the FILETIME handed to the clock, if any. */
  datatype LegacyRun = LegacyRun(exitCode: int, sent: seq<seq<byte>>, clockRequest: Option<FileTime>)

  /** The part of main after the length check has passed: read, convert and set the clock. */
  function SetClockFrom(s: LegacyScript): (r: LegacyRun)
    requires LegacyWellFormed(s)
  {
    var (sec, frac) := TransmitWords(s.buffer);
    LegacyRun(if s.clockSetSucceeds then 0 else 1, [LegacyRequest()], Some(ToFileTime(sec, frac)))
  }

  /** main as written, with the unsigned length check. */
  function LegacyMainAsWritten(s: LegacyScript): LegacyRun
    requires LegacyWellFormed(s)
  {
    if !s.startup || !s.socketOpens || !s.resolves || !s.sendSucceeds then LegacyRun(1, [], None)
    else if ShortReplyAsWritten(s.received) then LegacyRun(1, [LegacyRequest()], None)
    else SetClockFrom(s)
  }

  /** main with the intended length check. */
  function LegacyMain(s: LegacyScript): LegacyRun
    requires LegacyWellFormed(s)
  {
    if !s.startup || !s.socketOpens || !s.resolves || !s.sendSucceeds then LegacyRun(1, [], None)
    else if ShortReply(s.received) then LegacyRun(1, [LegacyRequest()], None)
    else SetClockFrom(s)
  }

  /**
   * The run exits with 0 exactly when every call succeeded and a whole reply arrived; the
   * clock is only ever asked for the FILETIME of the reply's transmit timestamp.
   */
  lemma LegacyMainOutcome(s: LegacyScript)
    requires LegacyWellFormed(s)
    ensures var r := LegacyMain(s);
            && (r.exitCode == 0 <==>
                  (s.startup && s.socketOpens && s.resolves && s.sendSucceeds
                   && s.received == PacketSize && s.clockSetSucceeds))
            && (r.clockRequest.Some? <==>
                  (s.startup && s.socketOpens && s.resolves && s.sendSucceeds && s.received == PacketSize))
            && (r.clockRequest.Some? ==>
                  Join(r.clockRequest.value) == WinTicks(Decode(s.buffer).transSec, Decode(s.buffer).transFrac))
            && (r.sent == [] || r.sent == [LegacyRequest()])
  {
  }

  /** Whenever recv returned a count, the code as written does what was intended. */
  lemma LegacyChecksAgree(s: LegacyScript)
    requires LegacyWellFormed(s) && s.received != SocketError
    ensures LegacyMainAsWritten(s) == LegacyMain(s)
  {
    ShortReplyChecksAgree(s.received);
  }

  /**
   * A recv that failed or timed out still leads, as written, to a clock set from the
   * untouched buffer and to exit code 0; the intended check exits with 1 and leaves the
   * clock alone.
   */
  lemma RecvFailureSetsClockAsWritten(s: LegacyScript)
    requires LegacyWellFormed(s) && s.startup && s.socketOpens && s.resolves && s.sendSucceeds
    requires s.received == SocketError && s.clockSetSucceeds
    ensures LegacyMainAsWritten(s).exitCode == 0 && LegacyMainAsWritten(s).clockRequest.Some?
    ensures LegacyMain(s) == LegacyRun(1, [LegacyRequest()], None)
  {
    RecvFailurePassesAsWritten();
  }
}
