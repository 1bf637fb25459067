/**
 * query_ntp_server: one request/response exchange with one host. The packet is a 48-octet
 * buffer that the request is written into and that recv overwrites in place; the error
 * moves down a ladder of steps and every exit passes through the cleanup that closes the
 * socket and frees the address list.
 */
module Exchange {
  import opened Bytes
  import opened Wrappers
  import opened Packet
  import opened Timestamp
  import opened Validator
  import opened Offset
  import opened Platform

  /** The request datagram the client sends for clock reading `t1`. */
  function RequestFor(t1: real): seq<byte>
    requires 0.0 <= t1 < TwoTo32 as real
  {
    RequestDatagram(SecondsField(t1), FractionField(t1))
  }

  /** The datagrams one exchange hands to the network: the request, once sendto has succeeded. */
  function SentBy(s: Script): seq<seq<byte>>
  {
    if s.resolves && s.socketOpens && s.sendSucceeds then [RequestFor(s.t1)] else []
  }

  /** The result of one exchange: the first failing step names the error. */
  function ExchangeOutcome(s: Script): NtpResult
  {
    if !s.resolves then Failed(DnsFailed)
    else if !s.socketOpens then Failed(SocketCreate)
    else if !s.sendSucceeds then Failed(SendFailed)
    else if s.reply.None? || |s.reply.value| < PacketSize then Failed(RecvTimeout)
    else
      var p := Decode(s.reply.value);
      if !ValidateResponse(p, SecondsField(s.t1), FractionField(s.t1)) then Failed(InvalidResponse)
      else
        var t2 := ToUnixReal(p.recvSec, p.recvFrac);
        var t3 := ToUnixReal(p.transSec, p.transFrac);
        NtpResult(CorrectedTime(s.t1, t2, t3, s.t4), RoundTripDelay(s.t1, t2, t3, s.t4), Success)
  }

  /** The world after one exchange with `hostname`: one answer used, one lookup made. */
  function AfterExchange(w: World, hostname: string): World
    requires |w.exchanges| > 0
  {
    w.(exchanges := w.exchanges[1..],
       lookups := w.lookups + [hostname],
       sent := w.sent + SentBy(w.exchanges[0]))
  }

  /** Writes byte 0 and the transmit pair into the zeroed packet (htonl on each word). */
  method FillRequest(packet: array<byte>, transSec: u32, transFrac: u32)
    requires packet.Length == PacketSize && forall i :: 0 <= i < PacketSize ==> packet[i] == 0
    modifies packet
    ensures packet[..] == RequestDatagram(transSec, transFrac)
  {
    packet[0] := ClientFirstByte;
    var secWord, fracWord := BE32(transSec), BE32(transFrac);
    packet[40], packet[41], packet[42], packet[43] := secWord[0], secWord[1], secWord[2], secWord[3];
    packet[44], packet[45], packet[46], packet[47] := fracWord[0], fracWord[1], fracWord[2], fracWord[3];
    var r := RequestDatagram(transSec, transFrac);
    forall i | 0 <= i < PacketSize ensures packet[..][i] == r[i] {
      if i >= 44 {
        assert r[i] == r[44..48][i - 44];
      } else if i >= 40 {
        assert r[i] == r[40..44][i - 40];
      }
    }
  }

  /**
   * recv into the packet: the octets that arrived overwrite its start and their count is
   * returned, or -1 when nothing arrived before the timeout.
   */
  method Receive(packet: array<byte>, reply: Option<seq<byte>>) returns (bytes: int)
    requires packet.Length == PacketSize && (reply.Some? ==> |reply.value| <= PacketSize)
    modifies packet
    ensures bytes == if reply.Some? then |reply.value| else -1
    ensures bytes == PacketSize ==> packet[..] == reply.value
  {
    if reply.Some? {
      var data := reply.value;
      forall i | 0 <= i < |data| {
        packet[i] := data[i];
      }
      bytes := |data|;
    } else {
      bytes := -1;
    }
  }

  method QueryServer(hostname: string, w: World) returns (result: NtpResult, w': World)
    requires |w.exchanges| > 0
    ensures result == ExchangeOutcome(w.exchanges[0])
    ensures w' == AfterExchange(w, hostname)
    ensures w'.openSockets == w.openSockets && w'.liveAddrInfos == w.liveAddrInfos
  {
    var s := w.exchanges[0];
    result := Failed(DnsFailed);
    var packet := new byte[PacketSize](_ => 0);
    w' := w.(exchanges := w.exchanges[1..], lookups := w.lookups + [hostname]);
    if !s.resolves {
      return;
    }
    w' := w'.(liveAddrInfos := w'.liveAddrInfos + 1);
    var socketValid := s.socketOpens;
    label cleanup: {
      if !socketValid {
        result := result.(error := SocketCreate);
        break cleanup;
      }
      w' := w'.(openSockets := w'.openSockets + 1);

      var t1Sec := SecondsField(s.t1);
      var t1Frac := FractionField(s.t1);
      FillRequest(packet, t1Sec, t1Frac);

      if !s.sendSucceeds {
        result := result.(error := SendFailed);
        break cleanup;
      }
      w' := w'.(sent := w'.sent + [packet[..]]);

      var bytes := Receive(packet, s.reply);
      if bytes < PacketSize {
        result := result.(error := RecvTimeout);
        break cleanup;
      }
      var reply := Decode(packet[..]);
      if !ValidateResponse(reply, t1Sec, t1Frac) {
        result := result.(error := InvalidResponse);
        break cleanup;
      }
      var t2 := ToUnixReal(reply.recvSec, reply.recvFrac);
      var t3 := ToUnixReal(reply.transSec, reply.transFrac);
      result := result.(delay := RoundTripDelay(s.t1, t2, t3, s.t4));
      result := result.(correctedTime := t3 + result.delay / 2.0, error := Success);
    }
    if socketValid {
      w' := w'.(openSockets := w'.openSockets - 1);
    }
    w' := w'.(liveAddrInfos := w'.liveAddrInfos - 1);
  }

  /** The first failing step decides the error; SUCCESS needs every step and the validator. */
  lemma ExchangeLadder(s: Script)
    ensures var e := ExchangeOutcome(s).error;
            && (e == DnsFailed <==> !s.resolves)
            && (e == SocketCreate <==> s.resolves && !s.socketOpens)
            && (e == SendFailed <==> s.resolves && s.socketOpens && !s.sendSucceeds)
            && (e == RecvTimeout <==> s.resolves && s.socketOpens && s.sendSucceeds
                                      && (s.reply.None? || |s.reply.value| < PacketSize))
            && (e == InvalidResponse <==> s.resolves && s.socketOpens && s.sendSucceeds
                                          && s.reply.Some? && |s.reply.value| == PacketSize
                                          && !ValidateResponse(Decode(s.reply.value), SecondsField(s.t1), FractionField(s.t1)))
            && (e == Success <==> s.resolves && s.socketOpens && s.sendSucceeds
                                  && s.reply.Some? && |s.reply.value| == PacketSize
                                  && ValidateResponse(Decode(s.reply.value), SecondsField(s.t1), FractionField(s.t1)))
            && e in {Success, DnsFailed, SocketCreate, SendFailed, RecvTimeout, InvalidResponse}
            && (e != Success ==> ExchangeOutcome(s).correctedTime == 0.0 && ExchangeOutcome(s).delay == 0.0)
  {
  }

  /** Our own request reflected back by the network is refused as an invalid response. */
  lemma ReflectedRequestRefused(s: Script)
    requires s.resolves && s.socketOpens && s.sendSucceeds
    requires s.reply == Some(RequestFor(s.t1))
    ensures ExchangeOutcome(s).error == InvalidResponse
  {
    RequestHeader(SecondsField(s.t1), FractionField(s.t1));
  }

  /**
   * A successful exchange used a server or broadcast reply with a non-zero transmit time, and
   * its corrected time is the local receive time T4 plus the clock offset.
   */
  lemma SuccessfulExchange(s: Script)
    requires ExchangeOutcome(s).error == Success
    ensures s.reply.Some? && |s.reply.value| == PacketSize
    ensures var p := Decode(s.reply.value);
            var t2 := ToUnixReal(p.recvSec, p.recvFrac);
            var t3 := ToUnixReal(p.transSec, p.transFrac);
            && Mode(p.liVnMode) in {4, 5} && p.transSec != 0
            && ExchangeOutcome(s).correctedTime == s.t4 + ClockOffset(s.t1, t2, t3, s.t4)
  {
    var p := Decode(s.reply.value);
    CorrectedIsLocalPlusOffset(s.t1, ToUnixReal(p.recvSec, p.recvFrac), ToUnixReal(p.transSec, p.transFrac), s.t4);
  }
}
