/**
 * The 48-byte NTP packet (section 4 of RFC 4330, section 7.3 of RFC 5905) as the packed
 * `ntp_packet` struct lays it out: four single-octet fields followed by eleven 32-bit words
 * in network byte order, with no padding.
 */
module Packet {
  import opened Bytes

  const PacketSize: nat := 48
  const HeaderSize: nat := 4
  const WordCount: nat := 11

  /** Byte 0 of a client request: LI = 0, VN = 3, Mode = 3. */
  const ClientFirstByte: byte := 0x1B

  /** The struct's fields, holding host-order values (what ntohl of each member gives). */
  datatype NtpPacket = NtpPacket(
    liVnMode: byte,
    stratum: byte,
    poll: byte,
    precision: byte,
    rootDelay: u32,
    rootDispersion: u32,
    referenceId: u32,
    refSec: u32,
    refFrac: u32,
    origSec: u32,
    origFrac: u32,
    recvSec: u32,
    recvFrac: u32,
    transSec: u32,
    transFrac: u32)

  /** The `k`-th 32-bit member in declaration order (root_delay is 0, trans_ts_frac is 10). */
  function Word(p: NtpPacket, k: nat): u32
    requires k < WordCount
  {
    match k
    case 0 => p.rootDelay
    case 1 => p.rootDispersion
    case 2 => p.referenceId
    case 3 => p.refSec
    case 4 => p.refFrac
    case 5 => p.origSec
    case 6 => p.origFrac
    case 7 => p.recvSec
    case 8 => p.recvFrac
    case 9 => p.transSec
    case _ => p.transFrac
  }

  /** Byte offset of the `k`-th 32-bit member in the packed struct. */
  function WordOffset(k: nat): (off: nat)
    requires k < WordCount
    ensures HeaderSize <= off && off + 4 <= PacketSize
  {
    HeaderSize + 4 * k
  }

  const OrigSecWord: nat := 5
  const RecvSecWord: nat := 7
  const TransSecWord: nat := 9
  const TransFracWord: nat := 10

  function HeaderByte(p: NtpPacket, i: nat): byte
    requires i < HeaderSize
  {
    if i == 0 then p.liVnMode else if i == 1 then p.stratum else if i == 2 then p.poll else p.precision
  }

  /** The octets of the struct in memory, each word stored big-endian (after htonl). */
  function Serialize(p: NtpPacket): (b: seq<byte>)
    ensures |b| == PacketSize
  {
    seq(PacketSize, i requires 0 <= i < PacketSize =>
      if i < HeaderSize then HeaderByte(p, i)
      else BE32(Word(p, (i - HeaderSize) / 4))[(i - HeaderSize) % 4])
  }

  /** Reads the struct's members from the first 48 octets of a buffer; the caller has checked the length. */
  function Decode(b: seq<byte>): (p: NtpPacket)
    requires |b| >= PacketSize
  {
    NtpPacket(b[0], b[1], b[2], b[3],
              ReadBE32(b, 4), ReadBE32(b, 8), ReadBE32(b, 12),
              ReadBE32(b, 16), ReadBE32(b, 20), ReadBE32(b, 24), ReadBE32(b, 28),
              ReadBE32(b, 32), ReadBE32(b, 36), ReadBE32(b, 40), ReadBE32(b, 44))
  }

  /** Each member is read at its packed offset. */
  lemma DecodeWord(b: seq<byte>, k: nat)
    requires |b| >= PacketSize && k < WordCount
    ensures Word(Decode(b), k) == ReadBE32(b, WordOffset(k))
  {
  }

  /** The serialized word `k` sits at its packed offset. */
  lemma {:induction false} SerializedWord(p: NtpPacket, k: nat)
    requires k < WordCount
    ensures Serialize(p)[WordOffset(k)..WordOffset(k) + 4] == BE32(Word(p, k))
  {
    var b := Serialize(p);
    var off := WordOffset(k);
    forall j | 0 <= j < 4
      ensures b[off..off + 4][j] == BE32(Word(p, k))[j]
    {
      assert (off + j - HeaderSize) / 4 == k && (off + j - HeaderSize) % 4 == j;
    }
  }

  lemma WordRoundTrip(p: NtpPacket, k: nat)
    requires k < WordCount
    ensures Word(Decode(Serialize(p)), k) == Word(p, k)
  {
    var b := Serialize(p);
    SerializedWord(p, k);
    ReadWrittenWord(b, WordOffset(k), Word(p, k));
    DecodeWord(b, k);
  }

  /** Decoding what was serialized gives back every member. */
  lemma {:induction false} DecodeSerialize(p: NtpPacket)
    ensures Decode(Serialize(p)) == p
  {
    WordRoundTrip(p, 0);
    WordRoundTrip(p, 1);
    WordRoundTrip(p, 2);
    WordRoundTrip(p, 3);
    WordRoundTrip(p, 4);
    WordRoundTrip(p, 5);
    WordRoundTrip(p, 6);
    WordRoundTrip(p, 7);
    WordRoundTrip(p, 8);
    WordRoundTrip(p, 9);
    WordRoundTrip(p, 10);
  }

  /** Serializing a decoded 48-octet buffer gives back the buffer: the layout loses nothing. */
  lemma {:induction false} SerializeDecode(b: seq<byte>)
    requires |b| == PacketSize
    ensures Serialize(Decode(b)) == b
  {
    var p := Decode(b);
    forall i | 0 <= i < PacketSize
      ensures Serialize(p)[i] == b[i]
    {
      if i >= HeaderSize {
        var k, j := (i - HeaderSize) / 4, (i - HeaderSize) % 4;
        assert i == WordOffset(k) + j;
        DecodeWord(b, k);
        WriteReadWord(b, WordOffset(k));
        assert BE32(Word(p, k))[j] == b[WordOffset(k)..WordOffset(k) + 4][j];
      }
    }
  }

  /** Mode, version and leap indicator packed into byte 0. */
  function Mode(b: byte): (m: nat)
    ensures m < 8
  {
    b % 8
  }

  function Version(b: byte): nat
  {
    (b / 8) % 8
  }

  function Leap(b: byte): nat
  {
    b / 64
  }

  /** The client request: all members zero except byte 0 and the transmit timestamp pair. */
  function ClientRequest(transSec: u32, transFrac: u32): NtpPacket
  {
    NtpPacket(ClientFirstByte, 0, 0, 0, 0, 0, 0, 0, 0, 0, 0, 0, 0, transSec, transFrac)
  }

  /** The datagram a client sends, octet by octet. */
  function RequestDatagram(transSec: u32, transFrac: u32): (b: seq<byte>)
    ensures |b| == PacketSize && b[0] == ClientFirstByte
    ensures forall i :: 1 <= i < 40 ==> b[i] == 0
    ensures b[40..44] == BE32(transSec) && b[44..48] == BE32(transFrac)
  {
    var p := ClientRequest(transSec, transFrac);
    var b := Serialize(p);
    SerializedWord(p, TransSecWord);
    SerializedWord(p, TransFracWord);
    assert WordOffset(TransSecWord) == 40 && WordOffset(TransFracWord) == 44;
    forall i | 1 <= i < 40
      ensures b[i] == 0
    {
      if i >= HeaderSize {
        var k := (i - HeaderSize) / 4;
        assert k < TransSecWord && Word(p, k) == 0;
        assert b[i] == BE32(0)[(i - HeaderSize) % 4];
      }
    }
    b
  }

  /** A request announces leap indicator 0, version 3 and the client mode 3. */
  lemma RequestHeader(transSec: u32, transFrac: u32)
    ensures var b := RequestDatagram(transSec, transFrac);
            var first := Decode(b).liVnMode;
            Leap(first) == 0 && Version(first) == 3 && Mode(first) == 3
  {
    var b := RequestDatagram(transSec, transFrac);
    FirstOctet(b);
    ClientByteFields(Decode(b).liVnMode);
  }

  lemma ClientByteFields(first: byte)
    requires first == ClientFirstByte
    ensures Leap(first) == 0 && Version(first) == 3 && Mode(first) == 3
  {
  }

  lemma FirstOctet(b: seq<byte>)
    requires |b| >= PacketSize
    ensures Decode(b).liVnMode == b[0]
  {
  }
}
