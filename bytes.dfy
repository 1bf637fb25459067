/** Octets and 32-bit words in network byte order (the job of htonl/ntohl). */
module Bytes {

  type byte = x: int | 0 <= x < 0x100
  type u32 = x: int | 0 <= x < 0x1_0000_0000

  const TwoTo31: int := 0x8000_0000
  const TwoTo32: int := 0x1_0000_0000

  /** The four octets of `w`, most significant first, as htonl lays them out in memory. */
  function BE32(w: u32): (b: seq<byte>)
    ensures |b| == 4
  {
    [w / 0x100_0000, (w / 0x1_0000) % 0x100, (w / 0x100) % 0x100, w % 0x100]
  }

  /** The host-order value of the big-endian word stored at `s[off..off + 4]` (ntohl of a load). */
  function ReadBE32(s: seq<byte>, off: nat): (w: u32)
    requires off + 4 <= |s|
  {
    (s[off] as int) * 0x100_0000 + (s[off + 1] as int) * 0x1_0000 + (s[off + 2] as int) * 0x100 + s[off + 3]
  }

  /** Reading back a written word gives the word: ntohl(htonl(w)) == w. */
  lemma ReadWrittenWord(s: seq<byte>, off: nat, w: u32)
    requires off + 4 <= |s| && s[off..off + 4] == BE32(w)
    ensures ReadBE32(s, off) == w
  {
    assert s[off] == BE32(w)[0] && s[off + 1] == BE32(w)[1];
    assert s[off + 2] == BE32(w)[2] && s[off + 3] == BE32(w)[3];
    var q1 := w / 0x100;
    var q2 := q1 / 0x100;
    assert w == q1 * 0x100 + w % 0x100;
    assert q1 == q2 * 0x100 + q1 % 0x100;
    assert q2 == (q2 / 0x100) * 0x100 + q2 % 0x100;
    assert q2 == w / 0x1_0000;
    assert q2 / 0x100 == w / 0x100_0000;
  }

  /** Writing back a read word gives the same four octets: htonl(ntohl(x)) == x. */
  lemma WriteReadWord(s: seq<byte>, off: nat)
    requires off + 4 <= |s|
    ensures BE32(ReadBE32(s, off)) == s[off..off + 4]
  {
    var a: int, b: int, c: int, d: int := s[off], s[off + 1], s[off + 2], s[off + 3];
    var w := ReadBE32(s, off);
    assert w == ((a * 0x100 + b) * 0x100 + c) * 0x100 + d;
    var q1 := (a * 0x100 + b) * 0x100 + c;
    assert w / 0x100 == q1 && w % 0x100 == d;
    assert q1 / 0x100 == a * 0x100 + b && q1 % 0x100 == c;
    assert (a * 0x100 + b) / 0x100 == a && (a * 0x100 + b) % 0x100 == b;
    assert w / 0x1_0000 == q1 / 0x100;
    assert w / 0x100_0000 == (q1 / 0x100) / 0x100;
  }
}
