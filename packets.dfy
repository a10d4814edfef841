// The packet record shared by both roles, its additive checksum, and the
// calls a handler makes into the network emulator.

module Packets {

  const PAYLOAD_SIZE := 20

  /** A C `char`, taken to be signed. */
  type Byte = b: int | -128 <= b < 128

  /** The fixed 20-byte payload of a packet (and the data of an application message). */
  type Payload = s: seq<Byte> | |s| == PAYLOAD_SIZE witness seq(PAYLOAD_SIZE, _ => 0)

  /** n zero bytes. */
  function Zeros(n: nat): (r: seq<Byte>)
    ensures |r| == n
  {
    if n == 0 then [] else [0] + Zeros(n - 1)
  }

  const ZERO_PAYLOAD: Payload := Zeros(PAYLOAD_SIZE)

  datatype Packet = Packet(seqnum: int, acknum: int, checksum: int, payload: Payload)

  /** A packet of static storage before anything is written to it. */
  const ZERO_PACKET := Packet(0, 0, 0, ZERO_PAYLOAD)

  /**
   * A call into the emulator: tolayer3 (Send), starttimer, stoptimer and
   * tolayer5 (Deliver), recorded in the order a handler makes them.
   */
  datatype Event = Send(pkt: Packet) | StartTimer | StopTimer | Deliver(data: Payload)

  /** The sum of the payload bytes; it never leaves the range 20 signed bytes can reach. */
  function Sum(s: seq<Byte>): (r: int)
    ensures -128 * |s| <= r <= 127 * |s|
  {
    if s == [] then 0 else s[0] + Sum(s[1..])
  }

  /**
   * compute_checksum: the header fields plus every payload byte. The payload
   * moves the result at most 20 signed bytes away from seqnum + acknum.
   */
  function ComputeChecksum(p: Packet): (r: int)
    ensures p.seqnum + p.acknum - 128 * PAYLOAD_SIZE <= r <= p.seqnum + p.acknum + 127 * PAYLOAD_SIZE
  {
    p.seqnum + p.acknum + Sum(p.payload)
  }

  /**
   * is_corrupted: the stored checksum disagrees with the recomputed one. So
   * a packet whose checksum lies further from seqnum + acknum than 20 signed
   * bytes can reach is always corrupted.
   */
  function IsCorrupted(p: Packet): (r: bool)
    ensures !r ==> p.seqnum + p.acknum - 128 * PAYLOAD_SIZE <= p.checksum <= p.seqnum + p.acknum + 127 * PAYLOAD_SIZE
  {
    p.checksum != ComputeChecksum(p)
  }

  /** The checksum field is not an input of compute_checksum: the recomputed value ignores it. */
  lemma ChecksumIgnoresChecksumField(p: Packet, c: int)
    ensures ComputeChecksum(p.(checksum := c)) == ComputeChecksum(p)
  {
  }

  /** `packet.checksum = compute_checksum(packet)`: only the checksum field changes and the result passes the check. */
  function Stamp(p: Packet): (r: Packet)
    ensures !IsCorrupted(r)
    ensures r.seqnum == p.seqnum && r.acknum == p.acknum && r.payload == p.payload
  {
    p.(checksum := ComputeChecksum(p))
  }

  /** The data packet A_output builds for sequence number `sn`: acknum 0, the message as payload, a valid checksum. */
  function DataPacket(sn: int, message: Payload): (r: Packet)
    ensures r.seqnum == sn && r.acknum == 0 && r.payload == message
    ensures !IsCorrupted(r)
    ensures r.checksum == sn + Sum(message)
  {
    Stamp(Packet(sn, 0, 0, message))
  }

  /** The acknowledgement B_input sends for `sn`: seqnum 0, acknum sn, zero payload, a valid checksum equal to sn. */
  function AckPacket(sn: int): (r: Packet)
    ensures r.seqnum == 0 && r.acknum == sn && r.payload == ZERO_PAYLOAD
    ensures !IsCorrupted(r)
    ensures r.checksum == sn
  {
    ZeroSum(PAYLOAD_SIZE);
    Stamp(Packet(0, sn, 0, ZERO_PAYLOAD))
  }

  lemma {:induction false} ZeroSum(n: nat)
    ensures Sum(Zeros(n)) == 0
  {
    if n > 0 {
      assert Zeros(n)[1..] == Zeros(n - 1);
      ZeroSum(n - 1);
    }
  }

  /** Replacing one byte changes the sum by exactly the difference. */
  lemma {:induction false} SumUpdate(s: seq<Byte>, i: int, b: Byte)
    requires 0 <= i < |s|
    ensures Sum(s[i := b]) == Sum(s) - s[i] + b
  {
    if i == 0 {
      assert s[i := b][1..] == s[1..];
    } else {
      assert s[i := b][1..] == s[1..][i - 1 := b];
      SumUpdate(s[1..], i - 1, b);
    }
  }

  /** A packet that passed the check fails it once any single payload byte is changed. */
  lemma ChecksumDetectsByteChange(p: Packet, i: int, b: Byte)
    requires !IsCorrupted(p) && 0 <= i < PAYLOAD_SIZE && b != p.payload[i]
    ensures IsCorrupted(p.(payload := p.payload[i := b]))
  {
    SumUpdate(p.payload, i, b);
  }

  /**
   * Being a plain sum, the checksum cannot see two byte changes that cancel:
   * raising one byte by 1 and lowering another by 1 yields a different packet
   * that still passes the check.
   */
  lemma OffsettingChangesUndetected(p: Packet, i: int, j: int)
    requires !IsCorrupted(p) && 0 <= i < PAYLOAD_SIZE && 0 <= j < PAYLOAD_SIZE && i != j
    requires p.payload[i] < 127 && p.payload[j] > -128
    ensures var q := p.(payload := p.payload[i := p.payload[i] + 1][j := p.payload[j] - 1]);
            q != p && !IsCorrupted(q)
  {
    var s1 := p.payload[i := p.payload[i] + 1];
    SumUpdate(p.payload, i, p.payload[i] + 1);
    SumUpdate(s1, j, p.payload[j] - 1);
    assert s1[j := p.payload[j] - 1][i] != p.payload[i];
  }
}
