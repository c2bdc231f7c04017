/**
 ICMP requests and replies byte by byte: where each field lies, in which order its bytes
 come, and exactly which packets parse to which reply.
 */
module IcmpWire {
  import opened Arith
  import opened Icmp
  import opened Wrappers

  // ----- integers on the wire, high byte first

  function Two(bytes: seq<byte>, at: nat): int
    requires at + 2 <= |bytes|
  {
    var high: int := bytes[at];
    high * 0x100 + bytes[at + 1]
  }

  function Four(bytes: seq<byte>, at: nat): int
    requires at + 4 <= |bytes|
  {
    Two(bytes, at) * 0x1_0000 + Two(bytes, at + 2)
  }

  function Eight(bytes: seq<byte>, at: nat): int
    requires at + 8 <= |bytes|
  {
    Four(bytes, at) * 0x1_0000_0000 + Four(bytes, at + 4)
  }

  /** The integer of some bytes, those before and those after. */
  lemma {:induction false} IntegerJoins(front: seq<byte>, back: seq<byte>)
    ensures Integer(front + back) == Integer(front) * Power256(|back|) + Integer(back)
  {
    if back == [] {
      assert front + back == front;
    } else {
      var last := back[|back| - 1];
      IntegerJoins(front, back[..|back| - 1]);
      assert (front + back)[..|front + back| - 1] == front + back[..|back| - 1];
      PowerShifts(Integer(front), Power256(|back| - 1), Integer(back[..|back| - 1]), last);
    }
  }

  lemma PowerShifts(a: int, power: int, b: int, last: int)
    ensures (a * power + b) * 256 + last == a * (256 * power) + (b * 256 + last)
  {}

  lemma TwoIs(bytes: seq<byte>, at: nat)
    requires at + 2 <= |bytes|
    ensures Integer(bytes[at..at + 2]) == Two(bytes, at)
  {
    var run := bytes[at..at + 2];
    assert run == [bytes[at]] + [bytes[at + 1]];
    IntegerJoins([bytes[at]], [bytes[at + 1]]);
    OneIs(bytes[at]);
    OneIs(bytes[at + 1]);
    assert Power256(1) == 256 * Power256(0);
  }

  lemma OneIs(b: byte)
    ensures Integer([b]) == b
  {
    assert [b][..0] == [];
  }

  lemma FourIs(bytes: seq<byte>, at: nat)
    requires at + 4 <= |bytes|
    ensures Integer(bytes[at..at + 4]) == Four(bytes, at)
  {
    TwoIs(bytes, at);
    TwoIs(bytes, at + 2);
    assert bytes[at..at + 4] == bytes[at..at + 2] + bytes[at + 2..at + 4];
    IntegerJoins(bytes[at..at + 2], bytes[at + 2..at + 4]);
    Widths();
  }

  lemma EightIs(bytes: seq<byte>, at: nat)
    requires at + 8 <= |bytes|
    ensures Integer(bytes[at..at + 8]) == Eight(bytes, at)
  {
    FourIs(bytes, at);
    FourIs(bytes, at + 4);
    assert bytes[at..at + 8] == bytes[at..at + 4] + bytes[at + 4..at + 8];
    IntegerJoins(bytes[at..at + 4], bytes[at + 4..at + 8]);
    Widths();
  }

  // ----- requests

  /** The type of RFC 792's echo and timestamp requests, and of RFC 4443's echo request. */
  function RequestCode(family: Family, mode: Mode): int
  {
    if mode.Timestamp? then 13 else if family.Inet? then 8 else 128
  }

  /**
   A request on the wire: type, code 0, identifier and sequence, then for a timestamp the
   originate time and eight zero bytes, for an echo token and serial and zeros up to 64 bytes.
   */
  lemma RequestOnWire(family: Family, mode: Mode, identifier: u16, sequence: u16, token: u64, serial: u64,
                      originateMs: u32)
    ensures var p := Built(family, mode, identifier, sequence, token, serial, originateMs);
      && |p| == (if mode.Timestamp? then 20 else 64)
      && p[0] == RequestCode(family, mode) && p[1] == 0
      && Two(p, 4) == identifier && Two(p, 6) == sequence
      && (mode.Timestamp? ==> Four(p, 8) == originateMs && Eight(p, 12) == 0)
      && (mode.Echo? ==> Eight(p, 8) == token && Eight(p, 16) == serial && forall i :: 24 <= i < 64 ==> p[i] == 0)
      && (family.Inet6? ==> p[2] == p[3] == 0)
  {
    var p := Built(family, mode, identifier, sequence, token, serial, originateMs);
    RequestFields(family, mode, identifier, sequence, token, serial, originateMs);
    TwoHolds(p, 4, identifier);
    TwoHolds(p, 6, sequence);
    if mode.Timestamp? {
      FourHolds(p, 8, originateMs);
    } else {
      EightHolds(p, 8, token);
      EightHolds(p, 16, serial);
    }
  }

  lemma TwoHolds(bytes: seq<byte>, at: nat, value: u16)
    requires at + 2 <= |bytes| && bytes[at..at + 2] == Bytes(value, 2)
    ensures Two(bytes, at) == value
  {
    Widths();
    IntegerRoundTrip(value, 2);
    TwoIs(bytes, at);
  }

  lemma FourHolds(bytes: seq<byte>, at: nat, value: u32)
    requires at + 4 <= |bytes| && bytes[at..at + 4] == Bytes(value, 4)
    ensures Four(bytes, at) == value
  {
    Widths();
    IntegerRoundTrip(value, 4);
    FourIs(bytes, at);
  }

  lemma EightHolds(bytes: seq<byte>, at: nat, value: u64)
    requires at + 8 <= |bytes| && bytes[at..at + 8] == Bytes(value, 8)
    ensures Eight(bytes, at) == value
  {
    Widths();
    IntegerRoundTrip(value, 8);
    EightIs(bytes, at);
  }

  // ----- replies

  /**
   A message that is the reply to a request of this identifier: its type, code 0, long
   enough, over IPv4 with a checksum that verifies; and the fields it carries.
   */
  ghost predicate IsReply(message: seq<byte>, family: Family, mode: Mode, identifier: u16, reply: Reply)
  {
    && |message| >= (if mode.Timestamp? then 20 else 24)
    && message[0] == (if mode.Timestamp? then 14 else if family.Inet? then 0 else 129) && message[1] == 0
    && Two(message, 4) == identifier && reply.sequence == Two(message, 6)
    && (family.Inet? ==> Checksum(message) == 0)
    && (mode.Timestamp? ==>
          && reply.originateMs == Four(message, 8) && reply.receiveMs == Four(message, 12)
          && reply.transmitMs == Four(message, 16) && reply.token == reply.serial == 0)
    && (mode.Echo? ==>
          && reply.token == Eight(message, 8) && reply.serial == Eight(message, 16)
          && reply.originateMs == reply.receiveMs == reply.transmitMs == 0)
  }

  /** An IPv4 header of this length, of an ICMP packet that is whole and of just this size. */
  ghost predicate IsHeader(packet: seq<byte>, length: nat)
  {
    && 20 <= length <= 60 && length <= |packet| && length % 4 == 0 && packet[0] == 0x40 + length / 4
    && packet[9] == 1 && Two(packet, 2) == |packet| && Two(packet, 6) % 0x4000 == 0
  }

  lemma MessageParses(message: seq<byte>, family: Family, mode: Mode, identifier: u16, reply: Reply)
    ensures MessageReply(message, family, mode, identifier) == Some(reply)
       <==> IsReply(message, family, mode, identifier, reply)
  {
    if |message| >= 20 {
      TwoIs(message, 4);
      TwoIs(message, 6);
      FourIs(message, 8);
      FourIs(message, 12);
      FourIs(message, 16);
    }
    if |message| >= 24 {
      EightIs(message, 8);
      EightIs(message, 16);
    }
  }

  lemma HeaderParses(packet: seq<byte>, length: nat)
    ensures HeaderBytes(packet) == Some(length) <==> IsHeader(packet, length)
  {
    if |packet| >= 20 {
      TwoIs(packet, 2);
      TwoIs(packet, 6);
    }
  }

  /**
   A packet parses to a reply if and only if, over IPv4, it is a header and a message that
   is that reply, and over IPv6, where there are no timestamps, it is such a message.
   */
  lemma ParsedIff(packet: seq<byte>, family: Family, mode: Mode, identifier: u16, reply: Reply)
    ensures Parsed(packet, family, mode, identifier) == Some(reply) <==>
      if family.Inet? then
        exists length: nat :: IsHeader(packet, length)
                              && IsReply(packet[length..], family, mode, identifier, reply)
      else mode.Echo? && IsReply(packet, family, mode, identifier, reply)
  {
    if family.Inet? {
      forall length: nat
        ensures IsHeader(packet, length) <==> HeaderBytes(packet) == Some(length)
      {
        HeaderParses(packet, length);
      }
      var header := HeaderBytes(packet);
      if header.Some? {
        assert IsHeader(packet, header.value);
        MessageParses(packet[header.value..], family, mode, identifier, reply);
      }
    } else {
      MessageParses(packet, family, mode, identifier, reply);
    }
  }
}
