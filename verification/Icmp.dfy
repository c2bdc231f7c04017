/** ICMP echo and timestamp requests and replies: layout, checksum and parsing. */
module Icmp {
  import opened Arith
  import opened Wrappers

  datatype Family = Inet | Inet6
  datatype Mode = Echo | Timestamp

  datatype Reply = Reply(
    sequence: u16, token: u64, serial: u64, originateMs: u32, receiveMs: u32, transmitMs: u32)

  const ICMP_ECHO: byte := 8
  const ICMP_ECHOREPLY: byte := 0
  const ICMP_TIMESTAMP: byte := 13
  const ICMP_TIMESTAMPREPLY: byte := 14
  const ICMP6_ECHO_REQUEST: byte := 128
  const ICMP6_ECHO_REPLY: byte := 129
  const IPPROTO_ICMP: byte := 1
  const ECHO_REQUEST_BYTES: nat := 64
  const TIMESTAMP_REQUEST_BYTES: nat := 20
  const ECHO_REPLY_MIN_BYTES: nat := 24
  const IPV4_HEADER_MIN_BYTES: nat := 20
  const FRAGMENT_VALUES: nat := 0x4000
  /** The longest packet whose 16-bit words cannot overflow a 32-bit sum. */
  const CHECKSUM_MAX_BYTES: nat := 131_074

  function RequestLength(mode: Mode): nat
  {
    if mode.Timestamp? then TIMESTAMP_REQUEST_BYTES else ECHO_REQUEST_BYTES
  }

  function ReplyType(family: Family, mode: Mode): byte
  {
    if mode.Timestamp? then ICMP_TIMESTAMPREPLY
    else if family.Inet? then ICMP_ECHOREPLY else ICMP6_ECHO_REPLY
  }

  function RequestType(family: Family, mode: Mode): byte
  {
    if mode.Timestamp? then ICMP_TIMESTAMP
    else if family.Inet? then ICMP_ECHO else ICMP6_ECHO_REQUEST
  }

  // ----- big-endian integers

  function Power256(length: nat): nat { if length == 0 then 1 else 256 * Power256(length - 1) }

  function Bytes(value: nat, length: nat): (bytes: seq<byte>)
    ensures |bytes| == length
  {
    if length == 0 then [] else Bytes(value / 256, length - 1) + [value % 256]
  }

  function Integer(bytes: seq<byte>): nat
  {
    if bytes == [] then 0 else Integer(bytes[..|bytes| - 1]) * 256 + bytes[|bytes| - 1]
  }

  lemma {:induction false} IntegerRoundTrip(value: nat, length: nat)
    requires value < Power256(length)
    ensures Integer(Bytes(value, length)) == value
  {
    if length == 0 {
    } else {
      IntegerRoundTrip(value / 256, length - 1);
      assert Bytes(value, length)[..length - 1] == Bytes(value / 256, length - 1);
    }
  }

  lemma Widths()
    ensures Power256(2) == 0x1_0000
    ensures Power256(4) == 0x1_0000_0000
    ensures Power256(8) == 0x1_0000_0000_0000_0000
  {
    assert Power256(1) == 256;
    assert Power256(3) == 0x100_0000;
    assert Power256(5) == 0x100_0000_0000;
    assert Power256(6) == 0x1_0000_0000_0000;
    assert Power256(7) == 0x100_0000_0000_0000;
  }

  /** A run of bytes put over a longer one. */
  function Placed(bytes: seq<byte>, at: nat, run: seq<byte>): (r: seq<byte>)
    requires at + |run| <= |bytes|
    ensures |r| == |bytes|
  {
    seq(|bytes|, i requires 0 <= i < |bytes| => if at <= i < at + |run| then run[i - at] else bytes[i])
  }

  method PutInteger(bytes: array<byte>, at: nat, value: u64, length: nat)
    requires at + length <= bytes.Length
    modifies bytes
    ensures bytes[..] == Placed(old(bytes[..]), at, Bytes(value, length))
  {
    var left: int, index := value, length;
    while index > 0
      invariant 0 <= index <= length
      invariant bytes[..at] == old(bytes[..at]) && bytes[at + length..] == old(bytes[at + length..])
      invariant left >= 0 && Bytes(left, index) + bytes[at + index..at + length] == Bytes(value, length)
    {
      ghost var after := bytes[at + index..at + length];
      bytes[at + index - 1] := left % 256;
      assert bytes[at + index - 1..at + length] == [left % 256] + after;
      left := left / 256;
      index := index - 1;
    }
    PlacedIs(bytes[..], old(bytes[..]), at, Bytes(value, length));
  }

  lemma PlacedIs(now: seq<byte>, before: seq<byte>, at: nat, run: seq<byte>)
    requires |now| == |before| && at + |run| <= |now|
    requires now[..at] == before[..at] && now[at..at + |run|] == run && now[at + |run|..] == before[at + |run|..]
    ensures now == Placed(before, at, run)
  {
    forall i | 0 <= i < |now|
      ensures now[i] == Placed(before, at, run)[i]
    {
      if i < at { assert now[i] == now[..at][i]; }
      else if i < at + |run| { assert now[i] == now[at..at + |run|][i - at]; }
      else { assert now[i] == now[at + |run|..][i - at - |run|]; }
    }
  }

  method GetInteger(bytes: seq<byte>, at: nat, length: nat) returns (value: u64)
    requires at + length <= |bytes| && length <= 8
    ensures value == Integer(bytes[at..at + length])
  {
    value := 0;
    IntegerFits(bytes[at..at + length]);
    for index := 0 to length
      invariant value == Integer(bytes[at..at + index])
    {
      assert bytes[at..at + index + 1][..index] == bytes[at..at + index];
      IntegerFits(bytes[at..at + index + 1]);
      value := value * 256 + bytes[at + index];
    }
  }

  lemma {:induction false} IntegerFits(bytes: seq<byte>)
    requires |bytes| <= 8
    ensures Integer(bytes) <= U64_MAX && Integer(bytes) < Power256(|bytes|) <= Power256(8)
  {
    Widths();
    if bytes == [] {
    } else {
      IntegerFits(bytes[..|bytes| - 1]);
    }
    assert Power256(1) == 256 && Power256(3) == 0x100_0000 && Power256(5) == 0x100_0000_0000;
    assert Power256(6) == 0x1_0000_0000_0000 && Power256(7) == 0x100_0000_0000_0000;
  }

  // ----- the Internet checksum

  function Word(packet: seq<byte>, index: nat): u16
    requires index < |packet|
  {
    var high: int := packet[index];
    high * 256 + (if index + 1 < |packet| then packet[index + 1] else 0)
  }

  function WordSum(packet: seq<byte>, index: nat): nat
    decreases |packet| - index
  {
    if index >= |packet| then 0 else Word(packet, index) + WordSum(packet, index + 2)
  }

  /** Carries are folded back in until sixteen bits are left. */
  function Folded(sum: u32): u16
    decreases sum
  {
    if sum < 0x1_0000 then sum else Folded(sum % 0x1_0000 + sum / 0x1_0000)
  }

  function Checksum(packet: seq<byte>): u16
  {
    0xFFFF - Folded(WordSum(packet, 0) % 0x1_0000_0000)
  }

  method ComputeChecksum(packet: seq<byte>) returns (checksum: u16)
    ensures checksum == Checksum(packet)
  {
    var sum := SumWords(packet);
    ghost var total := sum;
    while sum >= 0x1_0000
      invariant Folded(sum) == Folded(total)
      decreases sum
    {
      sum := sum % 0x1_0000 + sum / 0x1_0000;
    }
    checksum := 0xFFFF - sum;
  }

  lemma RemainderAbsorbs(a: nat, b: nat)
    ensures (a % 0x1_0000_0000 + b) % 0x1_0000_0000 == (a + b) % 0x1_0000_0000
  {}

  /** The words' sum, wrapping as the 32-bit accumulator does. */
  method SumWords(packet: seq<byte>) returns (sum: u32)
    ensures sum == WordSum(packet, 0) % 0x1_0000_0000
  {
    sum := 0;
    var index := 0;
    while index < |packet|
      invariant (sum + WordSum(packet, index)) % 0x1_0000_0000 == WordSum(packet, 0) % 0x1_0000_0000
      decreases |packet| - index
    {
      var word: int := Word(packet, index);
      RemainderAbsorbs(sum + word, WordSum(packet, index + 2));
      sum := (sum + word) % 0x1_0000_0000;
      index := index + 2;
    }
  }

  /** Folding is reduction modulo 65535 that keeps a nonzero sum nonzero. */
  lemma {:induction false} FoldedIsResidue(sum: u32)
    ensures Folded(sum) == if sum == 0 then 0 else (sum - 1) % 0xFFFF + 1
    decreases sum
  {
    if sum < 0x1_0000 {
    } else {
      var folded: int := sum % 0x1_0000 + sum / 0x1_0000;
      FoldedIsResidue(folded);
      assert sum == folded + 0xFFFF * (sum / 0x1_0000);
      assert (sum - 1) % 0xFFFF == (folded - 1) % 0xFFFF;
    }
  }

  lemma {:induction false} WordSumBound(packet: seq<byte>, index: nat)
    requires index <= |packet| + 1
    ensures WordSum(packet, index) <= 0xFFFF * ((|packet| + 1 - index) / 2)
    decreases |packet| - index
  {
    if index >= |packet| {
    } else {
      WordSumBound(packet, index + 2);
    }
  }

  /** The packet with its checksum field, an aligned word, holding value. */
  function Stamped(packet: seq<byte>, at: nat, value: u16): (stamped: seq<byte>)
    requires at + 1 < |packet|
    ensures |stamped| == |packet|
  {
    packet[at := value / 256][at + 1 := value % 256]
  }

  lemma {:induction false} StampedSum(packet: seq<byte>, at: nat, value: u16, index: nat)
    requires at + 1 < |packet| && at % 2 == 0 && index % 2 == 0
    ensures WordSum(Stamped(packet, at, value), index)
         == WordSum(packet, index) + (if index <= at then value - Word(packet, at) else 0)
    decreases |packet| - index
  {
    if index >= |packet| {
    } else {
      StampedSum(packet, at, value, index + 2);
    }
  }

  /**
   Writing the checksum of a packet whose field was zero makes the checksum of the
   whole packet zero, for every length the 32-bit sum admits.
   */
  lemma ChecksumVerifies(packet: seq<byte>, at: nat)
    requires at + 1 < |packet| <= CHECKSUM_MAX_BYTES && at % 2 == 0
    requires packet[at] == 0 && packet[at + 1] == 0
    ensures Checksum(Stamped(packet, at, Checksum(packet))) == 0
  {
    StampedSum(packet, at, Checksum(packet), 0);
    ChecksumFromSum(packet);
    ChecksumFromSum(Stamped(packet, at, Checksum(packet)));
    ComplementFills(WordSum(packet, 0));
  }

  function Complement(sum: nat): nat { if sum == 0 then 0xFFFF else 0xFFFE - (sum - 1) % 0xFFFF }

  lemma ComplementFills(sum: nat)
    ensures Complement(sum + Complement(sum)) == 0
  {
    if sum > 0 {
      var q := (sum - 1) / 0xFFFF;
      assert sum + Complement(sum) - 1 == q * 0xFFFF + 0xFFFE;
    }
  }

  lemma ComplementIsZero(sum: nat)
    ensures Complement(sum) == 0 <==> sum > 0 && sum % 0xFFFF == 0
  {}

  /** Within the admitted length the checksum is the complement of the sum's residue. */
  lemma ChecksumFromSum(packet: seq<byte>)
    requires |packet| <= CHECKSUM_MAX_BYTES
    ensures Checksum(packet) == Complement(WordSum(packet, 0))
  {
    WordSumBound(packet, 0);
    FoldedIsResidue(WordSum(packet, 0));
  }

  /** Changing one aligned word to another residue is always detected. */
  lemma ChangedWordDetected(packet: seq<byte>, at: nat, value: u16)
    requires at + 1 < |packet| <= CHECKSUM_MAX_BYTES && at % 2 == 0
    requires Checksum(packet) == 0
    ensures Checksum(Stamped(packet, at, value)) == 0
       <==> (value - Word(packet, at)) % 0xFFFF == 0 && WordSum(Stamped(packet, at, value), 0) > 0
  {
    StampedSum(packet, at, value, 0);
    VerifiesIff(packet);
    VerifiesIff(Stamped(packet, at, value));
    ResidueShifts(WordSum(packet, 0), value - Word(packet, at));
  }

  lemma VerifiesIff(packet: seq<byte>)
    requires |packet| <= CHECKSUM_MAX_BYTES
    ensures Checksum(packet) == 0 <==> WordSum(packet, 0) > 0 && WordSum(packet, 0) % 0xFFFF == 0
  {
    ChecksumFromSum(packet);
    ComplementIsZero(WordSum(packet, 0));
  }

  lemma ResidueShifts(sum: int, change: int)
    requires sum % 0xFFFF == 0
    ensures (sum + change) % 0xFFFF == 0 <==> change % 0xFFFF == 0
  {}

  // ----- requests

  /** The request with its checksum field still zero. */
  function Unstamped(family: Family, mode: Mode, identifier: u16, sequence: u16,
                     token: u64, serial: u64, originateMs: u32): (packet: seq<byte>)
    ensures |packet| == RequestLength(mode)
  {
    [RequestType(family, mode), 0, 0, 0] + Bytes(identifier, 2) + Bytes(sequence, 2)
    + (if mode.Timestamp? then Bytes(originateMs, 4) + Zeros(8)
       else Bytes(token, 8) + Bytes(serial, 8) + Zeros(40))
  }

  function Zeros(length: nat): (bytes: seq<byte>)
    ensures |bytes| == length
  {
    seq(length, _ => 0)
  }

  /** IPv4 requests carry their checksum; the IPv6 socket computes its own. */
  function Built(family: Family, mode: Mode, identifier: u16, sequence: u16,
                 token: u64, serial: u64, originateMs: u32): (packet: seq<byte>)
    ensures |packet| == RequestLength(mode)
  {
    var packet := Unstamped(family, mode, identifier, sequence, token, serial, originateMs);
    if family.Inet? then Stamped(packet, 2, Checksum(packet)) else packet
  }

  method Build(packet: array<byte>, family: Family, mode: Mode, identifier: u16, sequence: u16,
               token: u64, serial: u64, originateMs: u32) returns (length: nat)
    requires packet.Length == ECHO_REQUEST_BYTES
    modifies packet
    ensures length == RequestLength(mode)
    ensures packet[..length] == Built(family, mode, identifier, sequence, token, serial, originateMs)
  {
    length := RequestLength(mode);
    forall i | 0 <= i < length {
      packet[i] := 0;
    }
    packet[0] := RequestType(family, mode);
    ghost var cleared := packet[..];
    PutInteger(packet, 4, identifier, 2);
    PutInteger(packet, 6, sequence, 2);
    if mode.Timestamp? {
      PutInteger(packet, 8, originateMs, 4);
    } else {
      PutInteger(packet, 8, token, 8);
      PutInteger(packet, 16, serial, 8);
    }
    Layout(cleared, family, mode, identifier, sequence, token, serial, originateMs);
    if family.Inet? {
      ghost var before := packet[..];
      var checksum := ComputeChecksum(packet[..length]);
      PutInteger(packet, 2, checksum, 2);
      StampIsPlaced(before, length, checksum);
    }
  }

  /** The fields put one after the other over a cleared packet lay the request out. */
  lemma Layout(cleared: seq<byte>, family: Family, mode: Mode, identifier: u16, sequence: u16,
               token: u64, serial: u64, originateMs: u32)
    requires |cleared| == ECHO_REQUEST_BYTES && cleared[0] == RequestType(family, mode)
    requires forall i :: 1 <= i < RequestLength(mode) ==> cleared[i] == 0
    ensures var named := Placed(Placed(cleared, 4, Bytes(identifier, 2)), 6, Bytes(sequence, 2));
      var filled := if mode.Timestamp? then Placed(named, 8, Bytes(originateMs, 4))
                    else Placed(Placed(named, 8, Bytes(token, 8)), 16, Bytes(serial, 8));
      filled[..RequestLength(mode)] == Unstamped(family, mode, identifier, sequence, token, serial, originateMs)
  {
    var named := Placed(Placed(cleared, 4, Bytes(identifier, 2)), 6, Bytes(sequence, 2));
    var filled := if mode.Timestamp? then Placed(named, 8, Bytes(originateMs, 4))
                  else Placed(Placed(named, 8, Bytes(token, 8)), 16, Bytes(serial, 8));
    var request := Unstamped(family, mode, identifier, sequence, token, serial, originateMs);
    forall i | 0 <= i < RequestLength(mode)
      ensures filled[i] == request[i]
    {}
  }

  lemma StampIsPlaced(before: seq<byte>, length: nat, checksum: u16)
    requires 4 <= length <= |before|
    ensures Placed(before, 2, Bytes(checksum, 2))[..length] == Stamped(before[..length], 2, checksum)
  {
    TwoBytes(checksum);
  }

  lemma TwoBytes(value: u16)
    ensures Bytes(value, 2) == [value / 256, value % 256]
  {
    assert Bytes(value / 256, 1) == Bytes(value / 256 / 256, 0) + [value / 256 % 256] == [value / 256];
  }

  // ----- replies

  function Field(packet: seq<byte>, at: nat, length: nat): nat
    requires at + length <= |packet|
  {
    Integer(packet[at..at + length])
  }

  /** How long the IPv4 header before the reply is, if it is a header the parser reads. */
  function HeaderBytes(packet: seq<byte>): Option<nat>
  {
    if |packet| < IPV4_HEADER_MIN_BYTES || packet[0] / 16 != 4 || packet[9] != IPPROTO_ICMP then None
    else
      var length := packet[0] % 16 * 4;
      if length < IPV4_HEADER_MIN_BYTES || length > |packet| || Field(packet, 2, 2) != |packet|
         || Field(packet, 6, 2) % FRAGMENT_VALUES != 0 then None
      else Some(length)
  }

  function MessageReply(message: seq<byte>, family: Family, mode: Mode, identifier: u16): Option<Reply>
  {
    var minimum := if mode.Timestamp? then TIMESTAMP_REQUEST_BYTES else ECHO_REPLY_MIN_BYTES;
    if |message| < minimum || message[0] != ReplyType(family, mode) || message[1] != 0
       || Field(message, 4, 2) != identifier || (family.Inet? && Checksum(message) != 0) then None
    else
      IntegerWidths(message, 6, 2);
      if mode.Timestamp? then
        IntegerWidths(message, 8, 4);
        IntegerWidths(message, 12, 4);
        IntegerWidths(message, 16, 4);
        Some(Reply(Field(message, 6, 2), 0, 0, Field(message, 8, 4), Field(message, 12, 4), Field(message, 16, 4)))
      else
        IntegerWidths(message, 8, 8);
        IntegerWidths(message, 16, 8);
        Some(Reply(Field(message, 6, 2), Field(message, 8, 8), Field(message, 16, 8), 0, 0, 0))
  }

  function Parsed(packet: seq<byte>, family: Family, mode: Mode, identifier: u16): Option<Reply>
  {
    if family.Inet? then
      var header := HeaderBytes(packet);
      if header.None? then None else MessageReply(packet[header.value..], family, mode, identifier)
    else if mode.Timestamp? then None
    else MessageReply(packet, family, mode, identifier)
  }

  lemma IntegerWidths(packet: seq<byte>, at: nat, length: nat)
    requires at + length <= |packet| && (length == 2 || length == 4 || length == 8)
    ensures Field(packet, at, length) < Power256(length)
    ensures length == 2 ==> Field(packet, at, length) <= 0xFFFF
    ensures length == 4 ==> Field(packet, at, length) <= U32_MAX
    ensures length == 8 ==> Field(packet, at, length) <= U64_MAX
  {
    IntegerFits(packet[at..at + length]);
    Widths();
  }

  method Parse(packet: seq<byte>, family: Family, mode: Mode, identifier: u16) returns (reply: Option<Reply>)
    ensures reply == Parsed(packet, family, mode, identifier)
  {
    var headerBytes := 0;
    if family.Inet? {
      var header := ParseHeader(packet);
      if header.None? {
        return None;
      }
      headerBytes := header.value;
    } else if mode.Timestamp? {
      return None;
    }
    assert family.Inet6? ==> packet[headerBytes..] == packet;
    reply := ParseMessage(packet[headerBytes..], family, mode, identifier);
  }

  method ParseHeader(packet: seq<byte>) returns (length: Option<nat>)
    ensures length == HeaderBytes(packet)
  {
    if |packet| < IPV4_HEADER_MIN_BYTES || packet[0] / 16 != 4 || packet[9] != IPPROTO_ICMP {
      return None;
    }
    var headerBytes := packet[0] % 16 * 4;
    if headerBytes < IPV4_HEADER_MIN_BYTES || headerBytes > |packet| {
      return None;
    }
    var total := GetInteger(packet, 2, 2);
    var fragment := GetInteger(packet, 6, 2);
    if total != |packet| || fragment % FRAGMENT_VALUES != 0 {
      return None;
    }
    return Some(headerBytes);
  }

  method ParseMessage(message: seq<byte>, family: Family, mode: Mode, identifier: u16) returns (reply: Option<Reply>)
    ensures reply == MessageReply(message, family, mode, identifier)
  {
    var minimum := if mode.Timestamp? then RequestLength(mode) else ECHO_REPLY_MIN_BYTES;
    if |message| < minimum || message[0] != ReplyType(family, mode) || message[1] != 0 {
      return None;
    }
    var found := GetInteger(message, 4, 2);
    if found != identifier {
      return None;
    }
    if family.Inet? {
      var checksum := ComputeChecksum(message);
      if checksum != 0 {
        return None;
      }
    }
    IntegerWidths(message, 6, 2);
    var sequence := GetInteger(message, 6, 2);
    if mode.Timestamp? {
      IntegerWidths(message, 8, 4);
      IntegerWidths(message, 12, 4);
      IntegerWidths(message, 16, 4);
      var originate := GetInteger(message, 8, 4);
      var receive := GetInteger(message, 12, 4);
      var transmit := GetInteger(message, 16, 4);
      reply := Some(Reply(sequence, 0, 0, originate, receive, transmit));
    } else {
      var token := GetInteger(message, 8, 8);
      var serial := GetInteger(message, 16, 8);
      reply := Some(Reply(sequence, token, serial, 0, 0, 0));
    }
  }

  /** What the addressed host answers: its type, both its times for a timestamp, and a new checksum. */
  function Answer(request: seq<byte>, family: Family, mode: Mode, receiveMs: u32, transmitMs: u32): (answer: seq<byte>)
    requires |request| == RequestLength(mode)
    ensures |answer| == |request|
  {
    var typed := request[0 := ReplyType(family, mode)][2 := 0][3 := 0];
    var timed := if mode.Timestamp? then Placed(Placed(typed, 12, Bytes(receiveMs, 4)), 16, Bytes(transmitMs, 4))
                 else typed;
    if family.Inet? then Stamped(timed, 2, Checksum(timed)) else timed
  }

  ghost predicate ValidHeader(header: seq<byte>, message: seq<byte>)
  {
    && IPV4_HEADER_MIN_BYTES <= |header|
    && header[0] / 16 == 4 && header[0] % 16 * 4 == |header|
    && header[9] == IPPROTO_ICMP
    && Field(header, 2, 2) == |header| + |message|
    && Field(header, 6, 2) % FRAGMENT_VALUES == 0
  }

  /** The answer to a built request parses to what the request carried. */
  lemma AnswerCarriesRequest(family: Family, mode: Mode, identifier: u16, sequence: u16, token: u64, serial: u64,
                             originateMs: u32, receiveMs: u32, transmitMs: u32)
    ensures var request := Built(family, mode, identifier, sequence, token, serial, originateMs);
      MessageReply(Answer(request, family, mode, receiveMs, transmitMs), family, mode, identifier)
      == Some(if mode.Timestamp? then Reply(sequence, 0, 0, originateMs, receiveMs, transmitMs)
              else Reply(sequence, token, serial, 0, 0, 0))
  {
    var request := Built(family, mode, identifier, sequence, token, serial, originateMs);
    RequestFields(family, mode, identifier, sequence, token, serial, originateMs);
    AnswerKeeps(request, family, mode, receiveMs, transmitMs);
    AnswerVerifies(request, family, mode, receiveMs, transmitMs);
    Widths();
    IntegerRoundTrip(identifier, 2);
    IntegerRoundTrip(sequence, 2);
    IntegerRoundTrip(originateMs, 4);
    IntegerRoundTrip(receiveMs, 4);
    IntegerRoundTrip(transmitMs, 4);
    IntegerRoundTrip(token, 8);
    IntegerRoundTrip(serial, 8);
  }

  lemma RequestFields(family: Family, mode: Mode, identifier: u16, sequence: u16,
                      token: u64, serial: u64, originateMs: u32)
    ensures var request := Built(family, mode, identifier, sequence, token, serial, originateMs);
      && request[1] == 0
      && request[4..6] == Bytes(identifier, 2) && request[6..8] == Bytes(sequence, 2)
      && (mode.Timestamp? ==> request[8..12] == Bytes(originateMs, 4))
      && (mode.Echo? ==> request[8..16] == Bytes(token, 8) && request[16..24] == Bytes(serial, 8))
  {}

  lemma AnswerKeeps(request: seq<byte>, family: Family, mode: Mode, receiveMs: u32, transmitMs: u32)
    requires |request| == RequestLength(mode)
    ensures var answer := Answer(request, family, mode, receiveMs, transmitMs);
      && answer[0] == ReplyType(family, mode) && answer[1] == request[1]
      && answer[4..6] == request[4..6] && answer[6..8] == request[6..8] && answer[8..12] == request[8..12]
      && (mode.Timestamp? ==> answer[12..16] == Bytes(receiveMs, 4) && answer[16..20] == Bytes(transmitMs, 4))
      && (mode.Echo? ==> answer[8..16] == request[8..16] && answer[16..24] == request[16..24])
  {}

  lemma AnswerVerifies(request: seq<byte>, family: Family, mode: Mode, receiveMs: u32, transmitMs: u32)
    requires |request| == RequestLength(mode)
    ensures family.Inet? ==> Checksum(Answer(request, family, mode, receiveMs, transmitMs)) == 0
  {
    var typed := request[0 := ReplyType(family, mode)][2 := 0][3 := 0];
    var timed := if mode.Timestamp? then Placed(Placed(typed, 12, Bytes(receiveMs, 4)), 16, Bytes(transmitMs, 4))
                 else typed;
    ChecksumVerifies(timed, 2);
  }

  /** Behind any IPv4 header the raw socket may deliver with it. */
  lemma DeliveredAnswerParses(header: seq<byte>, mode: Mode, identifier: u16, sequence: u16, token: u64, serial: u64,
                              originateMs: u32, receiveMs: u32, transmitMs: u32)
    requires var request := Built(Inet, mode, identifier, sequence, token, serial, originateMs);
      ValidHeader(header, Answer(request, Inet, mode, receiveMs, transmitMs))
    ensures var request := Built(Inet, mode, identifier, sequence, token, serial, originateMs);
      Parsed(header + Answer(request, Inet, mode, receiveMs, transmitMs), Inet, mode, identifier)
      == Some(if mode.Timestamp? then Reply(sequence, 0, 0, originateMs, receiveMs, transmitMs)
              else Reply(sequence, token, serial, 0, 0, 0))
  {
    var request := Built(Inet, mode, identifier, sequence, token, serial, originateMs);
    HeaderStripped(header, Answer(request, Inet, mode, receiveMs, transmitMs));
    AnswerCarriesRequest(Inet, mode, identifier, sequence, token, serial, originateMs, receiveMs, transmitMs);
  }

  lemma HeaderStripped(header: seq<byte>, message: seq<byte>)
    requires ValidHeader(header, message)
    ensures HeaderBytes(header + message) == Some(|header|)
    ensures (header + message)[|header|..] == message
  {
    assert (header + message)[2..4] == header[2..4];
    assert (header + message)[6..8] == header[6..8];
  }

  /** A built request's own checksum verifies too. */
  lemma RequestVerifies(mode: Mode, identifier: u16, sequence: u16, token: u64, serial: u64, originateMs: u32)
    ensures Checksum(Built(Inet, mode, identifier, sequence, token, serial, originateMs)) == 0
  {
    ChecksumVerifies(Unstamped(Inet, mode, identifier, sequence, token, serial, originateMs), 2);
  }
}
