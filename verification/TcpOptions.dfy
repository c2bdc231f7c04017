/** Scanning a TCP header's options for a timestamp, and appending one after them. */
module TcpOptions {
  import opened Arith

  const OPTIONS_MAX: nat := 40
  const OPTION_END: byte := 0
  const OPTION_NOP: byte := 1
  const OPTION_TIMESTAMP: byte := 8
  const TIMESTAMP_LENGTH: nat := 10
  const ADDED_BYTES: nat := 12
  const NOT_FOUND: int := -1
  const MALFORMED: int := -2

  /** The option list read option by option from index on. */
  function Walk(options: seq<byte>, length: nat, index: nat): int
    requires |options| == OPTIONS_MAX
    decreases OPTIONS_MAX - index
  {
    if index >= length || index >= OPTIONS_MAX - 1 then NOT_FOUND
    else if options[index] == OPTION_END then MALFORMED
    else if options[index] == OPTION_NOP then Walk(options, length, index + 1)
    else if options[index + 1] < 2 then MALFORMED
    else if options[index] == OPTION_TIMESTAMP && options[index + 1] == TIMESTAMP_LENGTH then
      if index + TIMESTAMP_LENGTH <= length then index else MALFORMED
    else Walk(options, length, index + options[index + 1])
  }

  /** The fast path for the common layout and the bounded loop both give the walk's answer. */
  method TimestampIndex(options: seq<byte>, length: nat) returns (found: int)
    requires |options| == OPTIONS_MAX && length <= OPTIONS_MAX
    ensures found == Walk(options, length, 0)
  {
    if length >= 12 && options[0] == OPTION_NOP && options[1] == OPTION_NOP
       && options[2] == OPTION_TIMESTAMP && options[3] == TIMESTAMP_LENGTH {
      assert Walk(options, length, 2) == 2;
      assert Walk(options, length, 0) == Walk(options, length, 1) == 2;
      return 2;
    }
    var index := 0;
    for step := 0 to OPTIONS_MAX
      invariant index >= step
      invariant Walk(options, length, index) == Walk(options, length, 0)
    {
      if index >= length || index >= OPTIONS_MAX - 1 {
        return NOT_FOUND;
      }
      var kind := options[index];
      if kind == OPTION_END {
        return MALFORMED;
      }
      if kind == OPTION_NOP {
        index := index + 1;
        continue;
      }
      var optionLength := options[index + 1];
      if optionLength < 2 {
        return MALFORMED;
      }
      if kind == OPTION_TIMESTAMP && optionLength == TIMESTAMP_LENGTH {
        return if index + TIMESTAMP_LENGTH <= length then index else MALFORMED;
      }
      index := index + optionLength;
    }
    return NOT_FOUND;
  }

  /** The injector's cheaper question: the timestamp's two leading bytes anywhere. */
  ghost predicate MayTimestamp(options: seq<byte>, length: nat)
    requires |options| == OPTIONS_MAX
  {
    exists i :: 0 <= i < OPTIONS_MAX - 1 && i + 1 < length
      && options[i] == OPTION_TIMESTAMP && options[i + 1] == TIMESTAMP_LENGTH
  }

  method OptionsMayTimestamp(options: seq<byte>, length: nat) returns (may: bool)
    requires |options| == OPTIONS_MAX
    ensures may == MayTimestamp(options, length)
  {
    var i := 0;
    while i + 1 < OPTIONS_MAX
      invariant i + 1 <= OPTIONS_MAX
      invariant forall k :: 0 <= k < i && k + 1 < length ==>
        !(options[k] == OPTION_TIMESTAMP && options[k + 1] == TIMESTAMP_LENGTH)
    {
      if i + 1 >= length {
        return false;
      }
      if options[i] == OPTION_TIMESTAMP && options[i + 1] == TIMESTAMP_LENGTH {
        return true;
      }
      i := i + 1;
    }
    may := false;
  }

  /** A found timestamp lies whole within the options and starts with its two bytes. */
  lemma {:induction false} FoundIsTimestamp(options: seq<byte>, length: nat, index: nat)
    requires |options| == OPTIONS_MAX && length <= OPTIONS_MAX
    requires Walk(options, length, index) >= 0
    ensures var found := Walk(options, length, index);
      && index <= found && found + TIMESTAMP_LENGTH <= length
      && options[found] == OPTION_TIMESTAMP && options[found + 1] == TIMESTAMP_LENGTH
    decreases OPTIONS_MAX - index
  {
    if options[index] == OPTION_NOP {
      FoundIsTimestamp(options, length, index + 1);
    } else if options[index] != OPTION_TIMESTAMP || options[index + 1] != TIMESTAMP_LENGTH {
      FoundIsTimestamp(options, length, index + options[index + 1]);
    }
  }

  /** So the cheaper question never misses a timestamp the full parser finds. */
  lemma NeverMissed(options: seq<byte>, length: nat)
    requires |options| == OPTIONS_MAX && length <= OPTIONS_MAX
    requires Walk(options, length, 0) >= 0
    ensures MayTimestamp(options, length)
  {
    FoundIsTimestamp(options, length, 0);
  }

  // ----- option lists

  datatype TcpOption =
    | Nop
    | Timestamp(value: seq<byte>)
    | Other(kind: byte, value: seq<byte>)

  ghost predicate WellFormed(option: TcpOption)
  {
    match option
    case Nop => true
    case Timestamp(value) => |value| == 8
    case Other(kind, value) => kind != OPTION_END && kind != OPTION_NOP && |value| <= 253
                               && !(kind == OPTION_TIMESTAMP && |value| == 8)
  }

  ghost function Encoded(option: TcpOption): (bytes: seq<byte>)
    requires WellFormed(option)
    ensures bytes != []
  {
    match option
    case Nop => [OPTION_NOP]
    case Timestamp(value) => [OPTION_TIMESTAMP, TIMESTAMP_LENGTH] + value
    case Other(kind, value) => [kind, |value| + 2] + value
  }

  ghost predicate AllWellFormed(list: seq<TcpOption>) { forall o :: o in list ==> WellFormed(o) }

  ghost function EncodedAll(list: seq<TcpOption>): seq<byte>
    requires AllWellFormed(list)
  {
    if list == [] then [] else Encoded(list[0]) + EncodedAll(list[1..])
  }

  ghost function FirstTimestamp(list: seq<TcpOption>, offset: nat): int
    requires AllWellFormed(list)
  {
    if list == [] then NOT_FOUND
    else if list[0].Timestamp? then offset
    else FirstTimestamp(list[1..], offset + |Encoded(list[0])|)
  }

  /** For any well-formed option list the walk finds its first timestamp exactly where the list puts it. */
  lemma {:induction false} WalkFindsFirst(options: seq<byte>, length: nat, list: seq<TcpOption>, index: nat)
    requires |options| == OPTIONS_MAX && index <= length <= OPTIONS_MAX
    requires AllWellFormed(list) && options[index..length] == EncodedAll(list)
    ensures Walk(options, length, index) == FirstTimestamp(list, index)
    decreases |list|
  {
    if list == [] {
    } else {
      var head, rest := Encoded(list[0]), EncodedAll(list[1..]);
      HeadAndRest(options, index, length, head, rest);
      StepsOver(options, length, list[0], index);
      if !list[0].Timestamp? { WalkFindsFirst(options, length, list[1..], index + |head|); }
    }
  }

  /** An option's first two bytes are all that the walk reads of it. */
  ghost predicate Starts(options: seq<byte>, index: nat, head: seq<byte>)
  {
    && index < |options| && |head| > 0 && options[index] == head[0]
    && (|head| > 1 ==> index + 1 < |options| && options[index + 1] == head[1])
  }

  /** The walk stops at a timestamp and steps over anything else. */
  lemma StepsOver(options: seq<byte>, length: nat, option: TcpOption, index: nat)
    requires |options| == OPTIONS_MAX && WellFormed(option)
    requires index + |Encoded(option)| <= length <= OPTIONS_MAX && Starts(options, index, Encoded(option))
    ensures Walk(options, length, index) ==
      if option.Timestamp? then index else Walk(options, length, index + |Encoded(option)|)
  {}

  lemma HeadAndRest(options: seq<byte>, index: nat, length: nat, head: seq<byte>, rest: seq<byte>)
    requires index <= length <= |options| && options[index..length] == head + rest && head != []
    ensures index + |head| + |rest| == length && Starts(options, index, head)
    ensures options[index + |head|..length] == rest
  {
    var all := options[index..length];
    assert all[0] == head[0] && (|head| > 1 ==> all[1] == head[1]);
    assert options[index + |head|..length] == all[|head|..] == (head + rest)[|head|..];
  }

  // ----- appending a timestamp

  /** Where a walk that neither ends early, finds a timestamp nor meets a bad length runs out. */
  function RunsOut(options: seq<byte>, length: nat, index: nat): (end: int)
    requires |options| == OPTIONS_MAX
    decreases OPTIONS_MAX - index
  {
    if index >= length then index
    else if index >= OPTIONS_MAX - 1 || options[index] == OPTION_END then MALFORMED
    else if options[index] == OPTION_NOP then RunsOut(options, length, index + 1)
    else if options[index + 1] < 2 then MALFORMED
    else if options[index] == OPTION_TIMESTAMP && options[index + 1] == TIMESTAMP_LENGTH then MALFORMED
    else RunsOut(options, length, index + options[index + 1])
  }

  /** NOP, NOP and a timestamp written after the options a SYN came with, read into a zeroed buffer. */
  ghost predicate Appended(options: seq<byte>, length: nat, extended: seq<byte>)
    requires |options| == |extended| == OPTIONS_MAX && length + ADDED_BYTES <= OPTIONS_MAX
  {
    && (forall i :: length <= i < OPTIONS_MAX ==> options[i] == 0)
    && extended[..length] == options[..length]
    && extended[length] == extended[length + 1] == OPTION_NOP
    && extended[length + 2] == OPTION_TIMESTAMP && extended[length + 3] == TIMESTAMP_LENGTH
  }

  /**
   An appended timestamp is found exactly when the SYN's own options run out where it
   begins: at their end or, for a length that overruns it, on one of the two NOPs or it.
   */
  lemma AppendedIsFoundIff(options: seq<byte>, length: nat, extended: seq<byte>)
    requires |options| == |extended| == OPTIONS_MAX && length + ADDED_BYTES <= OPTIONS_MAX
    requires Appended(options, length, extended) && !MayTimestamp(options, length)
    ensures Walk(extended, length + ADDED_BYTES, 0) == length + 2
       <==> length <= RunsOut(options, length, 0) <= length + 2
  {
    AppendedFrom(options, length, extended, 0);
  }

  lemma {:induction false} AppendedFrom(options: seq<byte>, length: nat, extended: seq<byte>, index: nat)
    requires |options| == |extended| == OPTIONS_MAX && length + ADDED_BYTES <= OPTIONS_MAX
    requires Appended(options, length, extended) && !MayTimestamp(options, length)
    ensures Walk(extended, length + ADDED_BYTES, index) == length + 2
       <==> length <= RunsOut(options, length, index) <= length + 2
    decreases OPTIONS_MAX - index
  {
    if index >= length {
      if index > length + 2 {
        if Walk(extended, length + ADDED_BYTES, index) >= 0 {
          FoundIsTimestamp(extended, length + ADDED_BYTES, index);
        }
      } else {
        assert Walk(extended, length + ADDED_BYTES, length + 2) == length + 2;
        assert Walk(extended, length + ADDED_BYTES, length + 1) == length + 2;
      }
    } else {
      assert extended[index] == extended[..length][index] == options[..length][index] == options[index];
      if options[index] == OPTION_NOP {
        AppendedFrom(options, length, extended, index + 1);
      } else if options[index] != OPTION_END {
        if index + 1 < length {
          assert extended[index + 1] == extended[..length][index + 1];
          assert options[index + 1] == options[..length][index + 1];
          if options[index + 1] >= 2 {
            AppendedFrom(options, length, extended, index + options[index + 1]);
          }
        }
      }
    }
  }

  /** After an end-of-options byte an appended timestamp is never seen, though nothing keeps it from being appended. */
  lemma AppendedAfterEndIsLost(options: seq<byte>, extended: seq<byte>)
    requires |options| == |extended| == OPTIONS_MAX && Appended(options, 4, extended)
    requires options[..4] == [2, 2, OPTION_END, OPTION_END]
    ensures !MayTimestamp(options, 4)
    ensures Walk(extended, 4 + ADDED_BYTES, 0) == MALFORMED
  {
    assert options[0] == options[..4][0] && options[1] == options[..4][1];
    assert options[2] == options[..4][2] && options[3] == options[..4][3];
    assert extended[0] == extended[..4][0] && extended[1] == extended[..4][1] && extended[2] == extended[..4][2];
    assert Walk(extended, 4 + ADDED_BYTES, 2) == MALFORMED;
  }
}
