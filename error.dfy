/**
 * The error table shared by master and partition (src/error.rs): each error
 * code has a wire number and one fixed message.
 */
module Errors {
  import opened Utf8

  const ErrUnknownCommand: string := "Invalid request: command not found"
  const ErrNotEnoughArgs: string := "Invalid request: not enough arguments"
  const ErrInvalidArgs: string := "Invalid request: invalid command arguments"
  const ErrInvalidSequence: string := "Invalid request: invalid UTF-8 sequence"
  const ErrSocketRead: string := "Internal error: could not read from socket"
  const ErrUnknown: string := "Internal error: unknown error"
  const ErrNoPartitionsInRing: string := "Internal error: no partition found"
  // The two long messages are written as two literals each; the value is the single text of the source.
  const ErrUnsupportedMaster: string :=
    "Internal error: this command is not " + "supported on this node (master)"
  const ErrUnsupportedPartition: string :=
    "Internal error: this command is not " + "supported on this node (partition)"
  const ErrPartitionUnavailable: string := "Internal error: partition unavailable"

  datatype ErrorCode =
    | InvalidRequestCmd
    | NotEnoughArgs
    | InvalidRequestArg
    | InvalidSequence
    | FailedSocketRead
    | NoPartitionsInRing
    | UnsupportedCommandMaster
    | UnsupportedCommandPartition
    | PartitionUnavailable
    | Unknown

  /** An error as it travels: its code and the message that goes with it. */
  datatype Error = Error(code: ErrorCode, msg: string)

  /** `ErrorCode::from_u8`: the numbers 1 to 9 name their codes, every other byte is Unknown. */
  function FromU8(value: byte): (c: ErrorCode)
    ensures !(1 <= value <= 9) ==> c == Unknown
    ensures 1 <= value <= 9 ==> c != Unknown
  {
    match value
    case 1 => InvalidRequestCmd
    case 2 => NotEnoughArgs
    case 3 => InvalidRequestArg
    case 4 => InvalidSequence
    case 5 => FailedSocketRead
    case 6 => NoPartitionsInRing
    case 7 => UnsupportedCommandMaster
    case 8 => UnsupportedCommandPartition
    case 9 => PartitionUnavailable
    case _ => Unknown
  }

  /** `ErrorCode::to_u8`: the wire number of a code, always in 1..=10 and read back by FromU8. */
  function ToU8(c: ErrorCode): (value: byte)
    ensures 1 <= value <= 10
    ensures FromU8(value) == c
    ensures (value == 10) == (c == Unknown)
  {
    match c
    case InvalidRequestCmd => 1
    case NotEnoughArgs => 2
    case InvalidRequestArg => 3
    case InvalidSequence => 4
    case FailedSocketRead => 5
    case NoPartitionsInRing => 6
    case UnsupportedCommandMaster => 7
    case UnsupportedCommandPartition => 8
    case PartitionUnavailable => 9
    case Unknown => 10
  }

  /** The fixed message of each code. */
  function Message(c: ErrorCode): (msg: string)
    ensures |msg| > 1
  {
    match c
    case InvalidRequestCmd => ErrUnknownCommand
    case NotEnoughArgs => ErrNotEnoughArgs
    case InvalidRequestArg => ErrInvalidArgs
    case InvalidSequence => ErrInvalidSequence
    case FailedSocketRead => ErrSocketRead
    case NoPartitionsInRing => ErrNoPartitionsInRing
    case UnsupportedCommandMaster => ErrUnsupportedMaster
    case UnsupportedCommandPartition => ErrUnsupportedPartition
    case PartitionUnavailable => ErrPartitionUnavailable
    case Unknown => ErrUnknown
  }

  /** `Error::from_code`: carries the code and its own message. */
  function FromCode(code: ErrorCode): (e: Error)
    ensures e.code == code && |e.msg| > 0
  {
    Error(code, Message(code))
  }

  /** `Error::from_u8`. */
  function ErrorFromU8(value: byte): (e: Error)
    ensures e == FromCode(FromU8(value))
    ensures !(1 <= value <= 9) ==> e.code == Unknown
  {
    FromCode(FromU8(value))
  }

  /** The wire number determines the code: `to_u8` is injective. */
  lemma ToU8Injective(c: ErrorCode, d: ErrorCode)
    ensures ToU8(c) == ToU8(d) ==> c == d
  {
    assert FromU8(ToU8(c)) == c && FromU8(ToU8(d)) == d;
  }

  /** FromU8 names the code whose number it is given, for every number of 1 to 9. */
  lemma ToU8FromU8(value: byte)
    requires 1 <= value <= 9
    ensures ToU8(FromU8(value)) == value
  {
  }

  /** Every code has a message specific to it. */
  lemma MessageDeterminesCode(c: ErrorCode, d: ErrorCode)
    ensures FromCode(c).msg == FromCode(d).msg ==> c == d
  {
    var m, n := Message(c), Message(d);
    if c != d && |m| == |n| {
      assert m[2] != n[2];
    }
  }

  /** No message contains NUL, so a message travels inside a frame whole. */
  lemma MessageHasNoNul(c: ErrorCode)
    ensures '\0' !in Message(c)
  {
    match c
    case InvalidRequestCmd => NoNulInUnknownCommand();
    case NotEnoughArgs => NoNulInNotEnoughArgs();
    case InvalidRequestArg => NoNulInInvalidArgs();
    case InvalidSequence => NoNulInInvalidSequence();
    case FailedSocketRead => NoNulInSocketRead();
    case NoPartitionsInRing => NoNulInNoPartitionsInRing();
    case UnsupportedCommandMaster => NoNulInUnsupportedMaster();
    case UnsupportedCommandPartition => NoNulInUnsupportedPartition();
    case PartitionUnavailable => NoNulInPartitionUnavailable();
    case Unknown => NoNulInUnknown();
  }

  // One literal per lemma keeps each proof small.
  lemma NoNulInUnknownCommand() ensures '\0' !in ErrUnknownCommand { }
  lemma NoNulInNotEnoughArgs() ensures '\0' !in ErrNotEnoughArgs { }
  lemma NoNulInInvalidArgs() ensures '\0' !in ErrInvalidArgs { }
  lemma NoNulInInvalidSequence() ensures '\0' !in ErrInvalidSequence { }
  lemma NoNulInSocketRead() ensures '\0' !in ErrSocketRead { }
  lemma NoNulInNoPartitionsInRing() ensures '\0' !in ErrNoPartitionsInRing { }
  lemma NoNulInUnsupportedMaster() ensures '\0' !in ErrUnsupportedMaster { }
  lemma NoNulInUnsupportedPartition() ensures '\0' !in ErrUnsupportedPartition { }
  lemma NoNulInPartitionUnavailable() ensures '\0' !in ErrPartitionUnavailable { }
  lemma NoNulInUnknown() ensures '\0' !in ErrUnknown { }
}
