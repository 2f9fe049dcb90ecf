/**
 * A partition node (src/bin/partition.rs): it announces itself to the master
 * with `NTF`, checks the master's ACK, then answers GET, SET and DEL frames from
 * a two-entry LRU cache, one read buffer at a time.
 *
 * The handler slices the decoded buffer at fixed byte offsets, as the code does:
 * the key starts at offset 4, the SET value at offset 8, and a slice that does
 * not fall on a character boundary panics.
 */
module PartitionAgent {
  import opened Wrappers
  import opened Utf8
  import Errors
  import Parser
  import Lru

  /** The capacity the agent's cache is created with. */
  const CacheCapacity: nat := 2

  // ---------------------------------------------------------------- slicing helpers

  /** `iterate_until_whitespace`: from `start` to the first whitespace after it, or to the end. */
  function UntilWhitespace(s: string, start: nat): (r: string)
    requires start <= |s|
    ensures start + |r| <= |s| && r == s[start..start + |r|]
    ensures Parser.NoWhitespace(r)
    ensures start + |r| < |s| ==> Parser.IsWhitespace(s[start + |r|])
  {
    s[start..][..Parser.WhitespaceIndex(s[start..])]
  }

  /** `iterate_until_null_character`: from `start` to the first NUL after it, or to the end. */
  function UntilNull(s: string, start: nat): (r: string)
    requires start <= |s|
    ensures start + |r| <= |s| && r == s[start..start + |r|]
    ensures '\0' !in r
    ensures start + |r| < |s| ==> s[start + |r|] == '\0'
  {
    Parser.UpTo(s[start..], '\0')
  }

  /** `iterate_until_newline_character`: from `start` to the first newline after it, or to the end. */
  function UntilNewline(s: string, start: nat): (r: string)
    requires start <= |s|
    ensures start + |r| <= |s| && r == s[start..start + |r|]
    ensures '\n' !in r
    ensures start + |r| < |s| ==> s[start + |r|] == '\n'
  {
    Parser.UpTo(s[start..], '\n')
  }

  /** The three facts each helper promises pick out its result: it runs exactly to the first stop or the end. */
  lemma UntilIsFirstStop(s: string, start: nat, r: string, stop: char)
    requires start + |r| <= |s| && r == s[start..start + |r|] && stop !in r
    requires start + |r| < |s| ==> s[start + |r|] == stop
    ensures r == Parser.UpTo(s[start..], stop)
    ensures stop == '\0' ==> r == UntilNull(s, start)
    ensures stop == '\n' ==> r == UntilNewline(s, start)
  {
    Parser.UpToUnique(s[start..], stop, r);
  }

  /** The character index at byte offset `b` of the text's UTF-8 form, when `b` is a character boundary. */
  function CharIndex(text: string, b: nat): (r: Option<nat>)
    ensures r.Some? ==> r.value <= |text| && |Encode(text[..r.value])| == b
    ensures r.None? ==> forall k :: 0 <= k <= |text| ==> |Encode(text[..k])| != b
  {
    if b == 0 then
      assert text[..0] == [];
      Some(0)
    else if text == [] then None
    else
      var w := |EncodeChar(text[0])|;
      EncodedPrefixes(text);
      if b < w then None
      else match CharIndex(text[1..], b - w)
        case None => None
        case Some(k) => Some(k + 1)
  }

  lemma EncodedPrefixes(text: string)
    requires text != []
    ensures forall k :: 1 <= k <= |text| ==>
      |Encode(text[..k])| == |EncodeChar(text[0])| + |Encode(text[1..][..k - 1])|
  {
    forall k | 1 <= k <= |text|
      ensures |Encode(text[..k])| == |EncodeChar(text[0])| + |Encode(text[1..][..k - 1])|
    {
      assert text[..k][0] == text[0] && text[..k][1..] == text[1..][..k - 1];
    }
  }

  /** Over an ASCII prefix, byte offsets are character indices. */
  lemma {:induction false} CharIndexAscii(text: string, n: nat)
    requires n <= |text| && IsAscii(text[..n])
    ensures CharIndex(text, n) == Some(n)
  {
    if n > 0 {
      assert text[..n][0] == text[0];
      assert text[1..][..n - 1] == text[..n][1..];
      CharIndexAscii(text[1..], n - 1);
    }
  }

  /** A field with no whitespace, followed by whitespace, is what `iterate_until_whitespace` returns. */
  lemma UntilWhitespaceOf(s: string, start: nat, a: string)
    requires start + |a| < |s| && s[start..start + |a|] == a
    requires Parser.NoWhitespace(a) && Parser.IsWhitespace(s[start + |a|])
    ensures UntilWhitespace(s, start) == a
  {
    var r := UntilWhitespace(s, start);
  }

  // ---------------------------------------------------------------- one frame

  /** The agent's answer to one read: bytes written back, or a panic that ends the process. */
  datatype Handled = Replied(bytes: seq<byte>) | Rejected(err: Errors.Error) | Panicked
  {
    /** What the agent writes back: the reply, or for a rejected request the text `send_error` writes. */
    function Output(): seq<byte>
      requires !Panicked?
    {
      if Replied? then bytes else ErrorReply(err)
    }
  }

  /** `send_error`: the text "Error: " and the message, with no terminator. */
  function ErrorReply(err: Errors.Error): (r: seq<byte>)
    ensures r == Encode("Error: ") + Encode(err.msg)
  {
    EncodeAppend("Error: ", err.msg);
    Encode("Error: " + err.msg)
  }

  /** The body of the serving loop for one buffer: the whole buffer must be UTF-8, else the agent panics. */
  function Respond(entries: seq<Lru.Entry>, capacity: nat, buffer: seq<byte>): (r: (Handled, seq<Lru.Entry>))
    requires capacity >= 1
    ensures r.0.Panicked? ==> r.1 == entries
    ensures Lru.Bounded(entries, capacity) ==> Lru.Bounded(r.1, capacity)
  {
    match Decode(buffer)
    case None => (Panicked, entries)
    case Some(text) => Answer(entries, capacity, text)
  }

  /**
   * The handling of the decoded buffer, with the cache's entries before and after.
   * The command is the first three bytes; GET and DEL keys run from offset 4 to a
   * newline; the SET key runs from offset 4 to whitespace and its value from offset
   * 8 to a NUL.
   */
  function Answer(entries: seq<Lru.Entry>, capacity: nat, text: string): (r: (Handled, seq<Lru.Entry>))
    requires capacity >= 1
    ensures r.0.Panicked? ==> r.1 == entries
    ensures Lru.Bounded(entries, capacity) ==> Lru.Bounded(r.1, capacity)
  {
    match CharIndex(text, 3)
    case None => (Panicked, entries)
    case Some(c3) =>
      var command := text[..c3];
      if command !in {"GET", "SET", "DEL"} then
        (Rejected(Errors.FromCode(Errors.InvalidRequestCmd)), entries)
      else
        match CharIndex(text, 4)
        case None => (Panicked, entries)
        case Some(c4) =>
          if command == "GET" then AnswerGet(entries, UntilNewline(text, c4))
          else if command == "SET" then AnswerSet(entries, capacity, text, UntilWhitespace(text, c4))
          else (Replied(Parser.BuildOkResponse()), Lru.Removed(entries, UntilNewline(text, c4)))
  }

  /** GET: a hit replies with the value and makes the key most recent; a miss changes nothing. */
  function AnswerGet(entries: seq<Lru.Entry>, key: string): (r: (Handled, seq<Lru.Entry>))
    ensures r.0.Replied? && forall k :: Lru.Lookup(r.1, k) == Lru.Lookup(entries, k)
    ensures Lru.DistinctKeys(entries) ==> Lru.DistinctKeys(r.1) && |r.1| == |entries|
  {
    match Lru.Lookup(entries, key)
    case Some(value) => (Replied(Parser.BuildHitResponse(key, value)), Lru.Touched(entries, key))
    case None => (Replied(Parser.BuildMissResponse(key)), entries)
  }

  /** SET: the value runs from character 8 to a NUL; an offset 8 inside a character panics. */
  function AnswerSet(entries: seq<Lru.Entry>, capacity: nat, text: string, key: string): (r: (Handled, seq<Lru.Entry>))
    requires capacity >= 1
    ensures r.0.Panicked? ==> r.1 == entries
    ensures r.0.Replied? ==> r.0 == Replied(Parser.BuildOkResponse()) && Lru.Lookup(r.1, key).Some?
    ensures forall k :: k != key ==> Lru.Lookup(r.1, k).Some? ==> Lru.Lookup(r.1, k) == Lru.Lookup(entries, k)
    ensures Lru.Bounded(entries, capacity) ==> Lru.Bounded(r.1, capacity)
  {
    match CharIndex(text, 8)
    case None => (Panicked, entries)
    case Some(c8) => (Replied(Parser.BuildOkResponse()), Lru.Inserted(entries, capacity, key, UntilNull(text, c8)))
  }

  /** Only a SET, answered OK, gives a key a value it did not have before. */
  lemma OnlySetWrites(entries: seq<Lru.Entry>, capacity: nat, text: string)
    requires capacity >= 1
    ensures var r := Answer(entries, capacity, text);
      forall k :: Lru.Lookup(r.1, k).Some? && Lru.Lookup(entries, k) != Lru.Lookup(r.1, k) ==>
        r.0 == Replied(Parser.BuildOkResponse())
  {
  }

  /** One pass of the serving loop against the cache object. */
  method HandleFrame(cache: Lru.LruCache, buffer: seq<byte>) returns (handled: Handled)
    requires cache.Valid()
    modifies cache
    ensures cache.Valid()
    ensures (handled, cache.entries) == Respond(old(cache.entries), cache.capacity, buffer)
  {
    var decoded := Decode(buffer);
    if decoded.None? {
      return Panicked;
    }
    var text := decoded.value;
    var c3 := CharIndex(text, 3);
    if c3.None? {
      return Panicked;
    }
    var command := text[..c3.value];
    if command !in {"GET", "SET", "DEL"} {
      return Rejected(Errors.FromCode(Errors.InvalidRequestCmd));
    }
    var c4 := CharIndex(text, 4);
    if c4.None? {
      return Panicked;
    }
    if command == "GET" {
      var key := UntilNewline(text, c4.value);
      var value := cache.Get(key);
      match value
      case Some(v) => handled := Replied(Parser.BuildHitResponse(key, v));
      case None => handled := Replied(Parser.BuildMissResponse(key));
    } else if command == "SET" {
      var key := UntilWhitespace(text, c4.value);
      var c8 := CharIndex(text, 8);
      if c8.None? {
        return Panicked;
      }
      cache.Put(key, UntilNull(text, c8.value));
      handled := Replied(Parser.BuildOkResponse());
    } else {
      var _ := cache.Pop(UntilNewline(text, c4.value));
      handled := Replied(Parser.BuildOkResponse());
    }
  }

  // ---------------------------------------------------------------- the process

  /** What the process wrote, whether it ended in a panic, and the cache it was left with. */
  datatype Session = Session(sent: seq<seq<byte>>, panicked: bool, entries: seq<Lru.Entry>)

  /** The serving loop over successive frames; `None` is a failed read, which panics. */
  function Serving(entries: seq<Lru.Entry>, capacity: nat, frames: seq<Option<seq<byte>>>): (r: Session)
    requires capacity >= 1
    ensures Lru.Bounded(entries, capacity) ==> Lru.Bounded(r.entries, capacity)
    ensures |r.sent| <= |frames|
    ensures !r.panicked ==> |r.sent| == |frames|
    decreases |frames|
  {
    if frames == [] then Session([], false, entries)
    else if frames[0].None? then Session([], true, entries)
    else
      var (handled, next) := Respond(entries, capacity, frames[0].value);
      if handled.Panicked? then Session([], true, entries)
      else Prepend([handled.Output()], Serving(next, capacity, frames[1..]))
  }

  /** The serving loop at frame `i`: a failed read or a panic ends it, anything else is written and the loop goes on. */
  lemma ServingAt(entries: seq<Lru.Entry>, capacity: nat, frames: seq<Option<seq<byte>>>, i: nat)
    requires capacity >= 1 && i < |frames|
    ensures frames[i].None? ==> Serving(entries, capacity, frames[i..]) == Session([], true, entries)
    ensures frames[i].Some? ==>
      var (handled, next) := Respond(entries, capacity, frames[i].value);
      Serving(entries, capacity, frames[i..])
      == if handled.Panicked? then Session([], true, entries)
         else Prepend([handled.Output()], Serving(next, capacity, frames[i + 1..]))
  {
    assert frames[i..][0] == frames[i] && frames[i..][1..] == frames[i + 1..];
  }

  /** A session preceded by earlier writes. */
  function Prepend(sent: seq<seq<byte>>, s: Session): (r: Session)
    ensures |r.sent| == |sent| + |s.sent| && r.sent[..|sent|] == sent
    ensures r.panicked == s.panicked && r.entries == s.entries
  {
    Session(sent + s.sent, s.panicked, s.entries)
  }

  lemma PrependTwice(a: seq<seq<byte>>, b: seq<seq<byte>>, s: Session)
    ensures Prepend(a, Prepend(b, s)) == Prepend(a + b, s)
  {
    assert a + (b + s.sent) == (a + b) + s.sent;
  }

  /** How the ACK check after `NTF` ends. */
  datatype Registration = Acknowledged | Unconfirmed | Refused

  /**
   * The handshake. A failed read is reported and serving goes on unconfirmed; a
   * reply that is not UTF-8, or whose first three of at least four characters are
   * not "ACK", panics.
   */
  function Handshake(read: Option<seq<byte>>): (r: Registration)
    ensures r == Unconfirmed <==> read.None?
    ensures read.Some? ==>
      (r == Acknowledged <==>
         Decode(read.value).Some? && |Decode(read.value).value| >= 4 && Decode(read.value).value[..3] == "ACK")
    ensures r == Acknowledged ==> read.Some? && |read.value| >= 4 && read.value[..3] == Encode("ACK")
  {
    match read
    case None => Unconfirmed
    case Some(buffer) =>
      match Decode(buffer)
      case None => Refused
      case Some(text) =>
        if |text| >= 4 && text[..3] == "ACK" then
          AckBytes(text, buffer);
          Acknowledged
        else Refused
  }

  lemma AckBytes(text: string, buffer: seq<byte>)
    requires Decode(buffer) == Some(text) && |text| >= 4 && text[..3] == "ACK"
    ensures |buffer| >= 4 && buffer[..3] == Encode("ACK")
  {
    EncodeDecode(buffer);
    AckPrefix(text, buffer);
  }

  lemma AckPrefix(text: string, buffer: seq<byte>)
    requires Encode(text) == buffer && |text| >= 4 && text[..3] == "ACK"
    ensures |buffer| >= 4 && buffer[..3] == Encode("ACK")
  {
    var head, tail := text[..3], text[3..];
    assert text == head + tail;
    EncodeAppend(head, tail);
    assert Encode(tail) == EncodeChar(tail[0]) + Encode(tail[1..]);
    assert IsAscii(head);
    EncodeAscii(head);
    assert buffer == Encode(head) + Encode(tail);
  }

  /** The bytes the agent announces itself with: `NTF`, with no terminator. */
  function NotifyBytes(): (r: seq<byte>)
    ensures |r| == 3 && 0 !in r
    ensures Decode(r) == Some("NTF")
  {
    assert IsAscii("NTF");
    EncodeAscii("NTF");
    EncodeHasNul("NTF");
    DecodeEncode("NTF");
    Encode("NTF")
  }

  /** The whole life of the agent: announce, check the ACK, then serve with an empty cache of capacity 2. */
  function Lifetime(ackRead: Option<seq<byte>>, frames: seq<Option<seq<byte>>>): (r: Session)
    ensures |r.sent| >= 1 && r.sent[0] == NotifyBytes()
    ensures Lru.Bounded(r.entries, CacheCapacity)
    ensures Handshake(ackRead) == Refused ==> r.panicked && r.sent == [NotifyBytes()] && r.entries == []
    ensures !r.panicked ==> |r.sent| == |frames| + 1
  {
    if Handshake(ackRead) == Refused then Session([NotifyBytes()], true, [])
    else Prepend([NotifyBytes()], Serving([], CacheCapacity, frames))
  }

  /** `main` after the connection is made: the notify, the handshake and the serving loop. */
  method Run(ackRead: Option<seq<byte>>, frames: seq<Option<seq<byte>>>) returns (session: Session)
    ensures session == Lifetime(ackRead, frames)
  {
    var cache := new Lru.LruCache(CacheCapacity);
    var sent := [NotifyBytes()];
    if Handshake(ackRead) == Refused {
      return Session(sent, true, cache.entries);
    }
    var i := 0;
    while i < |frames|
      invariant 0 <= i <= |frames|
      invariant cache.Valid() && cache.capacity == CacheCapacity
      invariant Lifetime(ackRead, frames) == Prepend(sent, Serving(cache.entries, CacheCapacity, frames[i..]))
    {
      var frame := frames[i];
      ServingAt(cache.entries, CacheCapacity, frames, i);
      if frame.None? {
        return Session(sent, true, cache.entries);
      }
      var before := cache.entries;
      var handled := HandleFrame(cache, frame.value);
      if handled.Panicked? {
        return Session(sent, true, before);
      }
      PrependTwice(sent, [handled.Output()], Serving(cache.entries, CacheCapacity, frames[i + 1..]));
      sent := sent + [handled.Output()];
      i := i + 1;
    }
    assert frames[i..] == [];
    session := Session(sent, false, cache.entries);
  }

  // ---------------------------------------------------------------- properties

  /** A buffer holding the encoding of a text is handled as that text. */
  lemma RespondEncoded(entries: seq<Lru.Entry>, capacity: nat, text: string)
    requires capacity >= 1
    ensures Respond(entries, capacity, Encode(text)) == Answer(entries, capacity, text)
  {
    DecodeEncode(text);
  }

  /** The master reads the announcement as a Notify request. */
  lemma NotifyIsUnderstood()
    ensures Parser.ParseRequest(NotifyBytes()) == Parser.Success(Parser.ParsedRequest(Parser.Notify, None, None, None, "NTF"))
  {
    Parser.ParseUnterminated("NTF");
    Parser.CommandAlone(Parser.Notify);
  }

  /** The master's ACK frame is accepted, whatever UTF-8 follows it in the buffer. */
  lemma AckIsAccepted(rest: string)
    ensures Handshake(Some(Parser.BuildAckResponse() + Encode(rest))) == Acknowledged
  {
    AckFrameDecodes(rest);
    assert ("ACK\0" + rest)[..3] == "ACK";
  }

  lemma AckFrameDecodes(rest: string)
    ensures Decode(Parser.BuildAckResponse() + Encode(rest)) == Some("ACK\0" + rest)
  {
    var text := "ACK\0" + rest;
    assert "ACK\0" == "ACK" + "\0";
    EncodeAppend("ACK", "\0");
    EncodeAppend("ACK\0", rest);
    assert Encode("\0") == [0];
    assert Parser.BuildAckResponse() + Encode(rest) == Encode(text);
    DecodeEncode(text);
  }

  /** A master that answers the announcement with an ERR frame is refused, whatever the code. */
  lemma ErrorFrameRefused(c: Errors.ErrorCode)
    ensures Handshake(Some(Parser.BuildErrorResponse(Errors.FromCode(c)))) == Refused
  {
    var text := Parser.ErrorText(Errors.FromCode(c)) + "\0";
    EncodeAppend(Parser.ErrorText(Errors.FromCode(c)), "\0");
    assert Encode("\0") == [0];
    assert Parser.BuildErrorResponse(Errors.FromCode(c)) == Encode(text);
    DecodeEncode(text);
    assert text[..3] == "ERR";
  }

  /** The head of a text built from an ASCII command, a space and more. */
  lemma CommandHead(command: string, text: string)
    requires |command| == 3 && IsAscii(command) && |text| >= 4 && text[..3] == command && text[3] == ' '
    ensures CharIndex(text, 3) == Some(3) && CharIndex(text, 4) == Some(4)
  {
    assert text[..4] == command + " ";
    assert IsAscii(text[..4]);
    assert text[..4][..3] == text[..3];
    CharIndexAscii(text, 3);
    CharIndexAscii(text, 4);
  }

  /** A GET or DEL key ends at the first newline after offset 4. */
  lemma KeyToNewline(head: string, key: string, rest: string)
    requires |head| == 4 && '\n' !in key
    ensures UntilNewline(head + key + "\n" + rest, 4) == key
  {
    var text := head + key + "\n" + rest;
    assert text[4..] == key + ("\n" + rest);
    Parser.UpToAppend(key, "\n" + rest, '\n');
    Parser.UpToUnique(key, '\n', key);
  }

  /**
   * The dispatch table of the serving loop once offsets 3, 4 and 8 fall on character
   * boundaries: which reply and which cache update each of GET, SET and DEL makes.
   */
  lemma AnswerCommands(entries: seq<Lru.Entry>, capacity: nat, text: string)
    requires capacity >= 1 && CharIndex(text, 3) == Some(3) && CharIndex(text, 4) == Some(4)
    ensures text[..3] == "GET" ==>
      var key := UntilNewline(text, 4);
      Answer(entries, capacity, text)
      == (Replied(match Lru.Lookup(entries, key)
                  case Some(v) => Parser.BuildHitResponse(key, v)
                  case None => Parser.BuildMissResponse(key)),
          Lru.Touched(entries, key))
    ensures text[..3] == "SET" && CharIndex(text, 8) == Some(8) ==>
      Answer(entries, capacity, text)
      == (Replied(Parser.BuildOkResponse()), Lru.Inserted(entries, capacity, UntilWhitespace(text, 4), UntilNull(text, 8)))
    ensures text[..3] == "DEL" ==>
      Answer(entries, capacity, text) == (Replied(Parser.BuildOkResponse()), Lru.Removed(entries, UntilNewline(text, 4)))
  {
  }

  /** GET: the key runs from offset 4 to the newline; a cached key is a hit and becomes most recent, otherwise a miss. */
  lemma GetAnswers(entries: seq<Lru.Entry>, capacity: nat, key: string, rest: string)
    requires capacity >= 1 && '\n' !in key
    ensures var r := Answer(entries, capacity, "GET " + key + "\n" + rest);
      && r.1 == Lru.Touched(entries, key)
      && r.0 == Replied(match Lru.Lookup(entries, key)
                        case Some(v) => Parser.BuildHitResponse(key, v)
                        case None => Parser.BuildMissResponse(key))
  {
    var text := "GET " + key + "\n" + rest;
    CommandHead("GET", text);
    KeyToNewline("GET ", key, rest);
    AnswerCommands(entries, capacity, text);
  }

  /**
   * A GET written without a newline keeps the NUL padding in its key, so it asks
   * for a different key than the one written.
   */
  lemma GetWithoutNewlineKeepsPadding(entries: seq<Lru.Entry>, capacity: nat, key: string, padding: string)
    requires capacity >= 1 && '\n' !in key && padding != []
    requires forall i :: 0 <= i < |padding| ==> padding[i] == '\0'
    ensures Answer(entries, capacity, "GET " + key + padding).0
         == Replied(match Lru.Lookup(entries, key + padding)
                    case Some(v) => Parser.BuildHitResponse(key + padding, v)
                    case None => Parser.BuildMissResponse(key + padding))
    ensures key + padding != key
  {
    var text := "GET " + key + padding;
    var k := key + padding;
    assert '\n' !in padding;
    assert text == "GET " + k;
    assert text[3] == ' ';
    CommandHead("GET", text);
    assert text[4..] == k;
    Parser.UpToUnique(k, '\n', k);
    AnswerCommands(entries, capacity, text);
  }

  /** The value field of a SET whose key has three characters starts at offset 8. */
  lemma SetFieldsAt(key: string, value: string, rest: string)
    requires |key| == 3 && IsAscii(key) && Parser.NoWhitespace(key) && '\0' !in value
    ensures var text := "SET " + key + " " + value + "\0" + rest;
      && CharIndex(text, 3) == Some(3) && CharIndex(text, 4) == Some(4) && CharIndex(text, 8) == Some(8)
      && text[..3] == "SET" && UntilWhitespace(text, 4) == key && UntilNull(text, 8) == value
  {
    SetHeadIndexes(key, value, rest);
    SetKeyField(key, value, rest);
    SetValueField(key, value, rest);
  }

  lemma SetHeadIndexes(key: string, value: string, rest: string)
    requires |key| == 3 && IsAscii(key)
    ensures var text := "SET " + key + " " + value + "\0" + rest;
      && CharIndex(text, 3) == Some(3) && CharIndex(text, 4) == Some(4) && CharIndex(text, 8) == Some(8)
      && text[..3] == "SET"
  {
    var text := "SET " + key + " " + value + "\0" + rest;
    CommandHead("SET", text);
    var head := text[..8];
    assert head == "SET " + key + " ";
    assert IsAscii(head) by {
      forall i | 0 <= i < 8 ensures head[i] as int < 0x80 {
        if 4 <= i < 7 {
          assert head[i] == key[i - 4];
        }
      }
    }
    CharIndexAscii(text, 8);
  }

  lemma SetKeyField(key: string, value: string, rest: string)
    requires |key| == 3 && Parser.NoWhitespace(key)
    ensures UntilWhitespace("SET " + key + " " + value + "\0" + rest, 4) == key
  {
    var text := "SET " + key + " " + value + "\0" + rest;
    assert text[4..7] == key && text[7] == ' ';
    UntilWhitespaceOf(text, 4, key);
  }

  lemma SetValueField(key: string, value: string, rest: string)
    requires |key| == 3 && '\0' !in value
    ensures UntilNull("SET " + key + " " + value + "\0" + rest, 8) == value
  {
    var text := "SET " + key + " " + value + "\0" + rest;
    assert text[8..] == value + ("\0" + rest);
    Parser.UpToAppend(value, "\0" + rest, '\0');
    Parser.UpToUnique(value, '\0', value);
  }

  /** SET with a three-character key: the value after it, up to the NUL, is stored, and the reply is OK. */
  lemma SetStores(entries: seq<Lru.Entry>, capacity: nat, key: string, value: string, rest: string)
    requires capacity >= 1 && |key| == 3 && IsAscii(key) && Parser.NoWhitespace(key) && '\0' !in value
    ensures var r := Answer(entries, capacity, "SET " + key + " " + value + "\0" + rest);
      && r.0 == Replied(Parser.BuildOkResponse())
      && r.1 == Lru.Inserted(entries, capacity, key, value)
      && Lru.Lookup(r.1, key) == Some(value)
  {
    SetFieldsAt(key, value, rest);
    AnswerCommands(entries, capacity, "SET " + key + " " + value + "\0" + rest);
  }

  /** The SET value is read from offset 8 whatever the key's length: after "SET a 1" the key "a" holds "". */
  lemma SetValueAtOffsetEight()
    ensures Answer([], CacheCapacity, "SET a 1\0\0") == (Replied(Parser.BuildOkResponse()), [Lru.Entry("a", "")])
  {
    var text := "SET a 1\0\0";
    ShortKeyFields(text);
    AnswerCommands([], CacheCapacity, text);
    assert Lru.Inserted([], CacheCapacity, "a", "") == [Lru.Entry("a", "")];
  }

  lemma ShortKeyFields(text: string)
    requires text == "SET a 1\0\0"
    ensures CharIndex(text, 3) == Some(3) && CharIndex(text, 4) == Some(4) && CharIndex(text, 8) == Some(8)
    ensures text[..3] == "SET" && UntilWhitespace(text, 4) == "a" && UntilNull(text, 8) == ""
  {
    assert IsAscii(text[..8]);
    CharIndexAscii(text, 3);
    CharIndexAscii(text, 4);
    CharIndexAscii(text, 8);
    UntilWhitespaceOf(text, 4, "a");
    Parser.UpToUnique(text[8..], '\0', "");
  }

  /** DEL: the key up to the newline is removed, present or not, and the reply is OK either way. */
  lemma DelRemoves(entries: seq<Lru.Entry>, capacity: nat, key: string, rest: string)
    requires capacity >= 1 && '\n' !in key && Lru.DistinctKeys(entries)
    ensures var r := Answer(entries, capacity, "DEL " + key + "\n" + rest);
      && r.0 == Replied(Parser.BuildOkResponse())
      && r.1 == Lru.Removed(entries, key)
      && Lru.Lookup(r.1, key).None?
  {
    var text := "DEL " + key + "\n" + rest;
    CommandHead("DEL", text);
    KeyToNewline("DEL ", key, rest);
    AnswerCommands(entries, capacity, text);
  }

  /** Any other three ASCII characters get the InvalidRequestCmd text and leave the cache alone. */
  lemma OtherCommandsRejected(entries: seq<Lru.Entry>, capacity: nat, command: string, rest: string)
    requires capacity >= 1 && |command| == 3 && IsAscii(command) && command !in {"GET", "SET", "DEL"}
    ensures Answer(entries, capacity, command + rest)
         == (Rejected(Errors.FromCode(Errors.InvalidRequestCmd)), entries)
  {
    var text := command + rest;
    assert text[..3] == command;
    CharIndexAscii(text, 3);
  }

  /** The "Error: " text holds no NUL, and the master would not read it as a frame. */
  lemma ErrorReplyIsNoFrame(c: Errors.ErrorCode)
    ensures 0 !in ErrorReply(Errors.FromCode(c))
    ensures Parser.ParseRequest(ErrorReply(Errors.FromCode(c))) == Parser.Failure(Errors.FromCode(Errors.InvalidRequestCmd))
  {
    var msg := Errors.FromCode(c).msg;
    var text := "Error: " + msg;
    ErrorReplyTextHasNoNul(c);
    EncodeHasNul(text);
    Parser.ParseUnterminated(text);
    ErrorTextIsUnknown(msg);
  }

  lemma ErrorReplyTextHasNoNul(c: Errors.ErrorCode)
    ensures '\0' !in "Error: " + Errors.FromCode(c).msg
  {
    Errors.MessageHasNoNul(c);
    assert '\0' !in "Error: ";
  }

  lemma ErrorTextIsUnknown(msg: string)
    ensures Parser.ParseText("Error: " + msg) == Parser.Failure(Errors.FromCode(Errors.InvalidRequestCmd))
  {
    var text := "Error: " + msg;
    assert text == "Error:" + [' '] + msg;
    assert Parser.NoWhitespace("Error:");
    Parser.SplitOnceOf("Error:", ' ', msg);
    Parser.CommandTokens("Error:");
    Parser.UnknownCommand(text);
  }

  /** The cache's own unit test, through the handler: SET then GET of the same key is a hit with that value. */
  lemma SetThenGet(key: string, value: string, rest1: string, rest2: string)
    requires |key| == 3 && IsAscii(key) && Parser.NoWhitespace(key) && '\0' !in value && '\n' !in key
    ensures Serving([], CacheCapacity, [Some(Encode("SET " + key + " " + value + "\0" + rest1)),
                                        Some(Encode("GET " + key + "\n" + rest2))]).sent
         == [Parser.BuildOkResponse(), Parser.BuildHitResponse(key, value)]
  {
    var setFrame := Encode("SET " + key + " " + value + "\0" + rest1);
    var getFrame := Encode("GET " + key + "\n" + rest2);
    var after := Lru.Inserted([], CacheCapacity, key, value);
    SetFrameStores(key, value, rest1);
    GetFrameHits(after, key, value, rest2);
    ServingTwo([], CacheCapacity, setFrame, getFrame,
               Parser.BuildOkResponse(), after, Parser.BuildHitResponse(key, value));
  }

  /** Two frames answered one after the other: the two replies, in order. */
  lemma ServingTwo(entries: seq<Lru.Entry>, capacity: nat, first: seq<byte>, second: seq<byte>,
                   reply1: seq<byte>, next: seq<Lru.Entry>, reply2: seq<byte>)
    requires capacity >= 1
    requires Respond(entries, capacity, first) == (Replied(reply1), next)
    requires Respond(next, capacity, second).0 == Replied(reply2)
    ensures Serving(entries, capacity, [Some(first), Some(second)]).sent == [reply1, reply2]
  {
    var frames := [Some(first), Some(second)];
    ServingAt(entries, capacity, frames, 0);
    ServingAt(next, capacity, frames, 1);
    assert frames[0..] == frames && frames[2..] == [];
  }

  lemma SetFrameStores(key: string, value: string, rest: string)
    requires |key| == 3 && IsAscii(key) && Parser.NoWhitespace(key) && '\0' !in value
    ensures var after := Lru.Inserted([], CacheCapacity, key, value);
      && Respond([], CacheCapacity, Encode("SET " + key + " " + value + "\0" + rest))
         == (Replied(Parser.BuildOkResponse()), after)
      && Lru.Lookup(after, key) == Some(value)
  {
    RespondEncoded([], CacheCapacity, "SET " + key + " " + value + "\0" + rest);
    SetStores([], CacheCapacity, key, value, rest);
  }

  lemma GetFrameHits(entries: seq<Lru.Entry>, key: string, value: string, rest: string)
    requires '\n' !in key && Lru.Lookup(entries, key) == Some(value)
    ensures Respond(entries, CacheCapacity, Encode("GET " + key + "\n" + rest)).0
         == Replied(Parser.BuildHitResponse(key, value))
  {
    RespondEncoded(entries, CacheCapacity, "GET " + key + "\n" + rest);
    GetAnswers(entries, CacheCapacity, key, rest);
  }

  /** One answered frame, then the rest of the session. */
  lemma ServingStep(entries: seq<Lru.Entry>, capacity: nat, buffer: seq<byte>, frames: seq<Option<seq<byte>>>)
    requires capacity >= 1 && !Respond(entries, capacity, buffer).0.Panicked?
    ensures var (handled, next) := Respond(entries, capacity, buffer);
      Serving(entries, capacity, [Some(buffer)] + frames) == Prepend([handled.Output()], Serving(next, capacity, frames))
  {
    assert ([Some(buffer)] + frames)[1..] == frames;
  }
}
