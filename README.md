# hit-or-miss in Dafny

hit-or-miss is a small distributed key-value cache. A **master** node accepts
one request per client connection. It decodes the request with the shared
wire codec and routes it by command:
- GET, SET, DEL and LSD go to the partition that a consistent-hashing ring
  names for the key;
- NTF registers the connecting peer as a new partition;
- LSP lists the registered partitions;
- the reply commands are rejected.

A **partition** node announces itself with `NTF` and checks for the master's
`ACK`. It then answers GET, SET and DEL frames from an LRU cache that holds
two entries.

This project models the four core source files and proves properties of the
model:

| file | module | form |
|---|---|---|
| `src/error.rs` | `Errors` (`error.dfy`) | functions over the code table |
| `src/parser.rs` | `Parser` (`parser.dfy`) | `parse_request` as a function over bytes; the frame builders as functions; `build_lsd_response` as a method with a loop over the cache object |
| `src/bin/master.rs` | `Master` (`master.dfy`) | each handler as a function from the shared state to an `Effect`; the shared ring and partition set as fields of the class `MasterNode`, whose methods update them in place |
| `src/bin/partition.rs` | `PartitionAgent` (`partition.dfy`) | one pass of the serving loop as `Respond`; the loop itself as the method `Run`, which drives an `Lru.LruCache` object |

Two supporting modules:
- `Utf8` (`utf8.dfy`) models `str::from_utf8` and `String::into_bytes`. The
  decoder accepts the well-formed sequences of Table 3-7 of the Unicode
  Standard, and both round trips are proved.
- `Lru` (`lru.dfy`) models the behaviour of `lru::LruCache` that the
  partition relies on: `get`, `put`, `pop` and `iter`.

`wrappers.dfy` holds the `Option` type.

**Outcomes and panics.** A Rust `Result<_, Error>` becomes
`Parser.Outcome`: `Success`, `Failure(err)`, or `Panic`. `Panic` stands for
every `unwrap` or `panic!` that fires on the path, for example a
non-numeric ERR code reaching `parse().unwrap()`.

**Outside inputs.** Everything outside the process is an input:
- the bytes read from a socket;
- whether a write succeeds;
- the ring's hash lookup;
- the uuid, the clock and the socket handle a new partition gets;
- the `Debug` rendering of the partition list.

The ring lookup is any function that names one of the ring's members, and
names none only when the ring is empty. The predicate `LookupSound` states
this.

**Byte offsets.** The partition slices its decoded buffer at byte offsets 3,
4 and 8. `CharIndex` turns a byte offset into a character index, or into
`None` when the offset is not a character boundary. At `None` the slice
panics, as `str` indexing does.

**Where the code is followed.** The model follows the code wherever a
description of the protocol differs from it:
- The master forwards LSD to a partition. The partition does not answer LSD;
  it returns its "Error: …" text instead.
- The miss reply is `MSS`.
- The partition announces itself with `NTF` and no NUL.
- The partition's error reply is the text `Error: ` plus the message, not an
  ERR frame.
- The SET value is read from byte 8, whatever the key's length.
- GET and DEL keys run to a newline, not to the NUL.

## Model

| member | source | states |
|---|---|---|
| Utf8.EncodeChar | src/parser.rs:117-151 | a character encodes to 1 to 4 bytes; one byte exactly for ASCII, equal to its code; every byte of a longer sequence has the high bit set |
| Utf8.DecodeFirstEncodeChar | src/parser.rs:34-35 | decoding a character's encoding, whatever follows it, gives that character and its width back |
| Utf8.EncodeCharDecodeFirst | src/parser.rs:34-35 | a well-formed leading sequence is exactly the encoding of the character it decodes to |
| Utf8.EncodeAppend | src/parser.rs:117-151 | the encoding of joined texts is the encodings joined, as `format!` then `into_bytes` produce |
| Utf8.DecodeEncode | src/parser.rs:34-35 | `from_utf8` accepts every encoded text and returns that text |
| Utf8.EncodeDecode | src/parser.rs:34-35 | bytes `from_utf8` accepts are exactly the encoding of the text it returns, so the round trip is exact in both directions |
| Utf8.EncodeHasNul | src/parser.rs:30-35 | an encoding holds a zero byte if and only if the text holds NUL |
| Utf8.EncodeAscii | src/bin/partition.rs:96 | ASCII text encodes to one byte per character, equal to the character's code |
| Errors.FromU8 | src/error.rs:37-50 | the numbers 1 to 9 name codes other than Unknown; every other byte gives Unknown |
| Errors.ToU8 | src/error.rs:51-64 | a code's wire number lies in 1..10, `from_u8` reads it back, and 10 is Unknown's alone |
| Errors.ToU8Injective | src/error.rs:51-64 | distinct codes have distinct wire numbers |
| Errors.ToU8FromU8 | src/error.rs:37-50 | for 1 to 9, `to_u8(from_u8(n)) == n` |
| Errors.Message | src/error.rs:3-14 | every message has more than one character |
| Errors.FromCode | src/error.rs:74-89 | the error carries the code it was built from and a non-empty message |
| Errors.ErrorFromU8 | src/error.rs:90-92 | `Error::from_u8` is `from_code` after `ErrorCode::from_u8`; numbers outside 1..9 give Unknown |
| Errors.MessageDeterminesCode | src/error.rs:74-89 | no two codes share a message |
| Errors.MessageHasNoNul | src/error.rs:3-14 | no message contains NUL, so an ERR frame is not cut inside its message |
| Lru.Lookup | src/bin/partition.rs:99 | the cache finds a key if and only if some entry has that key, and what it finds is that entry's value |
| Lru.Removed | src/bin/partition.rs:119 | `pop` leaves no entry for the key, changes no other key's value, and keeps keys distinct with one entry fewer when the key was present |
| Lru.Touched | src/bin/partition.rs:99 | a `get` changes no key's value and moves a found key to the most-recent end; a missing key leaves the order alone |
| Lru.KeyIndex | src/bin/partition.rs:99 | a cached key sits at one position, which holds its entry, with no entry for it before |
| Lru.RemovedKeepsOrder | src/bin/partition.rs:119 | with one entry per key, `pop` cuts out exactly the key's entry and keeps the others in their recency order |
| Lru.TouchedOrder | src/bin/partition.rs:99 | a successful `get` moves the key's entry to the front and keeps the others in their recency order |
| Lru.Inserted | src/bin/partition.rs:114 | after `put` the key is most recent and holds the new value; no other key gains a value it did not have; the one-entry-per-key and capacity bound are kept |
| Lru.RemovedAbsent | src/bin/partition.rs:119 | popping an absent key changes nothing |
| Lru.InsertedKeepsOthers | src/bin/partition.rs:114 | with room left, or for a key already cached, `put` loses no other entry |
| Lru.InsertedEvictsLeastRecent | src/bin/partition.rs:114 | a new key in a full cache evicts exactly the least recently used entry |
| Lru.TouchedSurvivesNextInsert | src/bin/partition.rs:97-116 | a key just read by GET survives the next SET of another key into a full cache |
| Lru.LruCache.constructor | src/bin/partition.rs:31 | a new cache is empty, with the given non-zero capacity |
| Lru.LruCache.Get | src/bin/partition.rs:99 | returns the cached value and applies `Touched` to the entries, keeping the invariant |
| Lru.LruCache.Put | src/bin/partition.rs:114 | the entries become `Inserted` of the old ones, keeping the invariant |
| Lru.LruCache.Pop | src/bin/partition.rs:119 | returns the value that was cached and the entries become `Removed` of the old ones |
| Parser.UpTo | src/parser.rs:30-32 | truncation at the first stop element: a prefix without the stop, followed by the stop or by the end |
| Parser.UpToUnique | src/parser.rs:30-32 | those three facts single out the truncation |
| Parser.TruncateEncoded | src/parser.rs:30-35 | cutting the bytes at the first zero byte is encoding the text cut at its first NUL |
| Parser.SplitOnce | src/parser.rs:36 | one step of `splitn` on whitespace: a field without whitespace, then what follows the separator, or the whole text when there is no separator |
| Parser.SplitN3 | src/parser.rs:36 | `splitn(3, is_whitespace)` gives one to three fields; the first two have no whitespace; one field is the whole text |
| Parser.SplitN3Three | src/parser.rs:36 | two fields, each followed by whitespace, then any remainder, split into exactly those three parts |
| Parser.WhitespaceIndex | src/parser.rs:36 | the first whitespace position: no whitespace before it, and whitespace at it unless it is the end |
| Parser.DropTrailingPart | src/parser.rs:37-39 | the fields lose at most their last one, and lose it exactly when it is empty, a newline or a NUL |
| Parser.CommandOf | src/parser.rs:81-94 | a recognised first field is exactly its command's token |
| Parser.CommandTokens | src/parser.rs:77-96 | every token names its command, and a field is unrecognised if and only if it is no command's token |
| Parser.ExtractCmd | src/parser.rs:77-96 | a recognised command is the one whose token is the first field; no fields fail with NotEnoughArgs, an unknown token with InvalidRequestCmd |
| Parser.ExtractKey | src/parser.rs:98-107 | fails with NotEnoughArgs exactly when there is no second field; otherwise the key is the second field, or for GET with three fields the last two joined with backslash-zero replaced |
| Parser.ExtractValue | src/parser.rs:109-115 | succeeds exactly with three fields, and the value is the third |
| Parser.ParseU8 | src/parser.rs:73 | a text parses if and only if, after at most one leading `+`, it is one or more ASCII digits worth at most 255, and then it parses to that value; every other text gives nothing |
| Parser.ExtractError | src/parser.rs:69-75 | fails with NotEnoughArgs exactly when there are fewer than three fields; panics exactly when the code field is not a u8; otherwise carries the error of that number |
| Parser.ReplaceEscapedNul | src/parser.rs:102 | the replacement never lengthens the key and leaves it alone when it holds no backslash-zero pair |
| Parser.ReplaceAtPair | src/parser.rs:102 | the first backslash-zero pair becomes one NUL, the text before it is kept, and the rest is replaced in turn |
| Parser.Decimal | src/parser.rs:142 | `format!("{}", n)` gives non-empty digits whose value is n, with no leading zero: zero is written `0` |
| Parser.ParseDecimal | src/parser.rs:69-75 | every u8 written in decimal parses back to itself |
| Parser.ParseRequest | src/parser.rs:29-67 | on success, a key is present exactly for GET, SET, DEL and LSD, a value exactly for SET, an error exactly for ERR; a failure is InvalidSequence, NotEnoughArgs or InvalidRequestCmd |
| Parser.ParseText | src/parser.rs:36-66 | after decoding, `original_rq` is the decoded text, and a failure is NotEnoughArgs or InvalidRequestCmd |
| Parser.FromFields | src/parser.rs:41-66 | the same field-presence facts, with `original_rq` equal to the decoded text |
| Parser.Frame | src/parser.rs:117-151 | a built frame is the encoded text followed by one zero byte |
| Parser.BuildHitResponse | src/parser.rs:117-119 | the HIT frame ends with its NUL terminator |
| Parser.BuildLspResponse | src/parser.rs:129-131 | the LSP frame ends with its NUL terminator |
| Parser.BuildMissResponse | src/parser.rs:133-135 | the MSS frame ends with its NUL terminator |
| Parser.BuildOkResponse | src/parser.rs:137-139 | the OK frame ends with its NUL terminator |
| Parser.BuildErrorResponse | src/parser.rs:141-143 | the ERR frame ends with its NUL terminator |
| Parser.BuildNotifyRequest | src/parser.rs:145-147 | the NTF frame ends with its NUL terminator |
| Parser.BuildAckResponse | src/parser.rs:149-151 | the ACK frame ends with its NUL terminator |
| Parser.BuildLsdResponse | src/parser.rs:121-127 | the loop over the cache yields the encoding of one `Key: k, Value: v \n` line per entry, most recent first |
| Parser.LsdListing | src/parser.rs:121-127 | the dump is empty exactly for an empty cache, and otherwise ends with a newline |
| Parser.OnlyBytesBeforeNulMatter | src/parser.rs:30-32 | whatever follows the first zero byte does not change the decoded request |
| Parser.SamePrefixSameRequest | src/parser.rs:30-32 | two buffers that agree up to their first zero byte decode alike |
| Parser.ParseUnterminated | src/parser.rs:29-35 | a NUL-free text sent without a terminator decodes as that text |
| Parser.OriginalRequestIsPrefix | src/parser.rs:60-66 | `original_rq`, re-encoded, is exactly the bytes before the first zero byte |
| Parser.InvalidSequenceExactly | src/parser.rs:34-35 | decoding fails with InvalidSequence if and only if the bytes before the first zero byte are not UTF-8 |
| Parser.EmptyRequest | src/parser.rs:77-80 | an empty buffer fails with NotEnoughArgs |
| Parser.UnknownCommand | src/parser.rs:81-94 | a first field outside the token table, compared case-sensitively, fails with InvalidRequestCmd |
| Parser.CommandAlone | src/parser.rs:41-58 | a token alone fails with NotEnoughArgs for the keyed commands and ERR, and decodes bare for the others |
| Parser.CommandWithoutKey | src/parser.rs:43-53 | commands without a key ignore whatever follows their token |
| Parser.OneKeyField | src/parser.rs:98-115 | GET, DEL and LSD take a lone second field as the key; SET with only a key fails with NotEnoughArgs |
| Parser.ThreeFieldsOf | src/parser.rs:36-41 | a token followed by a field and a remainder is read as those three fields |
| Parser.SetFields | src/parser.rs:109-115 | SET's key is the second field and its value the whole remainder |
| Parser.GetFoldsKey | src/parser.rs:101-103 | GET with three fields joins the last two with a space into the key and turns backslash-zero into NUL |
| Parser.NoFoldingOutsideGet | src/parser.rs:98-106 | DEL and LSD with three fields keep only the second field as the key |
| Parser.ParseFrame | src/parser.rs:29-39 | decoding a built frame decodes its text up to the first NUL |
| Parser.BareFrameRoundTrip | src/parser.rs:137-151 | a frame holding only a token without arguments decodes to that command and nothing else |
| Parser.OkFrameRoundTrip | src/parser.rs:137-139 | the OK frame decodes to Ok |
| Parser.AckFrameRoundTrip | src/parser.rs:149-151 | the ACK frame decodes to Ack |
| Parser.NotifyFrameRoundTrip | src/parser.rs:145-147 | the NTF frame decodes to Notify |
| Parser.ErrorFrameRoundTrip | src/parser.rs:141-143 | an ERR frame decodes to Error and carries back the same code and message |
| Parser.ErrorTextFields | src/parser.rs:141-143 | an ERR frame's text has no NUL and splits into the token, the number and the whole message |
| Parser.ArgumentFrameRoundTrip | src/parser.rs:36-39 | a token without arguments, a space and any text decodes to that command with no fields read |
| Parser.HitFrameRoundTrip | src/parser.rs:117-119 | a HIT frame decodes to Hit |
| Parser.MissFrameRoundTrip | src/parser.rs:133-135 | an MSS frame decodes to Miss, with the key up to its first NUL kept in the text |
| Parser.LspFrameRoundTrip | src/parser.rs:129-131 | an LSP frame decodes to ListPartitions |
| Parser.LsdHasNoTerminator | src/parser.rs:121-127 | the cache dump has no NUL terminator: it is empty, or its last byte is a newline |
| Parser.LsdLineCount | src/parser.rs:121-127 | when keys and values hold no newline, the dump has exactly one newline per entry |
| Master.ContainsIffSameNode | src/bin/master.rs:52-64 | filing partitions by address is `HashSet` membership under address-only equality |
| Master.Unregister | src/bin/master.rs:217-220 | the partition's address leaves both ring and set, and every other entry is kept |
| Master.Register | src/bin/master.rs:325-326 | the ring files the new partition under its address; the set gains it unless an equal one is already there, which it then keeps; every other address keeps its ring and set entry |
| Master.UnregisterKeepsConsistent | src/bin/master.rs:217-220 | removal keeps ring and set holding the same addresses, each filed under its own |
| Master.RegisterKeepsConsistent | src/bin/master.rs:325-326 | registration keeps that invariant and files the address in both |
| Master.RegisterAgain | src/bin/master.rs:325-326 | a second NTF from the same address replaces the ring entry and leaves the set unchanged |
| Master.WriteClient | src/bin/master.rs:291 | a final `write_all(..).unwrap()` changes no state; when the client accepts it writes exactly the given bytes and ends as the handler would, and otherwise writes nothing and panics |
| Master.Target | src/bin/master.rs:228-235 | the responsible partition, when there is one, is a ring member |
| Master.TargetExists | src/bin/master.rs:228-235 | with a sound ring lookup, there is no responsible partition if and only if the request has no key or the ring is empty |
| Master.Padded | src/bin/master.rs:146-148 | the read buffer is 4096 bytes: the bytes read, then zeros |
| Master.PaddingIsInvisible | src/bin/master.rs:146-148 | the zero padding after the bytes read never changes the decoded request |
| Master.ConnectionIsDispatch | src/bin/master.rs:146-148 | a connection is dispatched on the request decoded from exactly the bytes read |
| Master.Route | src/bin/master.rs:151-176 | GET, SET, DEL and LSD are forwarded, NTF registers, LSP lists, and the five reply commands are rejected |
| Master.NoPartitionReply | src/bin/master.rs:293-300 | with no responsible partition the client gets ERR NoPartitionsInRing, nothing is relayed and the state is unchanged |
| Master.FailedExchangeEvicts | src/bin/master.rs:236-284 | a failed write, a failed read or a zero-byte read evicts the partition from ring and set and sends the fallback reply; the request was relayed unless the write failed |
| Master.AnsweredExchangeRelays | src/bin/master.rs:285-291 | a non-empty UTF-8 reply leaves the state alone and reaches the client unchanged |
| Master.Forward | src/bin/master.rs:222-302 | the state is unchanged or loses exactly the responsible partition; only that partition ever receives anything, and what it receives is the request's text; the task never returns an error |
| Master.FallbackReply | src/bin/master.rs:195-215 | only GET, SET and DEL get a fallback reply, and each is one NUL-terminated frame |
| Master.Fallback | src/bin/master.rs:195-215 | a failed forward's client side changes no state; the client gets the fallback reply when it accepts writes, and a failed write of that reply panics |
| Master.FallbackReplyMeaning | src/bin/master.rs:195-215 | only GET, SET and DEL get a fallback: GET with a key decodes as a miss for it, GET without one as ERR Unknown, SET and DEL as OK |
| Master.NotifyEnrols | src/bin/master.rs:318-329 | NTF answers ACK and files the peer in ring and set, every other entry and an equal partition already in the set kept as they were; when the ACK cannot be written it panics and nothing is filed |
| Master.Notify | src/bin/master.rs:318-329 | with the ACK written, the new state is `Register` of the new partition: the peer is filed in ring and set under its address, the set keeps an equal partition already there, and every other entry is kept; nothing is relayed; when the write fails it panics and nothing is filed |
| Master.List | src/bin/master.rs:304-316 | listing changes no state and relays nothing; the client gets the LSP frame of the current partition set, or the task panics |
| Master.ConnectionKeepsConsistent | src/bin/master.rs:135-193 | every connection leaves ring and set consistent |
| Master.Connection | src/bin/master.rs:135-193 | a failed read writes nothing, changes nothing and returns FailedSocketRead; a connection adds at most its own peer to ring and set; the only errors it returns are the failed read and the three decode errors |
| Master.Dispatch | src/bin/master.rs:149-181 | only forwarded requests and NTF change the state, only forwarded requests reach a partition, and the task returns an error exactly when decoding failed and the error reply was written, that error |
| Master.RelayIsReceivedPrefix | src/bin/master.rs:239-241 | only a decoded request with a key is relayed, and the relayed bytes are exactly those the client sent before its first zero byte |
| Master.RelayIsOriginal | src/bin/master.rs:239-241 | what is relayed is the request's `original_rq`, encoded |
| Master.DecodeFailure | src/bin/master.rs:178-181 | a request that fails to decode gets its error back as an ERR frame, and the task returns that error |
| Master.ReplyRejected | src/bin/master.rs:167-175 | a reply command sent to the master gets ERR UnsupportedCommandMaster and changes nothing |
| Master.MasterNode.constructor | src/bin/master.rs:100-103 | the master starts with an empty ring and partition set |
| Master.MasterNode.UnregisterPartition | src/bin/master.rs:217-220 | the fields become `Unregister` of the old state, keeping the invariant |
| Master.MasterNode.HandleNotify | src/bin/master.rs:318-329 | the fields and writes are those of `Notify` on the old state |
| Master.MasterNode.HandleList | src/bin/master.rs:304-316 | the LSP reply renders the current partition set, which is unchanged |
| Master.MasterNode.ForwardToPartition | src/bin/master.rs:222-302 | the fields, the relay and the client write are those of `Forward` on the old state |
| Master.MasterNode.HandleConnection | src/bin/master.rs:135-193 | the fields, the writes and the ending are those of `Connection` on the old state, keeping the invariant |
| PartitionAgent.UntilWhitespace | src/bin/partition.rs:135-141 | the slice from `start` holds no whitespace and ends at whitespace or at the end of the text |
| PartitionAgent.UntilNull | src/bin/partition.rs:143-148 | the slice from `start` holds no NUL and ends at a NUL or at the end of the text |
| PartitionAgent.UntilNewline | src/bin/partition.rs:150-155 | the slice from `start` holds no newline and ends at a newline or at the end of the text |
| PartitionAgent.UntilIsFirstStop | src/bin/partition.rs:143-155 | those facts single out the slice: it runs exactly to the first stop |
| PartitionAgent.CharIndex | src/bin/partition.rs:96 | a byte offset on a character boundary is the encoded length of the text before that character; otherwise no character starts there |
| PartitionAgent.CharIndexAscii | src/bin/partition.rs:96 | over an ASCII prefix, a byte offset is its own character index |
| PartitionAgent.ErrorReply | src/bin/partition.rs:169-173 | `send_error` writes `Error: ` and the message, with no terminator |
| PartitionAgent.ErrorReplyIsNoFrame | src/bin/partition.rs:169-173 | that text has no zero byte, and the codec reads it as an unknown command |
| PartitionAgent.Respond | src/bin/partition.rs:86-95 | a panic leaves the cache alone, and the capacity bound is kept |
| PartitionAgent.RespondEncoded | src/bin/partition.rs:88-95 | a buffer holding an encoded text is answered as that text |
| PartitionAgent.Answer | src/bin/partition.rs:96-126 | a panic leaves the cache alone, and every answer keeps the cache within its capacity |
| PartitionAgent.AnswerGet | src/bin/partition.rs:97-110 | GET always replies and changes no key's value |
| PartitionAgent.AnswerSet | src/bin/partition.rs:111-116 | SET either panics with the cache unchanged, or replies OK with the key now cached; other keys keep their values |
| PartitionAgent.OnlySetWrites | src/bin/partition.rs:96-126 | a key gains a new value only under an answer of OK |
| PartitionAgent.AnswerCommands | src/bin/partition.rs:96-121 | GET replies HIT or MSS and touches the key; SET puts the value read from offset 8; DEL pops the key and replies OK |
| PartitionAgent.GetAnswers | src/bin/partition.rs:97-110 | GET of a key ended by a newline is a hit with the cached value and makes it most recent, or a miss |
| PartitionAgent.GetWithoutNewlineKeepsPadding | src/bin/partition.rs:98 | a GET without a newline keeps the NUL padding in its key, so it looks up a different key than the one written |
| PartitionAgent.SetFieldsAt | src/bin/partition.rs:111-113 | for a three-character key, the key slice and the value slice from offset 8 are the fields written |
| PartitionAgent.SetStores | src/bin/partition.rs:111-116 | SET with a three-character key stores the value, replies OK, and a later lookup finds it |
| PartitionAgent.SetValueAtOffsetEight | src/bin/partition.rs:113 | the value is read from offset 8 whatever the key's length: after `SET a 1` the key `a` holds the empty value |
| PartitionAgent.DelRemoves | src/bin/partition.rs:117-121 | DEL removes the key, present or not, and replies OK |
| PartitionAgent.OtherCommandsRejected | src/bin/partition.rs:122-125 | any other three ASCII characters get the InvalidRequestCmd error and leave the cache alone |
| PartitionAgent.HandleFrame | src/bin/partition.rs:86-126 | one pass against the cache object has the reply and the new entries that `Respond` gives |
| PartitionAgent.Serving | src/bin/partition.rs:85-132 | the loop writes at most one reply per frame, exactly one each when it does not panic, and keeps the cache within capacity |
| PartitionAgent.ServingAt | src/bin/partition.rs:85-132 | at each frame, a failed read or a panic ends the loop; any other answer is written and the loop goes on with the new cache |
| PartitionAgent.ServingStep | src/bin/partition.rs:85-132 | an answered frame is written before the rest of the session |
| PartitionAgent.ServingTwo | src/bin/partition.rs:85-132 | two answered frames are written in order |
| PartitionAgent.SetThenGet | src/bin/partition.rs:161-166 | the cache unit test through the handler: SET then GET of the same key replies OK, then HIT with the value |
| PartitionAgent.Handshake | src/bin/partition.rs:36-83 | a failed read, and only that, leaves the registration unconfirmed; a read buffer is acknowledged if and only if it is UTF-8 of at least four characters starting with `ACK`, and then its bytes start with `ACK`; anything else panics |
| PartitionAgent.ErrorFrameRefused | src/bin/partition.rs:56-77 | a master that answers with an ERR frame, whatever the code, is refused |
| PartitionAgent.AckIsAccepted | src/bin/partition.rs:58-70 | the master's ACK frame is acknowledged whatever UTF-8 follows it |
| PartitionAgent.NotifyIsUnderstood | src/bin/partition.rs:33 | the master decodes the announcement `NTF` as a Notify request |
| PartitionAgent.NotifyBytes | src/bin/partition.rs:33 | the announcement is three bytes with no zero byte, and it decodes to `NTF` |
| PartitionAgent.Lifetime | src/bin/partition.rs:28-132 | the first thing sent is `NTF`; a refused ACK panics with nothing else sent and an empty cache; a session that does not panic sends one reply per frame after `NTF`; the cache never exceeds its capacity of 2 |
| PartitionAgent.Run | src/bin/partition.rs:28-132 | the loop against the cache object sends and ends exactly as `Lifetime` says |

## Left out

- Sockets, tokio tasks, the mutexes and concurrency. Each connection is one
  atomic step on the shared state; interleavings between connections are not
  modelled.
- The internals of the `hash_ring` crate. The lookup is a parameter
  constrained by `LookupSound`. The crate is not part of this model, so
  `add_node` is assumed to replace a node that hashes the same.
- The uuid, the clock, `chrono` and the `Debug` formatting of partitions. These
  are the `Env` fields and the `render` parameter.
- `tracing` events and `clap` argument parsing. The master's
  `from_utf8(..).unwrap()` in a debug event is modelled: it panics on a
  non-UTF-8 partition reply.
- `peer_addr().unwrap()`: the partition calls it inside its DEBUG events
  (src/bin/partition.rs:42-45 and 66-69, with DEBUG enabled at lines 24-25),
  and the master calls it in `handle_notify` (src/bin/master.rs:319). Each
  would panic if the operating system could not report the peer address of a
  connected socket. The model takes the address as always available: the
  master's is `Env.peer`, and the partition's handshake has no such panic.
- Master.WriteClient: write failures are modelled only for the client socket,
  through `clientAccepts`, which also covers the `write_all(..).unwrap()` in
  `handle_notify`.
- The 4096-byte read limit is modelled for the master. The partition's
  frames are given as whole buffers: how one read overwrites only the front
  of the reused buffer, leaving older bytes behind it, is not modelled.
- PartitionAgent.Serving: a partition whose write to the master fails would
  panic; the model treats every partition write as succeeding.
- PartitionAgent.Handshake: the read error branch is modelled as
  `Unconfirmed`; what `println!` prints is not modelled.
- `lru::LruCache` is modelled by what the partition observes: contents,
  recency order and eviction. Its hash map and linked list are not modelled.
- `src/partition.rs`, `src/master.rs` and `src/main.rs` are not part of this
  model.
