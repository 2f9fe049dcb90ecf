/**
 * The master node (src/bin/master.rs): it decodes one request per client
 * connection and dispatches it, forwarding keyed requests to the partition the
 * hash ring names, registering partitions that announce themselves, and
 * evicting a partition whose exchange fails.
 *
 * The shared state is the ring's members and the set of partitions. Both compare
 * partitions by address alone, so each is a map from address to partition. The
 * surroundings (the peer, the sockets, the ring's hashing) are inputs.
 */
module Master {
  import opened Wrappers
  import opened Utf8
  import Errors
  import Parser

  type Address = string

  /** A registered partition; `id`, `conn` and `timeJoined` stand for the uuid, the socket and the clock reading. */
  datatype Partition = Partition(id: nat, addr: Address, conn: nat, timeJoined: nat)

  /** `PartialEq` and `Hash` for Partition: the address decides, nothing else does. */
  predicate SameNode(p: Partition, q: Partition) {
    p.addr == q.addr
  }

  /** Ring members and the partition set, each filed under the partitions' addresses. */
  datatype State = State(ring: map<Address, Partition>, partitions: map<Address, Partition>)

  predicate Keyed(m: map<Address, Partition>) {
    forall a :: a in m ==> m[a].addr == a
  }

  /** Every partition is filed under its own address, and ring and set hold the same addresses. */
  predicate Consistent(s: State) {
    Keyed(s.ring) && Keyed(s.partitions) && s.ring.Keys == s.partitions.Keys
  }

  /** Filing by address is `HashSet` membership under address equality. */
  lemma ContainsIffSameNode(m: map<Address, Partition>, p: Partition)
    requires Keyed(m)
    ensures p.addr in m <==> exists q :: q in m.Values && SameNode(p, q)
  {
    if p.addr in m {
      assert m[p.addr] in m.Values && SameNode(p, m[p.addr]);
    }
    if q :| q in m.Values && SameNode(p, q) {
      var a :| a in m && m[a] == q;
      assert a == p.addr;
    }
  }

  /** `unregister_partition`: the partition's address leaves the ring and the set. */
  function Unregister(s: State, p: Partition): (r: State)
    ensures r.ring.Keys == s.ring.Keys - {p.addr}
    ensures r.partitions.Keys == s.partitions.Keys - {p.addr}
    ensures forall a :: a in r.ring ==> r.ring[a] == s.ring[a]
    ensures forall a :: a in r.partitions ==> r.partitions[a] == s.partitions[a]
  {
    State(s.ring - {p.addr}, s.partitions - {p.addr})
  }

  /**
   * The two updates of `handle_notify`. The ring files the new partition under its
   * address, over any earlier one; `HashSet::insert` keeps an equal element already there.
   */
  function Register(s: State, p: Partition): (r: State)
    ensures r.ring.Keys == s.ring.Keys + {p.addr} && r.ring[p.addr] == p
    ensures r.partitions.Keys == s.partitions.Keys + {p.addr}
    ensures p.addr in s.partitions ==> r.partitions == s.partitions
    ensures p.addr !in s.partitions ==> r.partitions[p.addr] == p
    ensures forall a :: a in s.ring && a != p.addr ==> r.ring[a] == s.ring[a]
    ensures forall a :: a in s.partitions ==> r.partitions[a] == s.partitions[a]
  {
    State(s.ring[p.addr := p], if p.addr in s.partitions then s.partitions else s.partitions[p.addr := p])
  }

  lemma UnregisterKeepsConsistent(s: State, p: Partition)
    requires Consistent(s)
    ensures Consistent(Unregister(s, p))
    ensures p.addr !in Unregister(s, p).ring && p.addr !in Unregister(s, p).partitions
  {
  }

  lemma RegisterKeepsConsistent(s: State, p: Partition)
    requires Consistent(s)
    ensures Consistent(Register(s, p))
    ensures p.addr in Register(s, p).ring && p.addr in Register(s, p).partitions
  {
  }

  /** A second notify from the same address files the newer partition in the ring and does not grow the set. */
  lemma RegisterAgain(s: State, p: Partition, q: Partition)
    requires SameNode(p, q)
    ensures Register(Register(s, p), q).partitions == Register(s, p).partitions
    ensures Register(Register(s, p), q).ring.Keys == Register(s, p).ring.Keys
    ensures Register(Register(s, p), q).ring[q.addr] == q
  {
  }

  // ---------------------------------------------------------------- the surroundings

  /**
   * What the master needs of `HashRing::get_node`: over the ring's addresses, a
   * lookup names one of them, and names none only when there are none.
   */
  ghost predicate LookupSound(lookup: (set<Address>, string) -> Option<Address>) {
    forall members: set<Address>, key: string ::
      (lookup(members, key).Some? ==> lookup(members, key).value in members) &&
      (lookup(members, key).None? <==> members == {})
  }

  /** How the exchange with the responsible partition goes; `Replied([])` is the zero-byte read. */
  datatype Exchange = WriteFailed | ReadFailed | Replied(bytes: seq<byte>)

  /**
   * Inputs from outside: the peer's address and the id, connection and join time a
   * new partition gets, whether writes to the client succeed, and the partition exchange.
   */
  datatype Env = Env(peer: Address, newId: nat, newConn: nat, now: nat, clientAccepts: bool, exchange: Exchange)

  /** A request relayed to a partition. */
  datatype Relay = Relay(to: Address, bytes: seq<byte>)

  /** The new state, what was written where, and how the connection task ended. */
  datatype Effect = Effect(
    state: State,
    toPartition: Option<Relay>,
    toClient: Option<seq<byte>>,
    ending: Parser.Outcome<()>)

  // ---------------------------------------------------------------- the handlers

  /** A `write_all(..).unwrap()` to the client as a handler's last act: the bytes go out, or the tokio task panics. */
  function WriteClient(s: State, relay: Option<Relay>, bytes: seq<byte>, env: Env, ending: Parser.Outcome<()>): (e: Effect)
    ensures e.state == s && e.toPartition == relay
    ensures env.clientAccepts ==> e.toClient == Some(bytes) && e.ending == ending
    ensures !env.clientAccepts ==> e.toClient.None? && e.ending == Parser.Panic
  {
    if env.clientAccepts then Effect(s, relay, Some(bytes), ending) else Effect(s, relay, None, Parser.Panic)
  }

  /** `handle_failed_forward`: the reply a client gets when its partition could not answer, if any. */
  function FallbackReply(request: Parser.ParsedRequest): (r: Option<seq<byte>>)
    ensures r.Some? <==> request.cmd in {Parser.Get, Parser.Set, Parser.Delete}
    ensures r.Some? ==> |r.value| > 0 && r.value[|r.value| - 1] == 0
  {
    match request.cmd
    case Get =>
      Some(if request.key.Some? then Parser.BuildMissResponse(request.key.value)
           else Parser.BuildErrorResponse(Errors.FromCode(Errors.Unknown)))
    case Set => Some(Parser.BuildOkResponse())
    case Delete => Some(Parser.BuildOkResponse())
    case _ => None
  }

  /** The client side of a failed forward: the fallback reply, if the command has one; a failed write panics. */
  function Fallback(s: State, relay: Option<Relay>, request: Parser.ParsedRequest, env: Env): (e: Effect)
    ensures e.state == s && e.toPartition == relay
    ensures e.toClient == (if env.clientAccepts then FallbackReply(request) else None)
    ensures e.ending == (if FallbackReply(request).Some? && !env.clientAccepts then Parser.Panic else Parser.Success(()))
  {
    match FallbackReply(request)
    case None => Effect(s, relay, None, Parser.Success(()))
    case Some(bytes) => WriteClient(s, relay, bytes, env, Parser.Success(()))
  }

  /** The ring member responsible for the request's key; none for a request without a key. */
  function Target(s: State, lookup: (set<Address>, string) -> Option<Address>, request: Parser.ParsedRequest): (r: Option<Partition>)
    ensures r.Some? ==> r.value in s.ring.Values
  {
    match request.key
    case None => None
    case Some(key) =>
      match lookup(s.ring.Keys, key)
      case None => None
      case Some(a) => if a in s.ring then Some(s.ring[a]) else None
  }

  /**
   * `forward_to_partition`: relay the request to the responsible partition and its
   * reply to the client. A failed write, a failed read or a zero-byte read evicts the
   * partition and sends the fallback reply. A reply that is not UTF-8 makes the
   * debug log's `from_utf8(..).unwrap()` panic before anything reaches the client.
   */
  function Forward(s: State, lookup: (set<Address>, string) -> Option<Address>, request: Parser.ParsedRequest, env: Env): (e: Effect)
    ensures e.state == s || (Target(s, lookup, request).Some? && e.state == Unregister(s, Target(s, lookup, request).value))
    ensures e.toPartition.Some? ==>
      Target(s, lookup, request).Some? && e.toPartition.value == Relay(Target(s, lookup, request).value.addr, Encode(request.originalRq))
    ensures e.toClient.Some? ==> env.clientAccepts
    ensures !e.ending.Failure?
  {
    match Target(s, lookup, request)
    case None =>
      WriteClient(s, None, Parser.BuildErrorResponse(Errors.FromCode(Errors.NoPartitionsInRing)), env, Parser.Success(()))
    case Some(p) =>
      var relay := Relay(p.addr, Encode(request.originalRq));
      match env.exchange
      case WriteFailed => Fallback(Unregister(s, p), None, request, env)
      case ReadFailed => Fallback(Unregister(s, p), Some(relay), request, env)
      case Replied(reply) =>
        if reply == [] then Fallback(Unregister(s, p), Some(relay), request, env)
        else if Decode(reply).None? then Effect(s, Some(relay), None, Parser.Panic)
        else WriteClient(s, Some(relay), reply, env, Parser.Success(()))
  }

  /** `handle_notify`: ACK first, then file the peer as a new partition; a failed ACK panics before filing. */
  function Notify(s: State, env: Env): (e: Effect)
    ensures e.toPartition.None?
    ensures env.clientAccepts ==> e.state == Register(s, Partition(env.newId, env.peer, env.newConn, env.now))
    ensures env.clientAccepts ==>
      && e.toClient == Some(Parser.BuildAckResponse()) && e.ending == Parser.Success(())
      && e.state.ring.Keys == s.ring.Keys + {env.peer} && e.state.partitions.Keys == s.partitions.Keys + {env.peer}
      && e.state.ring[env.peer] == Partition(env.newId, env.peer, env.newConn, env.now)
    ensures !env.clientAccepts ==> e.state == s && e.toClient.None? && e.ending == Parser.Panic
  {
    if env.clientAccepts then
      Effect(Register(s, Partition(env.newId, env.peer, env.newConn, env.now)), None,
             Some(Parser.BuildAckResponse()), Parser.Success(()))
    else Effect(s, None, None, Parser.Panic)
  }

  /** `handle_list`: the partition set, rendered by `render`, in an LSP frame. */
  function List(s: State, render: set<Partition> -> string, env: Env): (e: Effect)
    ensures e.state == s && e.toPartition.None?
    ensures env.clientAccepts ==> e.toClient == Some(Parser.BuildLspResponse(render(s.partitions.Values))) && e.ending.Success?
    ensures !env.clientAccepts ==> e.ending == Parser.Panic
  {
    WriteClient(s, None, Parser.BuildLspResponse(render(s.partitions.Values)), env, Parser.Success(()))
  }

  datatype Action = ToPartition | Enrol | ListMembers | Reject

  /** The dispatch table of `handle_connection`. */
  function Route(cmd: Parser.CommandType): (r: Action)
    ensures r == ToPartition <==> Parser.NeedsKey(cmd)
    ensures r == Enrol <==> cmd == Parser.Notify
    ensures r == ListMembers <==> cmd == Parser.ListPartitions
    ensures r == Reject <==> cmd in {Parser.Hit, Parser.Miss, Parser.Ack, Parser.Ok, Parser.Error}
  {
    match cmd
    case Get => ToPartition
    case Set => ToPartition
    case Delete => ToPartition
    case Lsd => ToPartition
    case Notify => Enrol
    case ListPartitions => ListMembers
    case _ => Reject
  }

  /** The size of the zero-filled buffer a request is read into. */
  const BufferSize: nat := 4096

  /** The read buffer after a read of `received`: those bytes, then the zeros it started with. */
  function Padded(received: seq<byte>): (r: seq<byte>)
    requires |received| <= BufferSize
    ensures |r| == BufferSize && r[..|received|] == received
    ensures forall i :: |received| <= i < BufferSize ==> r[i] == 0
  {
    received + seq(BufferSize - |received|, _ => 0)
  }

  /**
   * `handle_connection`. `read` is the result of `try_read`: `None` for a failed read.
   * A request that fails to decode gets its error as an ERR frame; one whose ERR code
   * is not a number panics inside the decoder.
   */
  function Connection(
    s: State, read: Option<seq<byte>>,
    lookup: (set<Address>, string) -> Option<Address>, render: set<Partition> -> string, env: Env): (e: Effect)
    requires read.Some? ==> |read.value| <= BufferSize
    ensures read.None? ==> e == Effect(s, None, None, Parser.Failure(Errors.FromCode(Errors.FailedSocketRead)))
    ensures e.state.ring.Keys <= s.ring.Keys + {env.peer} && e.state.partitions.Keys <= s.partitions.Keys + {env.peer}
    ensures e.ending.Failure? ==>
      e.ending.error.code in {Errors.FailedSocketRead, Errors.InvalidSequence, Errors.NotEnoughArgs, Errors.InvalidRequestCmd}
  {
    match read
    case None => Effect(s, None, None, Parser.Failure(Errors.FromCode(Errors.FailedSocketRead)))
    case Some(received) => Dispatch(s, Parser.ParseRequest(Padded(received)), lookup, render, env)
  }

  /** `handle_connection` after the decoder: reply with the decode error, or route the request. */
  function Dispatch(
    s: State, parsed: Parser.Outcome<Parser.ParsedRequest>,
    lookup: (set<Address>, string) -> Option<Address>, render: set<Partition> -> string, env: Env): (e: Effect)
    ensures e.state.ring.Keys <= s.ring.Keys + {env.peer} && e.state.partitions.Keys <= s.partitions.Keys + {env.peer}
    ensures e.state != s ==> parsed.Success? && Route(parsed.value.cmd) in {ToPartition, Enrol}
    ensures e.toPartition.Some? ==> parsed.Success? && Route(parsed.value.cmd) == ToPartition
    ensures e.ending.Failure? <==> parsed.Failure? && env.clientAccepts
    ensures e.ending.Failure? ==> e.ending.error == parsed.error
  {
    match parsed
    case Panic => Effect(s, None, None, Parser.Panic)
    case Failure(err) => WriteClient(s, None, Parser.BuildErrorResponse(err), env, Parser.Failure(err))
    case Success(request) =>
      match Route(request.cmd)
      case ToPartition => Forward(s, lookup, request, env)
      case Enrol => Notify(s, env)
      case ListMembers => List(s, render, env)
      case Reject =>
        WriteClient(s, None, Parser.BuildErrorResponse(Errors.FromCode(Errors.UnsupportedCommandMaster)),
                    env, Parser.Success(()))
  }

  // ---------------------------------------------------------------- the master node

  /** The master's shared ring and partition set, updated in place by the connection tasks. */
  class MasterNode {
    var ring: map<Address, Partition>
    var partitions: map<Address, Partition>

    function Current(): State
      reads this
    {
      State(ring, partitions)
    }

    ghost predicate Valid()
      reads this
    {
      Consistent(Current())
    }

    /** An empty ring and set, as `main` starts with. */
    constructor ()
      ensures Valid() && ring == map[] && partitions == map[]
    {
      ring := map[];
      partitions := map[];
    }

    method UnregisterPartition(p: Partition)
      requires Valid()
      modifies this
      ensures Valid()
      ensures Current() == Unregister(old(Current()), p)
    {
      ring := ring - {p.addr};
      partitions := partitions - {p.addr};
    }

    method HandleNotify(env: Env) returns (toClient: Option<seq<byte>>, ending: Parser.Outcome<()>)
      requires Valid()
      modifies this
      ensures Valid()
      ensures Effect(Current(), None, toClient, ending) == Notify(old(Current()), env)
    {
      if !env.clientAccepts {
        return None, Parser.Panic;
      }
      toClient := Some(Parser.BuildAckResponse());
      var partition := Partition(env.newId, env.peer, env.newConn, env.now);
      ring := ring[partition.addr := partition];
      if partition.addr !in partitions {
        partitions := partitions[partition.addr := partition];
      }
      ending := Parser.Success(());
    }

    method HandleList(render: set<Partition> -> string, env: Env) returns (toClient: Option<seq<byte>>, ending: Parser.Outcome<()>)
      ensures Effect(Current(), None, toClient, ending) == List(Current(), render, env)
    {
      var listing := render(partitions.Values);
      if env.clientAccepts {
        toClient, ending := Some(Parser.BuildLspResponse(listing)), Parser.Success(());
      } else {
        toClient, ending := None, Parser.Panic;
      }
    }

    method ForwardToPartition(request: Parser.ParsedRequest, lookup: (set<Address>, string) -> Option<Address>, env: Env)
      returns (toPartition: Option<Relay>, toClient: Option<seq<byte>>, ending: Parser.Outcome<()>)
      requires Valid()
      modifies this
      ensures Valid()
      ensures Effect(Current(), toPartition, toClient, ending) == Forward(old(Current()), lookup, request, env)
    {
      var responsible: Option<Partition> := None;
      if request.key.Some? {
        var a := lookup(ring.Keys, request.key.value);
        if a.Some? && a.value in ring {
          responsible := Some(ring[a.value]);
        }
      }
      if responsible.None? {
        var e := WriteClient(Current(), None, Parser.BuildErrorResponse(Errors.FromCode(Errors.NoPartitionsInRing)), env, Parser.Success(()));
        return None, e.toClient, e.ending;
      }
      var partition := responsible.value;
      toPartition := None;
      var failed := true;
      if !env.exchange.WriteFailed? {
        toPartition := Some(Relay(partition.addr, Encode(request.originalRq)));
        failed := env.exchange.ReadFailed? || env.exchange.bytes == [];
      }
      if failed {
        UnregisterPartition(partition);
        var e := Fallback(Current(), toPartition, request, env);
        return toPartition, e.toClient, e.ending;
      }
      var reply := env.exchange.bytes;
      if Decode(reply).None? {
        return toPartition, None, Parser.Panic;
      }
      var e := WriteClient(Current(), toPartition, reply, env, Parser.Success(()));
      toClient, ending := e.toClient, e.ending;
    }

    method HandleConnection(
      read: Option<seq<byte>>, lookup: (set<Address>, string) -> Option<Address>,
      render: set<Partition> -> string, env: Env)
      returns (toPartition: Option<Relay>, toClient: Option<seq<byte>>, ending: Parser.Outcome<()>)
      requires Valid()
      requires read.Some? ==> |read.value| <= BufferSize
      modifies this
      ensures Valid()
      ensures Effect(Current(), toPartition, toClient, ending) == Connection(old(Current()), read, lookup, render, env)
    {
      if read.None? {
        return None, None, Parser.Failure(Errors.FromCode(Errors.FailedSocketRead));
      }
      var parsed := Parser.ParseRequest(Padded(read.value));
      match parsed
      case Panic =>
        return None, None, Parser.Panic;
      case Failure(err) =>
        var e := WriteClient(Current(), None, Parser.BuildErrorResponse(err), env, Parser.Failure(err));
        return None, e.toClient, e.ending;
      case Success(request) =>
        match Route(request.cmd)
        case ToPartition =>
          toPartition, toClient, ending := ForwardToPartition(request, lookup, env);
        case Enrol =>
          toPartition := None;
          toClient, ending := HandleNotify(env);
        case ListMembers =>
          toPartition := None;
          toClient, ending := HandleList(render, env);
        case Reject =>
          var e := WriteClient(Current(), None, Parser.BuildErrorResponse(Errors.FromCode(Errors.UnsupportedCommandMaster)), env, Parser.Success(()));
          toPartition, toClient, ending := None, e.toClient, e.ending;
    }
  }

  // ---------------------------------------------------------------- properties

  /** The zeros after the bytes read never reach the decoder. */
  lemma PaddingIsInvisible(received: seq<byte>)
    requires |received| <= BufferSize
    ensures Parser.UpTo(Padded(received), 0) == Parser.UpTo(received, 0)
    ensures Parser.ParseRequest(Padded(received)) == Parser.ParseRequest(received)
  {
    var pad := Padded(received)[|received|..];
    assert Padded(received) == received + pad;
    forall i | 0 <= i < |pad| ensures pad[i] == 0 {
      assert pad[i] == Padded(received)[|received| + i];
    }
    PaddingCut(received, pad);
    Parser.SamePrefixSameRequest(Padded(received), received);
  }

  lemma PaddingCut(received: seq<byte>, pad: seq<byte>)
    requires |received| <= BufferSize && Padded(received) == received + pad
    requires forall i :: 0 <= i < |pad| ==> pad[i] == 0
    ensures Parser.UpTo(received + pad, 0) == Parser.UpTo(received, 0)
  {
    Parser.UpToAppend(received, pad, 0);
    Parser.UpToAppend(received, [], 0);
    assert received + [] == received;
    if pad != [] {
      assert pad[0] == 0;
    }
  }

  /** With a sound lookup, a request finds no partition exactly when it has no key or the ring is empty. */
  lemma TargetExists(s: State, lookup: (set<Address>, string) -> Option<Address>, request: Parser.ParsedRequest)
    requires LookupSound(lookup) && Keyed(s.ring)
    ensures Target(s, lookup, request).None? <==> request.key.None? || s.ring == map[]
    ensures Target(s, lookup, request).Some? ==> Target(s, lookup, request).value.addr in s.ring
  {
    if request.key.Some? {
      var found := lookup(s.ring.Keys, request.key.value);
      if s.ring != map[] {
        var a :| a in s.ring;
        assert a in s.ring.Keys;
      }
    }
  }

  /** With no partition for the key the client gets ERR NoPartitionsInRing and nothing changes. */
  lemma NoPartitionReply(s: State, lookup: (set<Address>, string) -> Option<Address>, request: Parser.ParsedRequest, env: Env)
    requires LookupSound(lookup) && Keyed(s.ring) && env.clientAccepts
    requires request.key.None? || s.ring == map[]
    ensures Forward(s, lookup, request, env)
         == Effect(s, None, Some(Parser.BuildErrorResponse(Errors.FromCode(Errors.NoPartitionsInRing))), Parser.Success(()))
  {
    TargetExists(s, lookup, request);
  }

  /**
   * A failed write, a failed read or a zero-byte read removes the partition from ring
   * and set and answers with the fallback reply; the request reached the partition
   * unless the write failed.
   */
  lemma FailedExchangeEvicts(s: State, lookup: (set<Address>, string) -> Option<Address>, request: Parser.ParsedRequest, env: Env)
    requires Consistent(s) && Target(s, lookup, request).Some?
    requires env.exchange.WriteFailed? || env.exchange.ReadFailed? || env.exchange == Replied([])
    ensures var p := Target(s, lookup, request).value;
      var e := Forward(s, lookup, request, env);
      && e.state == Unregister(s, p)
      && p.addr !in e.state.ring && p.addr !in e.state.partitions
      && Consistent(e.state)
      && e.toClient == (if env.clientAccepts then FallbackReply(request) else None)
      && e.toPartition == (if env.exchange.WriteFailed? then None else Some(Relay(p.addr, Encode(request.originalRq))))
  {
    var p := Target(s, lookup, request).value;
    UnregisterKeepsConsistent(s, p);
  }

  /** A partition that answers with UTF-8 leaves ring and set alone, and its reply is relayed unchanged. */
  lemma AnsweredExchangeRelays(s: State, lookup: (set<Address>, string) -> Option<Address>, request: Parser.ParsedRequest, env: Env)
    requires Target(s, lookup, request).Some? && env.clientAccepts
    requires env.exchange.Replied? && env.exchange.bytes != [] && Decode(env.exchange.bytes).Some?
    ensures var p := Target(s, lookup, request).value;
      Forward(s, lookup, request, env)
      == Effect(s, Some(Relay(p.addr, Encode(request.originalRq))), Some(env.exchange.bytes), Parser.Success(()))
  {
  }

  /** `handle_failed_forward`: GET with a key misses, GET without one gets ERR Unknown, SET and DEL are acknowledged with OK. */
  lemma FallbackReplyMeaning(request: Parser.ParsedRequest)
    ensures FallbackReply(request).Some? <==> request.cmd in {Parser.Get, Parser.Set, Parser.Delete}
    ensures request.cmd == Parser.Get && request.key.Some? ==>
      Parser.ParseRequest(FallbackReply(request).value)
      == Parser.Success(Parser.ParsedRequest(Parser.Miss, None, None, None, "MSS " + Parser.UpTo(request.key.value, '\0')))
    ensures request.cmd == Parser.Get && request.key.None? ==>
      Parser.ParseRequest(FallbackReply(request).value).Success? &&
      Parser.ParseRequest(FallbackReply(request).value).value.error == Some(Errors.FromCode(Errors.Unknown))
    ensures request.cmd in {Parser.Set, Parser.Delete} ==>
      Parser.ParseRequest(FallbackReply(request).value) == Parser.Success(Parser.ParsedRequest(Parser.Ok, None, None, None, "OK"))
  {
    if request.cmd == Parser.Get && request.key.Some? {
      Parser.MissFrameRoundTrip(request.key.value);
    } else if request.cmd == Parser.Get {
      FallbackUnknown();
    } else if request.cmd in {Parser.Set, Parser.Delete} {
      Parser.OkFrameRoundTrip();
    }
  }

  lemma FallbackUnknown()
    ensures Parser.ParseRequest(Parser.BuildErrorResponse(Errors.FromCode(Errors.Unknown))).Success?
    ensures Parser.ParseRequest(Parser.BuildErrorResponse(Errors.FromCode(Errors.Unknown))).value.error
         == Some(Errors.FromCode(Errors.Unknown))
  {
    Parser.ErrorFrameRoundTrip(Errors.Unknown);
  }

  /** Notify answers ACK and files the peer in ring and set, leaving every earlier entry as it was; when the ACK cannot be written nothing is filed. */
  lemma NotifyEnrols(s: State, env: Env)
    requires Consistent(s)
    ensures var e := Notify(s, env);
      && Consistent(e.state)
      && (env.clientAccepts ==>
            e.toClient == Some(Parser.BuildAckResponse()) && env.peer in e.state.ring && env.peer in e.state.partitions
            && e.state.ring.Keys == s.ring.Keys + {env.peer} && e.state.partitions.Keys == s.partitions.Keys + {env.peer}
            && (forall a :: a in s.ring && a != env.peer ==> e.state.ring[a] == s.ring[a])
            && (forall a :: a in s.partitions ==> e.state.partitions[a] == s.partitions[a]))
      && (!env.clientAccepts ==> e.state == s && e.ending.Panic?)
  {
    RegisterKeepsConsistent(s, Partition(env.newId, env.peer, env.newConn, env.now));
  }

  /** Every connection leaves ring and set holding the same addresses, each partition under its own. */
  lemma ConnectionKeepsConsistent(
    s: State, read: Option<seq<byte>>,
    lookup: (set<Address>, string) -> Option<Address>, render: set<Partition> -> string, env: Env)
    requires Consistent(s)
    requires read.Some? ==> |read.value| <= BufferSize
    ensures Consistent(Connection(s, read, lookup, render, env).state)
  {
    if read.Some? {
      DispatchKeepsConsistent(s, Parser.ParseRequest(Padded(read.value)), lookup, render, env);
    }
  }

  lemma DispatchKeepsConsistent(
    s: State, parsed: Parser.Outcome<Parser.ParsedRequest>,
    lookup: (set<Address>, string) -> Option<Address>, render: set<Partition> -> string, env: Env)
    requires Consistent(s)
    ensures Consistent(Dispatch(s, parsed, lookup, render, env).state)
  {
    if parsed.Success? && Route(parsed.value.cmd) == ToPartition {
      var t := Target(s, lookup, parsed.value);
      if t.Some? {
        UnregisterKeepsConsistent(s, t.value);
      }
    } else if parsed.Success? && Route(parsed.value.cmd) == Enrol {
      NotifyEnrols(s, env);
    }
  }

  /**
   * What reaches a partition is exactly what the client sent before its first NUL,
   * and only a request with a key is ever relayed.
   */
  lemma RelayIsReceivedPrefix(
    s: State, received: seq<byte>,
    lookup: (set<Address>, string) -> Option<Address>, render: set<Partition> -> string, env: Env)
    requires |received| <= BufferSize
    requires Connection(s, Some(received), lookup, render, env).toPartition.Some?
    ensures Connection(s, Some(received), lookup, render, env).toPartition.value.bytes == Parser.UpTo(received, 0)
    ensures Parser.ParseRequest(received).Success? && Parser.ParseRequest(received).value.key.Some?
  {
    ConnectionIsDispatch(s, received, lookup, render, env);
    DecodedRelayIsPrefix(s, received, lookup, render, env);
  }

  lemma DecodedRelayIsPrefix(
    s: State, received: seq<byte>,
    lookup: (set<Address>, string) -> Option<Address>, render: set<Partition> -> string, env: Env)
    requires Dispatch(s, Parser.ParseRequest(received), lookup, render, env).toPartition.Some?
    ensures Dispatch(s, Parser.ParseRequest(received), lookup, render, env).toPartition.value.bytes == Parser.UpTo(received, 0)
    ensures Parser.ParseRequest(received).Success? && Parser.ParseRequest(received).value.key.Some?
  {
    RelayIsOriginal(s, Parser.ParseRequest(received), lookup, render, env);
    Parser.OriginalRequestIsPrefix(received);
  }

  /** A read request is dispatched as the decoder sees the bytes read, padding aside. */
  lemma ConnectionIsDispatch(
    s: State, received: seq<byte>,
    lookup: (set<Address>, string) -> Option<Address>, render: set<Partition> -> string, env: Env)
    requires |received| <= BufferSize
    ensures Connection(s, Some(received), lookup, render, env) == Dispatch(s, Parser.ParseRequest(received), lookup, render, env)
  {
    PaddingIsInvisible(received);
  }

  /** Only a decoded request that carries a key is relayed, and what is relayed is its text, encoded. */
  lemma RelayIsOriginal(
    s: State, parsed: Parser.Outcome<Parser.ParsedRequest>,
    lookup: (set<Address>, string) -> Option<Address>, render: set<Partition> -> string, env: Env)
    requires parsed.Success? ==> (parsed.value.key.Some? <==> Parser.NeedsKey(parsed.value.cmd))
    requires Dispatch(s, parsed, lookup, render, env).toPartition.Some?
    ensures parsed.Success? && parsed.value.key.Some?
    ensures Dispatch(s, parsed, lookup, render, env).toPartition.value.bytes == Encode(parsed.value.originalRq)
  {
  }

  /** A request that fails to decode gets its error back as an ERR frame and returns it; ring and set are untouched. */
  lemma DecodeFailure(
    s: State, received: seq<byte>,
    lookup: (set<Address>, string) -> Option<Address>, render: set<Partition> -> string, env: Env)
    requires |received| <= BufferSize && env.clientAccepts && Parser.ParseRequest(received).Failure?
    ensures Connection(s, Some(received), lookup, render, env)
         == Effect(s, None, Some(Parser.BuildErrorResponse(Parser.ParseRequest(received).error)),
                   Parser.Failure(Parser.ParseRequest(received).error))
  {
    ConnectionIsDispatch(s, received, lookup, render, env);
    DispatchDecodeError(s, Parser.ParseRequest(received), lookup, render, env);
  }

  /** A reply command sent to the master gets ERR UnsupportedCommandMaster; ring and set are untouched. */
  lemma ReplyRejected(
    s: State, received: seq<byte>,
    lookup: (set<Address>, string) -> Option<Address>, render: set<Partition> -> string, env: Env)
    requires |received| <= BufferSize && env.clientAccepts
    requires Parser.ParseRequest(received).Success? && Route(Parser.ParseRequest(received).value.cmd) == Reject
    ensures Connection(s, Some(received), lookup, render, env)
         == Effect(s, None, Some(Parser.BuildErrorResponse(Errors.FromCode(Errors.UnsupportedCommandMaster))), Parser.Success(()))
  {
    ConnectionIsDispatch(s, received, lookup, render, env);
    DispatchRejects(s, Parser.ParseRequest(received), lookup, render, env);
  }

  lemma DispatchDecodeError(
    s: State, parsed: Parser.Outcome<Parser.ParsedRequest>,
    lookup: (set<Address>, string) -> Option<Address>, render: set<Partition> -> string, env: Env)
    requires parsed.Failure? && env.clientAccepts
    ensures Dispatch(s, parsed, lookup, render, env)
         == Effect(s, None, Some(Parser.BuildErrorResponse(parsed.error)), Parser.Failure(parsed.error))
  {
  }

  lemma DispatchRejects(
    s: State, parsed: Parser.Outcome<Parser.ParsedRequest>,
    lookup: (set<Address>, string) -> Option<Address>, render: set<Partition> -> string, env: Env)
    requires parsed.Success? && Route(parsed.value.cmd) == Reject && env.clientAccepts
    ensures Dispatch(s, parsed, lookup, render, env)
         == Effect(s, None, Some(Parser.BuildErrorResponse(Errors.FromCode(Errors.UnsupportedCommandMaster))), Parser.Success(()))
  {
  }
}
