/** The protocol logic of an RCON connection: the authentication flag, whether a socket
    is connected, and the table of emitters waiting for the reply to a command. Each tick
    of the poll loop reads one packet and hands it to the handshake until the client is
    authenticated, and to the response correlator after that. */
module RconConnection {
  import opened Int32
  import opened RconErrors
  import opened RconPacket

  /** The identity of an emitter waiting for the reply to one command. */
  type WaiterId = nat

  // ---------------------------------------------------------------------------
  // The tick handler as a state transition

  /** The part of the connection each tick reads and changes. */
  datatype Session = Session(authenticated: bool, pending: map<int32, WaiterId>)

  /** What one tick does with a packet: the new session, the waiter that is signalled
      (onNext with the packet, then onComplete) if any, and the tick's value or failure. */
  datatype Reaction = Reaction(next: Session, delivered: Option<WaiterId>, result: Result<Packet>)

  /** The reply to the AUTH packet that authenticates the client. */
  predicate IsAuthReply(p: Packet, authRequestId: int32)
  {
    p.requestId == authRequestId && p.packetType == ServerDataAuthResponse
  }

  /** One tick of the poll loop on the packet it read. */
  function React(s: Session, p: Packet, authRequestId: int32): (r: Reaction)
    ensures r.result.Ok? ==> r.result.value == p
    ensures r.result.Err? ==> r.result.error == AuthenticationFailed && !s.authenticated
    ensures s.authenticated ==> r.next.authenticated
    ensures forall k :: k in r.next.pending ==> k in s.pending && r.next.pending[k] == s.pending[k]
    ensures r.delivered.Some? ==>
              p.requestId in s.pending && r.delivered.value == s.pending[p.requestId]
              && p.requestId !in r.next.pending
  {
    if !s.authenticated then
      if IsAuthReply(p, authRequestId) then Reaction(Session(true, s.pending), None, Ok(p))
      else if p.requestId == -1 then Reaction(Session(false, s.pending), None, Err(AuthenticationFailed))
      else Reaction(s, None, Ok(p))
    else if p.requestId in s.pending then
      Reaction(Session(true, s.pending - {p.requestId}), Some(s.pending[p.requestId]), Ok(p))
    else
      Reaction(s, None, Ok(p))
  }

  /** The signal a tick sends, as an entry of the delivery log. */
  function Delivery(w: Option<WaiterId>, p: Packet): (d: seq<(WaiterId, Packet)>)
    ensures |d| <= 1
    ensures d != [] <==> w.Some?
    ensures d != [] ==> d[0] == (w.value, p)
  {
    if w.Some? then [(w.value, p)] else []
  }

  /** Before authentication the auth reply authenticates the client and touches no waiter. */
  lemma ReactAcceptsAuthReply(s: Session, p: Packet, authRequestId: int32)
    requires !s.authenticated && IsAuthReply(p, authRequestId)
    ensures React(s, p, authRequestId) == Reaction(Session(true, s.pending), None, Ok(p))
  {
  }

  /** Before authentication a packet with id -1 that is not the auth reply is a rejected
      login: the tick fails and the client stays unauthenticated. */
  lemma ReactRejectsLogin(s: Session, p: Packet, authRequestId: int32)
    requires !s.authenticated && !IsAuthReply(p, authRequestId) && p.requestId == -1
    ensures React(s, p, authRequestId) == Reaction(s, None, Err(AuthenticationFailed))
  {
  }

  /** Before authentication any other packet changes nothing and is passed on, even when a
      waiter is registered under its id. */
  lemma ReactIgnoresBeforeAuth(s: Session, p: Packet, authRequestId: int32)
    requires !s.authenticated && !IsAuthReply(p, authRequestId) && p.requestId != -1
    ensures React(s, p, authRequestId) == Reaction(s, None, Ok(p))
  {
  }

  /** After authentication a packet is delivered to the waiter registered under its id,
      whose entry alone is removed; a packet nobody waits for changes nothing. Either way
      the tick passes the packet on. */
  lemma ReactDispatches(s: Session, p: Packet, authRequestId: int32)
    requires s.authenticated
    ensures var x := React(s, p, authRequestId);
      && x.result == Ok(p) && x.next.authenticated
      && (p.requestId in s.pending ==>
            x.delivered == Some(s.pending[p.requestId])
            && p.requestId !in x.next.pending
            && forall k :: k in s.pending && k != p.requestId ==>
                 k in x.next.pending && x.next.pending[k] == s.pending[k])
      && (p.requestId !in s.pending ==> x.delivered == None && x.next == s)
  {
  }

  /** The run of the poll loop over successive packets. A failing tick ends it: the stream
      then terminates with that failure and reads nothing more. */
  datatype Trace = Trace(final: Session, deliveries: seq<(WaiterId, Packet)>, outcome: Result<()>)

  function Run(s: Session, packets: seq<Packet>, authRequestId: int32): (t: Trace)
    ensures |t.deliveries| <= |packets|
    decreases |packets|
  {
    if packets == [] then Trace(s, [], Ok(()))
    else
      var x := React(s, packets[0], authRequestId);
      if x.result.Err? then Trace(x.next, [], Err(x.result.error))
      else
        var t := Run(x.next, packets[1..], authRequestId);
        Trace(t.final, Delivery(x.delivered, packets[0]) + t.deliveries, t.outcome)
  }

  /** Some packet carries request id k. */
  predicate Answered(packets: seq<Packet>, k: int32)
  {
    exists i :: 0 <= i < |packets| && packets[i].requestId == k
  }

  lemma AnsweredCons(packets: seq<Packet>, k: int32)
    requires packets != []
    ensures Answered(packets, k) <==> packets[0].requestId == k || Answered(packets[1..], k)
  {
    if Answered(packets, k) && packets[0].requestId != k {
      var i :| 0 <= i < |packets| && packets[i].requestId == k;
      assert packets[1..][i - 1].requestId == k;
    }
    if Answered(packets[1..], k) {
      var i :| 0 <= i < |packets[1..]| && packets[1..][i].requestId == k;
      assert packets[i + 1].requestId == k;
    }
  }

  /** No cross-delivery and no double delivery, over any run: every delivery hands a packet
      that was read to the waiter registered under that packet's id when the run began;
      no id is delivered twice and a delivered id is no longer pending; pending entries are
      only ever removed; and a run fails only on a rejected login. */
  lemma {:induction false} RunKeepsCorrelation(s: Session, packets: seq<Packet>, authRequestId: int32)
    ensures var t := Run(s, packets, authRequestId);
      && (forall k :: k in t.final.pending ==> k in s.pending && t.final.pending[k] == s.pending[k])
      && (forall i :: 0 <= i < |t.deliveries| ==>
            && t.deliveries[i].1 in packets
            && t.deliveries[i].1.requestId in s.pending
            && s.pending[t.deliveries[i].1.requestId] == t.deliveries[i].0
            && t.deliveries[i].1.requestId !in t.final.pending)
      && (forall i, j :: 0 <= i < j < |t.deliveries| ==>
            t.deliveries[i].1.requestId != t.deliveries[j].1.requestId)
      && (t.outcome.Err? ==>
            t.outcome.error == AuthenticationFailed && !s.authenticated && !t.final.authenticated)
    decreases |packets|
  {
    if packets != [] {
      var x := React(s, packets[0], authRequestId);
      if x.result.Ok? {
        RunKeepsCorrelation(x.next, packets[1..], authRequestId);
        var t := Run(x.next, packets[1..], authRequestId);
        var d := Delivery(x.delivered, packets[0]);
        assert Run(s, packets, authRequestId).deliveries == d + t.deliveries;
        forall i | 0 <= i < |t.deliveries|
          ensures t.deliveries[i].1 in packets
        {
          assert t.deliveries[i].1 in packets[1..];
        }
      }
    }
  }

  /** Once authenticated, a run never fails and every waiter is resolved exactly by the
      packets that answer it: a waiter stays pending if and only if no packet carries its id,
      and each answered waiter receives a packet with its own id. */
  lemma {:induction false} RunResolvesAnswered(s: Session, packets: seq<Packet>, authRequestId: int32)
    requires s.authenticated
    ensures var t := Run(s, packets, authRequestId);
      && t.outcome == Ok(()) && t.final.authenticated
      && (forall k :: k in t.final.pending <==> k in s.pending && !Answered(packets, k))
      && (forall k :: k in s.pending && Answered(packets, k) ==>
            exists i :: 0 <= i < |t.deliveries| && t.deliveries[i].0 == s.pending[k]
                        && t.deliveries[i].1.requestId == k)
    decreases |packets|
  {
    if packets != [] {
      var p := packets[0];
      var x := React(s, p, authRequestId);
      RunResolvesAnswered(x.next, packets[1..], authRequestId);
      var t := Run(x.next, packets[1..], authRequestId);
      var d := Delivery(x.delivered, p);
      assert Run(s, packets, authRequestId).deliveries == d + t.deliveries;
      forall k ensures Answered(packets, k) <==> p.requestId == k || Answered(packets[1..], k) {
        AnsweredCons(packets, k);
      }
      forall k | k in s.pending && Answered(packets, k)
        ensures exists i :: 0 <= i < |d + t.deliveries| && (d + t.deliveries)[i].0 == s.pending[k]
                            && (d + t.deliveries)[i].1.requestId == k
      {
        if k == p.requestId {
          assert (d + t.deliveries)[0] == (s.pending[k], p);
        } else {
          assert k in x.next.pending && x.next.pending[k] == s.pending[k];
          var i :| 0 <= i < |t.deliveries| && t.deliveries[i].0 == x.next.pending[k]
                   && t.deliveries[i].1.requestId == k;
          assert (d + t.deliveries)[|d| + i] == t.deliveries[i];
        }
      }
    }
  }

  /** Before the auth reply arrives nothing is delivered and no waiter is touched: the run
      fails with AuthenticationFailed if and only if some packet carries id -1. */
  lemma {:induction false} RunBeforeAuthentication(s: Session, packets: seq<Packet>, authRequestId: int32)
    requires !s.authenticated
    requires forall i :: 0 <= i < |packets| ==> !IsAuthReply(packets[i], authRequestId)
    ensures var t := Run(s, packets, authRequestId);
      && t.deliveries == [] && t.final == s
      && (t.outcome.Err? <==> Answered(packets, -1))
      && (t.outcome.Err? ==> t.outcome.error == AuthenticationFailed)
    decreases |packets|
  {
    if packets != [] {
      AnsweredCons(packets, -1);
      if packets[0].requestId != -1 {
        RunBeforeAuthentication(s, packets[1..], authRequestId);
      }
    }
  }

  /** The handshake: packets before the auth reply that are neither the reply nor a
      rejection are discarded, and the run then goes on exactly as an authenticated run
      over the packets after the reply, with the same waiters pending. */
  lemma {:induction false} RunHandshake(s: Session, ignored: seq<Packet>, reply: Packet,
                                        after: seq<Packet>, authRequestId: int32)
    requires !s.authenticated
    requires forall i :: 0 <= i < |ignored| ==>
               !IsAuthReply(ignored[i], authRequestId) && ignored[i].requestId != -1
    requires IsAuthReply(reply, authRequestId)
    ensures Run(s, ignored + [reply] + after, authRequestId)
            == Run(Session(true, s.pending), after, authRequestId)
    decreases |ignored|
  {
    var packets := ignored + [reply] + after;
    if ignored == [] {
      assert packets[0] == reply && packets[1..] == after;
    } else {
      assert packets[0] == ignored[0];
      assert packets[1..] == ignored[1..] + [reply] + after;
      RunHandshake(s, ignored[1..], reply, after, authRequestId);
    }
  }

  // ---------------------------------------------------------------------------
  // The connection object

  class Connection {
    /** Set by the auth reply, reset by disconnect. */
    var isAuthenticated: bool
    /** Whether `socket` holds a connected socket. */
    var connected: bool
    /** The emitter waiting for the reply to each request id. */
    var emitters: map<int32, WaiterId>

    /** Every byte written to a socket, in order. */
    ghost var output: seq<byte>
    /** Every signal sent to a waiter (onNext with the packet, then onComplete), in order. */
    ghost var deliveries: seq<(WaiterId, Packet)>
    /** The request id each waiter was ever registered under. */
    ghost var registeredUnder: map<WaiterId, int32>

    ghost function State(): (s: Session)
      reads this
    {
      Session(isAuthenticated, emitters)
    }

    /** A waiter is pending under the id it was registered with, every delivery went to the
        waiter registered under the delivered packet's id, no waiter is signalled twice, and
        no pending waiter has been signalled yet. */
    ghost predicate Valid()
      reads this
    {
      && (forall id :: id in emitters ==>
            emitters[id] in registeredUnder && registeredUnder[emitters[id]] == id)
      && (forall i :: 0 <= i < |deliveries| ==>
            deliveries[i].0 in registeredUnder
            && registeredUnder[deliveries[i].0] == deliveries[i].1.requestId)
      && (forall i, j :: 0 <= i < j < |deliveries| ==> deliveries[i].0 != deliveries[j].0)
      && (forall id, i :: id in emitters && 0 <= i < |deliveries| ==>
            deliveries[i].0 != emitters[id])
    }

    constructor ()
      ensures Valid()
      ensures !isAuthenticated && !connected && emitters == map[]
      ensures output == [] && deliveries == [] && registeredUnder == map[]
    {
      isAuthenticated := false;
      connected := false;
      emitters := map[];
      output := [];
      deliveries := [];
      registeredUnder := map[];
    }

    /** sendPacket: writes the packet's frame to the socket, or fails with NotConnected and
        writes nothing when no socket is connected. */
    method SendPacket(p: Packet) returns (r: Result<()>)
      requires Valid()
      requires |p.body| <= MaxArrayLength
      modifies this`output
      ensures Valid()
      ensures !connected ==> r == Err(NotConnected) && output == old(output)
      ensures connected && Encode(p).Ok? ==> r == Ok(()) && output == old(output) + Encode(p).value
      ensures connected && Encode(p).Err? ==> r == Err(Encode(p).error) && output == old(output)
    {
      if !connected {
        return Err(NotConnected);
      }
      var frame := GetAsByteArray(p);
      if frame.Err? {
        return Err(frame.error);
      }
      output := output + frame.value;
      r := Ok(());
    }

    /** The socket supplier of authenticate: refuses while a socket is connected; otherwise
        opens the socket (which may fail) and sends the AUTH packet carrying the password. */
    method Connect(authRequestId: int32, password: seq<byte>, socketOpens: bool) returns (r: Result<()>)
      requires Valid()
      requires |password| <= MaxArrayLength
      modifies this
      ensures Valid()
      ensures isAuthenticated == old(isAuthenticated) && emitters == old(emitters)
      ensures deliveries == old(deliveries) && registeredUnder == old(registeredUnder)
      ensures old(connected) ==> r == Err(AlreadyConnected) && connected && output == old(output)
      ensures !old(connected) && !socketOpens ==> r == Err(IOFailure) && !connected && output == old(output)
      ensures !old(connected) && socketOpens ==>
        var e := Encode(Packet(authRequestId, ServerDataAuth, password));
        && connected
        && (e.Ok? ==> r == Ok(()) && output == old(output) + e.value)
        && (e.Err? ==> r == Err(e.error) && output == old(output))
    {
      if connected {
        return Err(AlreadyConnected);
      }
      if !socketOpens {
        return Err(IOFailure);
      }
      connected := true;
      r := SendPacket(Packet(authRequestId, ServerDataAuth, password));
    }

    /** sendCommand: sends an EXECCOMMAND packet and answers its request id. */
    method SendCommand(requestId: int32, command: seq<byte>) returns (r: Result<int32>)
      requires Valid()
      requires |command| <= MaxArrayLength
      modifies this`output
      ensures Valid()
      ensures var e := Encode(Packet(requestId, ServerDataExecCommand, command));
        && (connected && e.Ok? ==> r == Ok(requestId) && output == old(output) + e.value)
        && (!connected ==> r == Err(NotConnected) && output == old(output))
        && (connected && e.Err? ==> r == Err(e.error) && output == old(output))
    {
      var sent := SendPacket(Packet(requestId, ServerDataExecCommand, command));
      if sent.Err? {
        return Err(sent.error);
      }
      r := Ok(requestId);
    }

    /** sendCommandExpectingResponse: sends the EXECCOMMAND packet first, and only once it
        is written registers the waiter under its request id. A waiter already registered
        under that id is overwritten and will never be signalled. */
    method SendCommandExpectingResponse(requestId: int32, command: seq<byte>, waiter: WaiterId)
      returns (r: Result<()>)
      requires Valid()
      requires waiter !in registeredUnder
      requires |command| <= MaxArrayLength
      modifies this
      ensures Valid()
      ensures isAuthenticated == old(isAuthenticated) && connected == old(connected)
      ensures deliveries == old(deliveries)
      ensures var e := Encode(Packet(requestId, ServerDataExecCommand, command));
        if connected && e.Ok? then
          && r == Ok(())
          && output == old(output) + e.value
          && emitters == old(emitters)[requestId := waiter]
          && registeredUnder == old(registeredUnder)[waiter := requestId]
        else
          && r == Err(if connected then e.error else NotConnected)
          && output == old(output)
          && emitters == old(emitters) && registeredUnder == old(registeredUnder)
      ensures old(requestId in emitters) && r.Ok? ==> old(emitters[requestId]) !in emitters.Values
    {
      var sent := SendPacket(Packet(requestId, ServerDataExecCommand, command));
      if sent.Err? {
        return Err(sent.error);
      }
      emitters := emitters[requestId := waiter];
      registeredUnder := registeredUnder[waiter := requestId];
      r := Ok(());
    }

    /** One tick of the poll loop on a packet already read: the handshake until
        authenticated, the response correlator after. */
    method HandlePacket(p: Packet, authRequestId: int32) returns (r: Result<Packet>)
      requires Valid()
      modifies this
      ensures Valid()
      ensures var x := React(old(State()), p, authRequestId);
        && State() == x.next && r == x.result
        && deliveries == old(deliveries) + Delivery(x.delivered, p)
      ensures connected == old(connected) && output == old(output)
      ensures registeredUnder == old(registeredUnder)
    {
      var packetRequestId := p.requestId;
      if !isAuthenticated {
        if packetRequestId == authRequestId && p.packetType == ServerDataAuthResponse {
          isAuthenticated := true;
        } else if packetRequestId == -1 {
          isAuthenticated := false;
          return Err(AuthenticationFailed);
        }
      } else {
        if packetRequestId in emitters {
          var emitter := emitters[packetRequestId];
          emitters := emitters - {packetRequestId};
          deliveries := deliveries + [(emitter, p)];
        }
      }
      r := Ok(p);
    }

    /** One whole tick: reads a packet from the socket's input and handles it. A read that
        fails ends the tick with its failure and changes nothing. */
    method Tick(input: seq<byte>, authRequestId: int32) returns (r: Result<Decoded>)
      requires Valid()
      modifies this
      ensures Valid()
      ensures connected == old(connected) && output == old(output)
      ensures registeredUnder == old(registeredUnder)
      ensures Decode(input).Err? ==>
        r == Decode(input) && State() == old(State()) && deliveries == old(deliveries)
      ensures Decode(input).Ok? ==>
        var d := Decode(input).value;
        var x := React(old(State()), d.packet, authRequestId);
        && State() == x.next
        && deliveries == old(deliveries) + Delivery(x.delivered, d.packet)
        && r == (if x.result.Ok? then Ok(d) else Err(x.result.error))
    {
      var read := CreateFromStream(input);
      if read.Err? {
        return Err(read.error);
      }
      var handled := HandlePacket(read.value.packet, authRequestId);
      if handled.Err? {
        return Err(handled.error);
      }
      r := Ok(read.value);
    }

    /** closeSocket: closes a connected socket, which may fail, and clears the emitter table
        only when closing did not fail. A closed socket still reports itself connected. */
    method CloseSocket(closeSucceeds: bool) returns (r: Result<()>)
      requires Valid()
      modifies this`emitters
      ensures Valid()
      ensures old(connected) && !closeSucceeds ==> r == Err(IOFailure) && emitters == old(emitters)
      ensures !(old(connected) && !closeSucceeds) ==> r == Ok(()) && emitters == map[]
    {
      if connected && !closeSucceeds {
        return Err(IOFailure);
      }
      emitters := map[];
      r := Ok(());
    }

    /** disconnect: closes the socket, then unconditionally drops the socket and the
        authentication. Cleared waiters receive no signal. */
    method Disconnect(closeSucceeds: bool) returns (r: Result<bool>)
      requires Valid()
      modifies this
      ensures Valid()
      ensures !isAuthenticated && !connected
      ensures emitters == if old(connected) && !closeSucceeds then old(emitters) else map[]
      ensures r == if old(connected) && !closeSucceeds then Err(IOFailure) else Ok(true)
      ensures deliveries == old(deliveries) && output == old(output)
      ensures registeredUnder == old(registeredUnder)
    {
      var closed := CloseSocket(closeSucceeds);
      r := if closed.Ok? then Ok(true) else Err(closed.error);
      isAuthenticated := false;
      connected := false;
    }
  }

  // ---------------------------------------------------------------------------
  // The end of the authenticate stream

  /** authenticate as written, when the server rejects the login while a command waits for
      its reply. The stream ends with AuthenticationFailed and its disposer calls
      `disconnect()`, but `disconnect()` only builds an Observable that nobody subscribes to,
      so none of its body runs. The socket stays connected, the waiter stays pending, and
      authenticating again is refused with AlreadyConnected. */
  method RejectedLoginAsWritten(authRequestId: int32, password: seq<byte>,
                                commandRequestId: int32, command: seq<byte>, retryRequestId: int32)
    returns (first: Result<()>, sent: Result<()>, tick: Result<Packet>,
             pending: map<int32, WaiterId>, retry: Result<()>)
    requires |password| <= MaxBodyLength && |command| <= MaxBodyLength
    ensures first == Ok(()) && sent == Ok(())
    ensures tick == Err(AuthenticationFailed)
    ensures pending == map[commandRequestId := 0]
    ensures retry == Err(AlreadyConnected)
  {
    var c := new Connection();
    first := c.Connect(authRequestId, password, true);
    sent := c.SendCommandExpectingResponse(commandRequestId, command, 0);
    tick := c.HandlePacket(Packet(-1, ServerDataResponseValue, []), authRequestId);
    // the disposer runs here and changes nothing
    pending := c.emitters;
    retry := c.Connect(retryRequestId, password, true);
  }

  /** The intended end of the stream: the disposer runs `Disconnect`, which releases the
      socket and, when closing succeeds, drops the waiter; authenticating again then opens a
      new socket and sends AUTH. */
  method RejectedLoginThenDisconnect(authRequestId: int32, password: seq<byte>,
                                     commandRequestId: int32, command: seq<byte>,
                                     retryRequestId: int32, closeSucceeds: bool)
    returns (first: Result<()>, sent: Result<()>, tick: Result<Packet>,
             pending: map<int32, WaiterId>, retry: Result<()>)
    requires |password| <= MaxBodyLength && |command| <= MaxBodyLength
    ensures first == Ok(()) && sent == Ok(())
    ensures tick == Err(AuthenticationFailed)
    ensures pending == if closeSucceeds then map[] else map[commandRequestId := 0]
    ensures retry == Ok(())
  {
    var c := new Connection();
    first := c.Connect(authRequestId, password, true);
    sent := c.SendCommandExpectingResponse(commandRequestId, command, 0);
    tick := c.HandlePacket(Packet(-1, ServerDataResponseValue, []), authRequestId);
    var closed := c.Disconnect(closeSucceeds);
    pending := c.emitters;
    retry := c.Connect(retryRequestId, password, true);
  }
}
