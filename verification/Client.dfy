/** The client side of src/client.c: the registry of connected peers, and the commands that change it. */
module Client {
  import opened Wire
  import opened LinkedList
  import opened Wrappers
  import opened Registry
  import opened Requests
  import opened Commands
  import opened Text

  class Client {
    var servers: Handle<Peer>
    var lastfd: int
    const ownPort: int
    const username: Bytes
    var open: set<int>
    var sent: seq<Sent>
    var trace: seq<Exchange>  // the messages in `sent`, with the answers that were read in between

    ghost predicate Valid()
      reads this, servers, servers.chain, servers.chain.space
    {
      && servers.Attached() && servers.elements == |servers.chain.items|
      && Registered(servers.chain.items, ownPort, open)
    }

    /** CLIENT_initClient. */
    constructor (ownPort: int, username: Bytes, open: set<int>)
      ensures Valid() && servers.Spec() == View([], -1) && sent == [] && trace == []
      ensures this.ownPort == ownPort && this.username == username && this.open == open
      ensures fresh(servers) && fresh(servers.chain) && fresh(servers.chain.space)
      ensures Polite(sent, open, servers.chain.items) && InTurns(trace, sent)
    {
      this.ownPort, this.username, this.open := ownPort, username, open;
      lastfd, sent, trace := 0, [], [];
      servers := new Handle.AtStart();
    }

    /** A write to a socket; it fails exactly when the peer is dead. */
    method Send(fd: int, bytes: Bytes, dead: set<int>) returns (error: int)
      modifies this`sent, this`trace
      ensures error == if fd in dead then -1 else 0
      ensures sent == old(sent) + if fd in dead then [] else [Sent(fd, bytes)]
      ensures trace == old(trace) + if fd in dead then [] else [Wrote(Sent(fd, bytes))]
    {
      error := -1;
      if fd !in dead {
        sent := sent + [Sent(fd, bytes)];
        trace := trace + [Wrote(Sent(fd, bytes))];
        error := 0;
      }
    }

    /** The answer to a request is read from the socket that the request was written to. */
    method Hear(fd: int, answers: int -> Packet) returns (packet: Packet)
      modifies this`trace
      ensures packet == answers(fd) && trace == old(trace) + [Heard(Answer(fd, packet))]
    {
      packet := answers(fd);
      trace := trace + [Heard(Answer(fd, packet))];
    }

    /** CLIENT_borraUser. */
    method EraseUser(fd: int) returns (notFound: int)
      requires servers.Attached()
      modifies servers`pdi, servers`elements, servers.chain, servers.chain.space
      ensures servers.Attached() && servers.Spec() == Erase(old(servers.Spec()), fd)
      ensures servers.elements - |servers.chain.items| == old(servers.elements - |servers.chain.items|)
      ensures servers.chain.space == old(servers.chain.space)
      ensures notFound == if PositionOf(old(servers.chain.items), fd) < |old(servers.chain.items)| then 0 else 1
    {
      hide Chain.Valid, Handle.Anchored, Handle.Attached, Handle.Spec, View.Remove, PositionOf;
      var found := 0;
      ghost var peers := servers.chain.items;
      ghost var k := PositionOf(peers, fd);
      if !servers.IsEmpty() {
        servers.GoFirst();
        while !servers.AtLastSentinel() && found == 0
          invariant servers.Attached() && servers.chain.space == old(servers.chain.space)
          invariant servers.elements - |servers.chain.items| == old(servers.elements - |servers.chain.items|)
          invariant found == 0 ==> servers.chain.items == peers && 0 <= servers.Spec().at <= k
          invariant found != 0 ==> k < |peers| && servers.Spec() == View(peers, k).Remove()
          decreases if found == 0 then |servers.chain.items| + 1 - servers.Spec().at else 0
        {
          var server := servers.Query();
          if server.socketfd == fd {
            var ok := servers.Remove();
            found := 1;
          } else {
            var ok := servers.Advance();
          }
        }
        if found == 0 {
          RemoveNothing(View(peers, k));
        }
      }
      notFound := if found == 0 then 1 else 0;
    }

    /** One message, and its answer if one is waited for. */
    function Told(m: Sent, wait: Option<int -> Packet>): seq<Exchange> {
      [Wrote(m)] + if wait.None? then [] else [Heard(Answer(m.fd, wait.value(m.fd)))]
    }

    ghost function AllTold(messages: seq<Sent>, wait: Option<int -> Packet>): seq<Exchange> {
      if wait.None? then Writes(messages) else Exchanges(messages, wait.value)
    }

    /** One round of the loops of CLIENT_checkConnections, which does not wait for an answer, and CLIENT_broadcast. */
    method OfferTo(bytes: Bytes, dead: set<int>, wait: Option<int -> Packet>)
      requires servers.Attached() && servers.Spec().OnElement()
      modifies this`sent, this`trace, this`lastfd, servers`pdi, servers`elements, servers.chain, servers.chain.space
      ensures servers.Attached() && servers.Spec() == Round(old(servers.Spec()), dead)
      ensures servers.elements - |servers.chain.items| == old(servers.elements - |servers.chain.items|)
      ensures servers.chain.space == old(servers.chain.space)
      ensures var fd := old(servers.chain.items[servers.Spec().at].socketfd);
              && sent == old(sent) + (if fd in dead then [] else [Sent(fd, bytes)])
              && trace == old(trace) + if fd in dead then [] else Told(Sent(fd, bytes), wait)
    {
      hide Chain.Valid, Handle.Anchored, Handle.Attached, Handle.Spec, Erase;
      var server := servers.Query();
      var error := Send(server.socketfd, bytes, dead);
      if error != -1 {
        if wait.Some? {
          var packet := Hear(server.socketfd, wait.value);
        }
      } else {
        lastfd := server.socketfd;
        var notFound := EraseUser(lastfd);
      }
      var ok := servers.Advance();
    }

    /** A pass of OfferTo from the first peer to the end. */
    method OfferToAll(bytes: Bytes, dead: set<int>, wait: Option<int -> Packet>)
      requires Valid() && servers.chain.items != [] && (wait.None? <==> bytes == [PROBE])
      modifies this`sent, this`trace, this`lastfd, servers`pdi, servers`elements, servers.chain, servers.chain.space
      ensures Valid() && servers.chain.space == old(servers.chain.space)
      ensures servers.chain.items == Sweep(old(servers.chain.items), dead)
      ensures servers.Spec().at == |servers.chain.items|
      ensures var told := ToEach(Reached(old(servers.chain.items), dead), bytes);
              && sent == old(sent) + told
              && trace == old(trace) + AllTold(told, wait)
    {
      hide Chain.Valid, Handle.Anchored, Handle.Attached, Handle.Spec, Round, Registered, Sweep, Reached, AllTold,
        ToEach;
      NothingTold(bytes, wait);
      ghost var peers := servers.chain.items;
      ghost var reached := [];
      servers.GoFirst();
      assert Final(View(peers, 0), dead) == Sweep(peers, dead) && ToReach(View(peers, 0), dead) == Reached(peers, dead)
        by { FromTheStart(peers, dead); }
      while !servers.AtLastSentinel()
        invariant Valid() && servers.chain.space == old(servers.chain.space)
        invariant 0 <= servers.Spec().at
        invariant Final(servers.Spec(), dead) == Sweep(peers, dead)
        invariant reached + ToReach(servers.Spec(), dead) == Reached(peers, dead)
        invariant sent == old(sent) + ToEach(reached, bytes)
        invariant trace == old(trace) + AllTold(ToEach(reached, bytes), wait)
        decreases |servers.chain.items| - servers.Spec().at
      {
        ghost var v := servers.Spec();
        RoundMakesProgress(v, dead, ownPort, open);
        ghost var p := v.items[v.at];
        ghost var now := if p.socketfd in dead then [] else [p];
        OfferTo(bytes, dead, wait);
        OneMoreTold(reached, p, dead, bytes, wait);
        reached := reached + now;
      }
      AtTheEnd(servers.Spec(), dead);
      assert reached == Reached(peers, dead);
    }

    lemma NothingTold(bytes: Bytes, wait: Option<int -> Packet>)
      ensures ToEach([], bytes) == []
      ensures AllTold([], wait) == []
    {
    }

    lemma OneMoreTold(reached: seq<Peer>, p: Peer, dead: set<int>, bytes: Bytes, wait: Option<int -> Packet>)
      requires wait.None? <==> bytes == [PROBE]
      ensures var fd, now := p.socketfd, if p.socketfd in dead then [] else [p];
              && ToEach(reached + now, bytes) == ToEach(reached, bytes) + (if fd in dead then [] else [Sent(fd, bytes)])
              && AllTold(ToEach(reached + now, bytes), wait) ==
                 AllTold(ToEach(reached, bytes), wait) + if fd in dead then [] else Told(Sent(fd, bytes), wait)
    {
      hide Exchanges;
      var m := Sent(p.socketfd, bytes);
      var now := if p.socketfd in dead then [] else [p];
      ToEachAppend(reached, now, bytes);
      assert ToEach(now, bytes) == if p.socketfd in dead then [] else [m];
      if wait.Some? {
        ExchangesAppend(ToEach(reached, bytes), ToEach(now, bytes), wait.value);
        ExchangesOfOne(m, wait.value);
      } else {
        WritesAppend(ToEach(reached, bytes), ToEach(now, bytes));
      }
    }

    /** CLIENT_checkConnections: every peer that cannot be written to is to be dropped, and an emptied list
        is built anew, with its cursor on the left. */
    method CheckConnections(dead: set<int>)
      requires Valid()
      modifies this, servers, servers.chain, servers.chain.space
      ensures Valid() && open == old(open)
      ensures servers.chain.items == Sweep(old(servers.chain.items), dead)
      ensures servers.chain.items == [] ==> servers.Spec().at == -1
      ensures var told := ToEach(Reached(old(servers.chain.items), dead), [PROBE]);
              sent == old(sent) + told && trace == old(trace) + Writes(told)
      ensures (servers == old(servers) && servers.chain == old(servers.chain)
               && servers.chain.space == old(servers.chain.space))
              || (fresh(servers) && fresh(servers.chain) && fresh(servers.chain.space))
    {
      hide Chain.Valid, Handle.Anchored, Handle.Attached, Handle.Spec, Registered;
      if !servers.IsEmpty() {
        OfferToAll([PROBE], dead, None);
      }
      if servers.IsEmpty() {
        ghost var freed := servers.Destroy();
        servers := new Handle.AtStart();
      }
    }

    /** One round of the search loops: a peer of this name that cannot be written to is dropped. */
    method AskOne(user: Bytes, bytes: Bytes, dead: set<int>, answers: int -> Packet) returns (target: Option<Peer>)
      requires Valid() && servers.Spec().OnElement()
      modifies this`sent, this`trace, this`lastfd, servers`pdi, servers`elements, servers.chain, servers.chain.space
      ensures Valid() && servers.chain.space == old(servers.chain.space)
      ensures var v := old(servers.Spec());
              var p := v.items[v.at];
              && target == (if Answers(p, user, dead) then Some(p) else None)
              && servers.Spec() == (if target.Some? then v else Rejected(v, user))
              && sent == old(sent) + (if target.Some? then [Sent(p.socketfd, bytes)] else [])
              && trace == old(trace) + if target.Some? then Told(Sent(p.socketfd, bytes), Some(answers)) else []
    {
      hide Chain.Valid, Handle.Anchored, Handle.Attached, Handle.Spec, Registered, Erase, Matches, View.Remove;
      target := None;
      var server := servers.Query();
      var different := CompareCaseInsensitive(server.name, user);
      if different == 0 {
        var error := Send(server.socketfd, bytes, dead);
        lastfd := server.socketfd;
        if error != -1 {
          var packet := Hear(server.socketfd, answers);
          target := Some(server);
        } else {
          EraseAtCursor(servers.Spec(), ownPort, open);
          var notFound := EraseUser(lastfd);
        }
      } else {
        var ok := servers.Advance();
      }
    }

    /** The loop that CLIENT_write, CLIENT_showAudios and CLIENT_download have in common: find the peer by name,
        send it the request, and read its answer. */
    method Ask(user: Bytes, request: Request, dead: set<int>, answers: int -> Packet) returns (target: Option<Peer>)
      requires Valid()
      modifies this`sent, this`trace, this`lastfd, servers`pdi, servers`elements, servers.chain, servers.chain.space
      ensures Valid() && servers.chain.space == old(servers.chain.space)
      ensures Found(servers.chain.items, target) == Search(old(servers.chain.items), user, dead)
      ensures sent == old(sent) + Delivery(Asked(target), request)
      ensures trace == old(trace) + Exchanges(Delivery(Asked(target), request), answers)
    {
      hide Chain.Valid, Handle.Anchored, Handle.Attached, Handle.Spec, Registered, Encode, RequestPacket,
        Matches, View.Remove, Search, SearchFrom, Exchanges, Delivery;
      target := None;
      ghost var peers := servers.chain.items;
      var bytes := Encode(RequestPacket(request));
      SearchFromTheStart(peers, user, dead);
      ghost var trace0 := trace;
      if !servers.IsEmpty() {
        servers.GoFirst();
        while !servers.AtLastSentinel() && target.None?
          invariant Valid() && servers.chain.space == old(servers.chain.space)
          invariant 0 <= servers.Spec().at
          invariant SearchFrom(servers.Spec(), user, dead) == Search(peers, user, dead)
          invariant target.Some? ==> Search(peers, user, dead) == Found(servers.chain.items, target)
          invariant sent == old(sent) + if target.Some? then [Sent(target.value.socketfd, bytes)] else []
          invariant trace == trace0 + if target.Some? then AskedOf(target.value, bytes, answers) else []
          decreases if target.None? then |servers.chain.items| + 1 - servers.Spec().at else 0
        {
          SearchRound(servers.Spec(), user, dead);
          target := AskOne(user, bytes, dead, answers);
        }
      }
      if target.None? {
        SearchAtTheEnd(View(servers.chain.items, |servers.chain.items|), user, dead);
      }
      OneDelivered(target, request, answers);
    }

    function AskedOf(p: Peer, bytes: Bytes, answers: int -> Packet): seq<Exchange> {
      Told(Sent(p.socketfd, bytes), Some(answers))
    }

    lemma OneDelivered(target: Option<Peer>, request: Request, answers: int -> Packet)
      ensures Delivery(Asked(target), request) ==
              if target.Some? then [Sent(target.value.socketfd, Encode(RequestPacket(request)))] else []
      ensures Exchanges(Delivery(Asked(target), request), answers) ==
              if target.Some? then AskedOf(target.value, Encode(RequestPacket(request)), answers) else []
    {
      hide Exchanges, Encode, RequestPacket;
      KindOfRequest(request);
      ExchangesOfOne(Sent(if target.Some? then target.value.socketfd else 0, Encode(RequestPacket(request))), answers);
    }

    /** CLIENT_broadcast. */
    method Broadcast(message: Bytes, dead: set<int>, answers: int -> Packet)
      requires Valid()
      modifies this`sent, this`trace, this`lastfd, servers`pdi, servers`elements, servers.chain, servers.chain.space
      ensures Valid() && servers.chain.space == old(servers.chain.space)
      ensures servers.chain.items == Sweep(old(servers.chain.items), dead)
      ensures var told := ToEach(Reached(old(servers.chain.items), dead),
                                 Encode(RequestPacket(Request.Broadcast(message))));
              sent == old(sent) + told && trace == old(trace) + Exchanges(told, answers)
    {
      hide Chain.Valid, Handle.Anchored, Handle.Attached, Handle.Spec, Registered, RequestPacket, Encode, ToEach,
        Exchanges;
      KindOfRequest(Request.Broadcast(message));
      NothingTold(Encode(RequestPacket(Request.Broadcast(message))), Some(answers));
      if !servers.IsEmpty() {
        OfferToAll(Encode(RequestPacket(Request.Broadcast(message))), dead, Some(answers));
      }
    }

    /** socket(): a descriptor that is not open. */
    method OpenSocket() returns (fd: int)
      modifies this`open
      ensures fd !in old(open) && open == old(open) + {fd}
    {
      fd := 0;
      ghost var below: set<int> := {};
      while fd in open
        invariant 0 <= fd && forall j :: j in below <==> 0 <= j < fd
        invariant below <= open && |below| == fd
        decreases |open - below|
      {
        below := below + {fd};
        fd := fd + 1;
      }
      open := open + {fd};
    }

    /** The search of CLIENT_connectPort for a peer of this port. */
    method FindPort(port: int) returns (found: bool)
      requires Valid()
      modifies servers`pdi
      ensures Valid() && found == HasPort(servers.chain.items, port)
      ensures servers.chain.items == [] ==> servers.Spec() == old(servers.Spec())
    {
      hide Chain.Valid, Handle.Anchored, Handle.Attached, Handle.Spec, Registered;
      if !servers.IsEmpty() {
        servers.GoFirst();
        while !servers.AtLastSentinel()
          invariant Valid() && 0 <= servers.Spec().at
          invariant forall i :: 0 <= i < servers.Spec().at ==> servers.chain.items[i].port != port
          decreases |servers.chain.items| - servers.Spec().at
        {
          var server := servers.Query();
          if port == server.port {
            return true;
          }
          var ok := servers.Advance();
        }
      }
      return false;
    }

    /** The end of CLIENT_connectPort: the connect request is sent, its answer holds the name of the peer, and the
        peer enters the list. */
    method EnterPeer(port: int, answers: int -> Packet) returns (fd: int)
      requires Valid() && !HasPort(servers.chain.items, port) && port != ownPort
      modifies this`open, this`sent, this`trace, servers, servers.chain, servers.chain.space
      ensures Valid() && servers.chain == old(servers.chain)
      ensures fresh(servers.chain.space - old(servers.chain.space))
      ensures fd !in old(open) && open == old(open) + {fd}
      ensures servers.chain.items == Enter(old(servers.Spec()), Peer(port, answers(fd).data, fd)).items
      ensures sent == old(sent) + [Sent(fd, Encode(RequestPacket(Request.Connect(username))))]
      ensures var m := Sent(fd, Encode(RequestPacket(Request.Connect(username))));
              trace == old(trace) + Told(m, Some(answers))
    {
      hide Chain.Valid, Handle.Anchored, Handle.Attached, Handle.Spec, RequestPacket, Encode, Registered, HasPort,
        Enter, View.InsertAfter;
      ghost var v := servers.Spec();
      fd := OpenSocket();
      var error := Send(fd, Encode(RequestPacket(Request.Connect(username))), {});
      var reply := Hear(fd, answers);
      if !servers.IsEmpty() {
        servers.GoFirst();
      }
      EnterIs(v, servers.Spec(), Peer(port, reply.data, fd));
      EnterKeepsRegistered(v, Peer(port, reply.data, fd), ownPort, old(open));
      var ok := servers.InsertAfter(Peer(port, reply.data, fd));
    }

    /** CLIENT_connectPort; what the network makes of it is given by `dialed`. */
    method ConnectPort(port: int, dialed: Dialed, answers: int -> Packet) returns (result: Connection)
      requires Valid()
      modifies this, servers, servers.chain, servers.chain.space
      ensures Valid() && servers == old(servers) && servers.chain == old(servers.chain)
      ensures fresh(servers.chain.space - old(servers.chain.space))
      ensures HasPort(old(servers.chain.items), port) <==> result.AlreadyConnected?
      ensures !HasPort(old(servers.chain.items), port) && port == ownPort <==> result.IsOwnPort?
      ensures !HasPort(old(servers.chain.items), port) && port != ownPort ==>
                if dialed.Accepted? then result.Connected? else result == Failed
      ensures result.Connected? ==>
                && result.fd !in old(open) && open == old(open) + {result.fd}
                && servers.chain.items ==
                   Enter(old(servers.Spec()), Peer(port, answers(result.fd).data, result.fd)).items
                && sent == old(sent) + [Sent(result.fd, Encode(RequestPacket(Request.Connect(username))))]
                && trace == old(trace)
                            + Told(Sent(result.fd, Encode(RequestPacket(Request.Connect(username)))), Some(answers))
      ensures !result.Connected? ==>
                && open == old(open) && servers.chain.items == old(servers.chain.items)
                && sent == old(sent) && trace == old(trace)
    {
      hide Chain.Valid, Handle.Anchored, Handle.Attached, Handle.Spec, RequestPacket, Encode, Registered,
        HasPort, Enter;
      var found := FindPort(port);
      if found {
        return AlreadyConnected;
      }
      if port == ownPort {
        return IsOwnPort;
      }
      match dialed
      case NoSocket =>
        return Failed;
      case Refused =>
        var fd := OpenSocket();
        open := open - {fd};
        return Failed;
      case Accepted =>
        FromFirst(old(servers.Spec()), servers.Spec());
        var fd := EnterPeer(port, answers);
        return Connected(fd);
    }

    /** One round of CLIENT_exit. */
    method TellOne(bytes: Bytes, dead: set<int>, answers: int -> Packet) returns (fd: int)
      requires servers.Attached() && servers.Spec().OnElement()
      modifies this`sent, this`trace, this`open, servers`pdi
      ensures servers.Attached() && servers.Spec() == old(servers.Spec()).Advance()
      ensures fd == servers.chain.items[old(servers.Spec().at)].socketfd && open == old(open) - {fd}
      ensures && sent == old(sent) + (if fd in dead then [] else [Sent(fd, bytes)])
              && trace == old(trace) + if fd in dead then [] else Told(Sent(fd, bytes), Some(answers))
    {
      hide Chain.Valid, Handle.Anchored, Handle.Attached, Handle.Spec;
      var server := servers.Query();
      var error := Send(server.socketfd, bytes, dead);
      if error != -1 {
        var packet := Hear(server.socketfd, answers);
      }
      fd := server.socketfd;
      open := open - {fd};
      var ok := servers.Advance();
    }

    /** CLIENT_exit: everyone who can be written to is told, and all descriptors are closed. */
    method Exit(dead: set<int>, answers: int -> Packet) returns (closed: set<int>)
      requires Valid()
      modifies this`sent, this`trace, this`open, servers`pdi
      ensures servers.Attached() && servers.chain.items == old(servers.chain.items)
      ensures var told := ToEach(Alive(servers.chain.items, dead), Encode(RequestPacket(Request.Exit(username))));
              sent == old(sent) + told && trace == old(trace) + Exchanges(told, answers)
      ensures closed == DescriptorSet(servers.chain.items) && open == old(open) - closed
    {
      hide Chain.Valid, Handle.Anchored, Handle.Attached, Handle.Spec, RequestPacket, Encode, Registered,
        DescriptorSet, Alive, ToEach, Exchanges;
      var bytes := Encode(RequestPacket(Request.Exit(username)));
      ghost var peers := servers.chain.items;
      KindOfRequest(Request.Exit(username));
      closed := {};
      servers.GoFirst();
      ToldUpTo(peers, dead, bytes, 0);
      NothingTold(bytes, Some(answers));
      while !servers.AtLastSentinel()
        invariant servers.Attached() && servers.chain.items == peers && 0 <= servers.Spec().at
        invariant sent == old(sent) + ToEach(Alive(peers[..servers.Spec().at], dead), bytes)
        invariant trace == old(trace) + AllTold(ToEach(Alive(peers[..servers.Spec().at], dead), bytes), Some(answers))
        invariant closed == DescriptorSet(peers[..servers.Spec().at]) && open == old(open) - closed
        decreases |peers| - servers.Spec().at
      {
        ghost var at := servers.Spec().at;
        ToldUpTo(peers, dead, bytes, at + 1);
        OneMoreTold(Alive(peers[..at], dead), peers[at], dead, bytes, Some(answers));
        AliveUpTo(peers, dead, at);
        var fd := TellOne(bytes, dead, answers);
        closed := closed + {fd};
      }
      assert peers[..|peers|] == peers;
    }

    lemma AliveUpTo(peers: seq<Peer>, dead: set<int>, n: nat)
      requires n < |peers|
      ensures Alive(peers[..n + 1], dead) ==
              Alive(peers[..n], dead) + if peers[n].socketfd in dead then [] else [peers[n]]
    {
      assert peers[..n + 1] == peers[..n] + [peers[n]];
      AliveAppend(peers[..n], peers[n], dead);
    }

    /** The peers that a command leaves: none at the end, when the list is freed. */
    ghost function PeersAfter(result: Reply): seq<Peer>
      reads this, servers, servers.chain
    {
      if result.Ended? then [] else servers.chain.items
    }

    /** At the end the list is freed; otherwise it is as good as before. */
    ghost predicate StillValid(result: Reply)
      reads this, servers, servers.chain, servers.chain.space
    {
      if result.Ended? then servers.pri == null && servers.pdi == null && servers.ult == null else Valid()
    }

    /** EXIT, whose signal leads to CLIENT_exit and CLIENT_freeMemory. */
    method End(dead: set<int>, answers: int -> Packet) returns (result: Reply)
      requires Valid()
      modifies this`sent, this`trace, this`open, servers
      ensures result == Ended(DescriptorSet(old(servers.chain.items))) && StillValid(result)
      ensures servers.chain == old(servers.chain) && servers.chain.space == old(servers.chain.space)
      ensures Opened(old(open), open, result)
      ensures var told := ToEach(Alive(old(servers.chain.items), dead), Encode(RequestPacket(Request.Exit(username))));
              sent == old(sent) + told && trace == old(trace) + Exchanges(told, answers)
    {
      hide Chain.Valid, Handle.Anchored, Handle.Attached, Handle.Spec, Registered, ToEach, Encode, RequestPacket,
        DescriptorSet, Exchanges, Alive;
      var closed := Exit(dead, answers);
      result := Ended(closed);
      ghost var freed := servers.Destroy();
    }

    /** CONNECT, which checks once more. */
    method Dial(port: int, dialed: Dialed, dead: set<int>, answers: int -> Packet) returns (result: Reply)
      requires Valid()
      modifies this, servers, servers.chain, servers.chain.space
      ensures Valid()
      ensures fresh({servers} - old({servers})) && fresh({servers.chain} - old({servers.chain}))
      ensures fresh(servers.chain.space - old(servers.chain.space))
      ensures Acted(old(servers.chain.items), ownPort, Command.Connect(port, dialed), dead, answers,
                    servers.chain.items, result)
      ensures var messages := Sends(old(servers.chain.items), username, Command.Connect(port, dialed), dead, result);
              sent == old(sent) + messages && trace == old(trace) + Exchanges(messages, answers)
      ensures Opened(old(open), open, result)
    {
      hide Chain.Valid, Handle.Anchored, Handle.Attached, Handle.Spec, Registered, Sweep, Reached, ToEach, Encode,
        RequestPacket, Exchanges;
      CheckConnections(dead);
      var connection := ConnectPort(port, dialed, answers);
      result := Dialled(connection);
      ExchangesOfDialling(Reached(old(servers.chain.items), dead), connection, username, answers);
    }

    lemma ExchangesOfDialling(peers: seq<Peer>, connection: Connection, username: Bytes, answers: int -> Packet)
      ensures Exchanges(ToEach(peers, [PROBE]), answers) == Writes(ToEach(peers, [PROBE]))
      ensures ToEach(peers, [PROBE]) + [] == ToEach(peers, [PROBE])
      ensures connection.Connected? ==>
                var m := Sent(connection.fd, Encode(RequestPacket(Request.Connect(username))));
                Exchanges(ToEach(peers, [PROBE]) + [m], answers) ==
                Writes(ToEach(peers, [PROBE])) + Told(m, Some(answers))
    {
      hide Encode, RequestPacket, Exchanges, ToEach;
      ProbesAreWrites(peers, answers);
      if connection.Connected? {
        var m := Sent(connection.fd, Encode(RequestPacket(Request.Connect(username))));
        KindOfRequest(Request.Connect(username));
        ExchangesAppend(ToEach(peers, [PROBE]), [m], answers);
        ExchangesOfOne(m, answers);
      }
    }

    /** The branches of MANAGER_manageCommand, after the first check. */
    method Act(command: Command, dead: set<int>, answers: int -> Packet) returns (result: Reply)
      requires Valid()
      modifies this, servers, servers.chain, servers.chain.space
      ensures StillValid(result)
      ensures fresh({servers} - old({servers})) && fresh({servers.chain} - old({servers.chain}))
      ensures fresh(servers.chain.space - old(servers.chain.space))
      ensures Acted(old(servers.chain.items), ownPort, command, dead, answers, PeersAfter(result), result)
      ensures var messages := Sends(old(servers.chain.items), username, command, dead, result);
              sent == old(sent) + messages && trace == old(trace) + Exchanges(messages, answers)
      ensures Opened(old(open), open, result)
    {
      hide Chain.Valid, Handle.Anchored, Handle.Attached, Handle.Spec, Registered, Sweep, Search, Reached, Alive,
        ToEach, Encode, RequestPacket, Exchanges, DescriptorSet, Delivery;
      result := Nothing;
      NothingTold([], Some(answers));
      match command
      case Connect(port, dialed) =>
        result := Dial(port, dialed, dead, answers);
      case Say(user, message) =>
        var target := Ask(user, Message(message), dead, answers);
        result := Asked(target);
      case Fetch(user, file) =>
        var target := Ask(user, Download(file), dead, answers);
        result := Asked(target);
      case ShowAudios(user) =>
        var target := Ask(user, ListAudios, dead, answers);
        result := Asked(target);
      case BroadcastAll(message) =>
        Broadcast(message, dead, answers);
      case Quit =>
        result := End(dead, answers);
      case Blank =>
      case Unknown =>
    }

    lemma ExchangesBehindProbes(peers: seq<Peer>, more: seq<Sent>, answers: int -> Packet)
      ensures Exchanges(ToEach(peers, [PROBE]) + more, answers) ==
              Writes(ToEach(peers, [PROBE])) + Exchanges(more, answers)
    {
      hide Exchanges, ToEach, Writes;
      ProbesAreWrites(peers, answers);
      ExchangesAppend(ToEach(peers, [PROBE]), more, answers);
    }

    /** MANAGER_manageCommand: a check of the connections comes before every command that is not blank, and
        a second one before connecting. `dead` are the peers that are dead at the first check, `later` those
        that are dead afterwards. */
    method Execute(command: Command, dead: set<int>, later: set<int>, answers: int -> Packet) returns (result: Reply)
      requires Valid()
      modifies this, servers, servers.chain, servers.chain.space
      ensures StillValid(result)
      ensures fresh({servers} - old({servers})) && fresh({servers.chain} - old({servers.chain}))
      ensures fresh(servers.chain.space - old(servers.chain.space))
      ensures Effect(old(servers.chain.items), ownPort, command, dead, later, answers, PeersAfter(result), result)
      ensures var messages := Traffic(old(servers.chain.items), username, command, dead, later, result);
              sent == old(sent) + messages && trace == old(trace) + Exchanges(messages, answers)
      ensures Opened(old(open), open, result)
    {
      hide Chain.Valid, Handle.Anchored, Handle.Attached, Handle.Spec, Registered, Sweep, Search, Reached,
        ToEach, Sends, Acted, Opened, Exchanges;
      if !command.Blank? {
        CheckConnections(dead);
      }
      result := Act(command, later, answers);
      ghost var peers := old(servers.chain.items);
      if command.Blank? {
        BlankSendsNothing(peers, username, later, result);
      } else {
        var more := Sends(Sweep(peers, dead), username, command, later, result);
        ExchangesBehindProbes(Reached(peers, dead), more, answers);
      }
    }

    /** The prompt: any sequence of commands, with any peers dying in between. Every list on the way is properly
        registered, each follows from the one before by the effect of its command, and the prompt goes on until a
        command ends the program. */
    method Prompt(inputs: seq<Input>)
      returns (ghost lists: seq<seq<Peer>>, ghost opens: seq<set<int>>, ghost logs: seq<seq<Sent>>, results: seq<Reply>)
      requires Valid() && Polite(sent, open, servers.chain.items) && InTurns(trace, sent)
      modifies this, servers, servers.chain, servers.chain.space
      ensures |results| <= |inputs| && |lists| == |opens| == |logs| == |results| + 1
      ensures forall i :: 0 <= i < |results| - 1 ==> !results[i].Ended?
      ensures var last := if results == [] then Nothing else results[|results| - 1];
              && (last.Ended? || |results| == |inputs|) && StillValid(last) && lists[|results|] == PeersAfter(last)
              && StillPolite(sent, open, lists[|results|], last)
      ensures InTurns(trace, sent)
      ensures lists[0] == old(servers.chain.items) && opens[0] == old(open) && opens[|results|] == open
      ensures logs[0] == old(sent) && logs[|results|] == sent
      ensures forall i :: 0 <= i <= |results| ==> Registered(lists[i], ownPort, opens[i])
      ensures forall i :: 0 <= i < |results| ==> Follows(inputs[i], lists, opens, logs, results[i], i)
    {
      hide Chain.Valid, Handle.Anchored, Handle.Attached, Handle.Spec, Registered, Effect, Traffic, Opened,
        InTurns, Exchanges, Conforming, NoExits, Within, AllIntroduced;
      lists, opens, logs, results := [servers.chain.items], [open], [sent], [];
      var last := Nothing;
      while |results| < |inputs| && !last.Ended?
        invariant |lists| == |opens| == |logs| == |results| + 1 <= |inputs| + 1
        invariant forall i :: 0 <= i < |results| - 1 ==> !results[i].Ended?
        invariant last == if results == [] then Nothing else results[|results| - 1]
        invariant StillValid(last) && StillPolite(sent, open, lists[|results|], last) && InTurns(trace, sent)
        invariant fresh({servers} - old({servers})) && fresh({servers.chain} - old({servers.chain}))
        invariant fresh(servers.chain.space - old(servers.chain.space))
        invariant lists[0] == old(servers.chain.items) && lists[|results|] == PeersAfter(last)
        invariant opens[0] == old(open) && opens[|results|] == open
        invariant logs[0] == old(sent) && logs[|results|] == sent
        invariant forall i :: 0 <= i <= |results| ==> Registered(lists[i], ownPort, opens[i])
        invariant forall i :: 0 <= i < |results| ==> Follows(inputs[i], lists, opens, logs, results[i], i)
      {
        var input := inputs[|results|];
        ghost var trace0 := trace;
        last := Execute(input.command, input.dead, input.later, input.answers);
        ghost var n := |results|;
        RegisteredIsDistinct(lists[n], ownPort, opens[n]);
        NobodyIsRegistered(ownPort, open);
        CommandIsPolite(logs[n], opens[n], lists[n], ownPort, username, input.command, input.dead, input.later,
                        input.answers, PeersAfter(last), last, open);
        StaysInTurns(trace0, logs[n], Traffic(lists[n], username, input.command, input.dead, input.later, last),
                     input.answers);
        lists, opens, logs := lists + [PeersAfter(last)], opens + [open], logs + [sent];
        results := results + [last];
      }
    }

    lemma RegisteredIsDistinct(peers: seq<Peer>, ownPort: int, open: set<int>)
      requires Registered(peers, ownPort, open)
      ensures DistinctDescriptors(peers)
    {
    }

    /** Step i of a run: the list, the descriptors and the messages after it, from those before it. */
    ghost predicate Follows(input: Input, lists: seq<seq<Peer>>, opens: seq<set<int>>, logs: seq<seq<Sent>>,
                            result: Reply, i: nat)
      requires i + 1 < |lists| && |lists| == |opens| == |logs|
    {
      && Effect(lists[i], ownPort, input.command, input.dead, input.later, input.answers, lists[i + 1], result)
      && Opened(opens[i], opens[i + 1], result)
      && logs[i + 1] == logs[i] + Traffic(lists[i], username, input.command, input.dead, input.later, result)
    }
  }
}
