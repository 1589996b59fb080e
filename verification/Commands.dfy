/** The commands of src/commandManager.c said on values: what each does to the list of peers, what it writes to
    which descriptor, and what that means for every connection. */
module Commands {
  import opened Wire
  import opened Wrappers
  import opened Registry
  import opened Requests
  import opened Text

  /** Something that was written to a socket and did not fail. */
  datatype Sent = Sent(fd: int, bytes: Bytes)

  /** What was read from a socket as the answer to a request; of a transfer this is the first packet. */
  datatype Answer = Answer(fd: int, packet: Packet)

  /** What a client does on its sockets, in order. */
  datatype Exchange = Wrote(message: Sent) | Heard(answer: Answer)

  /** How an attempt to reach a port can end: no socket, no listener, or a connection. */
  datatype Dialed = NoSocket | Refused | Accepted

  datatype Connection = AlreadyConnected | IsOwnPort | Failed | Connected(fd: int)

  /** The commands of the prompt, as far as they touch the registry. */
  datatype Command =
    | Blank
    | Connect(port: int, dialed: Dialed)
    | Say(user: Bytes, message: Bytes)
    | BroadcastAll(message: Bytes)
    | Fetch(user: Bytes, file: Bytes)
    | ShowAudios(user: Bytes)
    | Quit
    | Unknown

  /** A command, with the peers that are dead when it checks the connections and when it acts, and what is answered
      on which descriptor. */
  datatype Input = Input(command: Command, dead: set<int>, later: set<int>, answers: int -> Packet)

  datatype Reply =
    | Nothing
    | Dialled(connection: Connection)
    | Asked(target: Option<Peer>)
    | Ended(closed: set<int>)

  /** What a command does to the list of peers once the connections have been checked. */
  ghost predicate Acted(peers: seq<Peer>, ownPort: int, command: Command, dead: set<int>,
                        answers: int -> Packet, after: seq<Peer>, result: Reply)
  {
    match command
    case Blank => after == peers && result == Nothing
    case Unknown => after == peers && result == Nothing
    case Quit => after == [] && result == Ended(DescriptorSet(peers))
    case BroadcastAll(_) => after == Sweep(peers, dead) && result == Nothing
    case Say(user, _) => result.Asked? && Found(after, result.target) == Search(peers, user, dead)
    case Fetch(user, _) => result.Asked? && Found(after, result.target) == Search(peers, user, dead)
    case ShowAudios(user) => result.Asked? && Found(after, result.target) == Search(peers, user, dead)
    case Connect(port, dialed) =>
      var checked := Sweep(peers, dead);
      && result.Dialled?
      && match result.connection
         case AlreadyConnected => HasPort(checked, port) && after == checked
         case IsOwnPort => !HasPort(checked, port) && port == ownPort && after == checked
         case Failed => !HasPort(checked, port) && port != ownPort && !dialed.Accepted? && after == checked
         case Connected(fd) =>
           && !HasPort(checked, port) && port != ownPort && dialed.Accepted?
           && after == Inserted(checked, Peer(port, answers(fd).data, fd))
  }

  /** What one whole command does to the list: blank input does nothing, anything else first checks. After the end
      there is no list. */
  ghost predicate Effect(peers: seq<Peer>, ownPort: int, command: Command, dead: set<int>, later: set<int>,
                         answers: int -> Packet, after: seq<Peer>, result: Reply)
  {
    Acted(if command.Blank? then peers else Sweep(peers, dead), ownPort, command, later, answers, after, result)
  }

  /** What a command writes once the connections have been checked. */
  ghost function Sends(peers: seq<Peer>, username: Bytes, command: Command, dead: set<int>, result: Reply): seq<Sent> {
    match command
    case Blank => []
    case Unknown => []
    case Quit => ToEach(Alive(peers, dead), Encode(RequestPacket(Request.Exit(username))))
    case BroadcastAll(message) => ToEach(Reached(peers, dead), Encode(RequestPacket(Request.Broadcast(message))))
    case Say(_, message) => Delivery(result, Message(message))
    case Fetch(_, file) => Delivery(result, Download(file))
    case ShowAudios(_) => Delivery(result, ListAudios)
    case Connect(_, _) =>
      ToEach(Reached(peers, dead), [PROBE])
      + if result.Dialled? && result.connection.Connected?
        then [Sent(result.connection.fd, Encode(RequestPacket(Request.Connect(username))))] else []
  }

  ghost function Traffic(peers: seq<Peer>, username: Bytes, command: Command, dead: set<int>, later: set<int>,
                         result: Reply): seq<Sent>
  {
    if command.Blank? then []
    else ToEach(Reached(peers, dead), [PROBE]) + Sends(Sweep(peers, dead), username, command, later, result)
  }

  function Delivery(result: Reply, request: Request): seq<Sent> {
    if result.Asked? && result.target.Some?
    then [Sent(result.target.value.socketfd, Encode(RequestPacket(request)))] else []
  }

  lemma BlankSendsNothing(peers: seq<Peer>, username: Bytes, dead: set<int>, result: Reply)
    ensures Sends(peers, username, Blank, dead, result) == []
  {
  }

  /** A new connection, and nothing else, opens a descriptor, one that was not open; only the end closes any. */
  predicate Opened(before: set<int>, after: set<int>, result: Reply) {
    match result
    case Dialled(Connected(fd)) => fd !in before && after == before + {fd}
    case Ended(closed) => after == before - closed
    case _ => after == before
  }

  function ToEach(peers: seq<Peer>, bytes: Bytes): seq<Sent> {
    seq(|peers|, i requires 0 <= i < |peers| => Sent(peers[i].socketfd, bytes))
  }

  lemma ToEachAppend(peers: seq<Peer>, more: seq<Peer>, bytes: Bytes)
    ensures ToEach(peers + more, bytes) == ToEach(peers, bytes) + ToEach(more, bytes)
  {
  }

  function DescriptorSet(peers: seq<Peer>): set<int> {
    set fd | fd in DescriptorsOf(peers)
  }

  lemma DescriptorsAppend(peers: seq<Peer>, p: Peer)
    ensures DescriptorSet(peers + [p]) == DescriptorSet(peers) + {p.socketfd}
  {
    assert DescriptorsOf(peers + [p]) == DescriptorsOf(peers) + [p.socketfd];
  }

  lemma ToldUpTo(peers: seq<Peer>, dead: set<int>, bytes: Bytes, n: nat)
    requires n <= |peers|
    ensures n == 0 ==> DescriptorSet(peers[..n]) == {} && ToEach(Alive(peers[..n], dead), bytes) == []
    ensures n > 0 ==>
              var p := peers[n - 1];
              && DescriptorSet(peers[..n]) == DescriptorSet(peers[..n - 1]) + {p.socketfd}
              && ToEach(Alive(peers[..n], dead), bytes) ==
                 ToEach(Alive(peers[..n - 1], dead), bytes)
                 + if p.socketfd in dead then [] else [Sent(p.socketfd, bytes)]
  {
    if n > 0 {
      assert peers[..n] == peers[..n - 1] + [peers[n - 1]];
      DescriptorsAppend(peers[..n - 1], peers[n - 1]);
      AliveAppend(peers[..n - 1], peers[n - 1], dead);
    }
  }

  // ----- each request is followed by its answer, and nothing by a probe

  function ExchangeOf(m: Sent, answers: int -> Packet): seq<Exchange> {
    if m.bytes == [PROBE] then [Wrote(m)] else [Wrote(m), Heard(Answer(m.fd, answers(m.fd)))]
  }

  ghost function Exchanges(sent: seq<Sent>, answers: int -> Packet): seq<Exchange> {
    if sent == [] then [] else ExchangeOf(sent[0], answers) + Exchanges(sent[1..], answers)
  }

  function Writes(sent: seq<Sent>): seq<Exchange> {
    seq(|sent|, i requires 0 <= i < |sent| => Wrote(sent[i]))
  }

  lemma {:induction false} ExchangesAppend(sent: seq<Sent>, more: seq<Sent>, answers: int -> Packet)
    ensures Exchanges(sent + more, answers) == Exchanges(sent, answers) + Exchanges(more, answers)
  {
    hide ExchangeOf, Exchanges;
    if sent == [] {
      assert sent + more == more && Exchanges([], answers) == [] by { ExchangesStep(sent, answers); }
    } else {
      ExchangesAppend(sent[1..], more, answers);
      assert (sent + more)[1..] == sent[1..] + more;
      ExchangesStep(sent, answers);
      ExchangesStep(sent + more, answers);
    }
  }

  lemma ExchangesStep(sent: seq<Sent>, answers: int -> Packet)
    ensures Exchanges(sent, answers) ==
            if sent == [] then [] else ExchangeOf(sent[0], answers) + Exchanges(sent[1..], answers)
  {
  }

  lemma ExchangesOfOne(m: Sent, answers: int -> Packet)
    ensures Exchanges([m], answers) == ExchangeOf(m, answers) && Exchanges([], answers) == []
  {
    assert [m][1..] == [];
  }

  lemma WritesAppend(sent: seq<Sent>, more: seq<Sent>)
    ensures Writes(sent + more) == Writes(sent) + Writes(more)
  {
  }

  lemma {:induction false} ProbesAreWrites(peers: seq<Peer>, answers: int -> Packet)
    ensures Exchanges(ToEach(peers, [PROBE]), answers) == Writes(ToEach(peers, [PROBE]))
  {
    if peers != [] {
      ProbesAreWrites(peers[1..], answers);
      assert ToEach(peers, [PROBE])[1..] == ToEach(peers[1..], [PROBE]);
    }
  }

  /** The messages were written in this order, and the answer to each request was read from the same descriptor before
      anything else was written or read. */
  ghost predicate InTurns(trace: seq<Exchange>, sent: seq<Sent>) {
    if sent == [] then trace == []
    else
      && trace != [] && trace[0] == Wrote(sent[0])
      && if sent[0].bytes == [PROBE] then InTurns(trace[1..], sent[1..])
         else |trace| > 1 && trace[1].Heard? && trace[1].answer.fd == sent[0].fd && InTurns(trace[2..], sent[1..])
  }

  lemma {:induction false} ExchangesAreInTurns(sent: seq<Sent>, answers: int -> Packet)
    ensures InTurns(Exchanges(sent, answers), sent)
  {
    if sent != [] {
      ExchangesAreInTurns(sent[1..], answers);
      var trace := Exchanges(sent, answers);
      assert trace[|ExchangeOf(sent[0], answers)|..] == Exchanges(sent[1..], answers);
    }
  }

  lemma {:induction false} InTurnsAppend(trace: seq<Exchange>, sent: seq<Sent>, after: seq<Exchange>, more: seq<Sent>)
    requires InTurns(trace, sent) && InTurns(after, more)
    ensures InTurns(trace + after, sent + more)
  {
    if sent == [] {
      assert trace + after == after && sent + more == more;
    } else {
      var n := if sent[0].bytes == [PROBE] then 1 else 2;
      InTurnsAppend(trace[n..], sent[1..], after, more);
      assert (trace + after)[n..] == trace[n..] + after && (sent + more)[1..] == sent[1..] + more;
    }
  }

  lemma StaysInTurns(trace: seq<Exchange>, sent: seq<Sent>, more: seq<Sent>, answers: int -> Packet)
    requires InTurns(trace, sent)
    ensures InTurns(trace + Exchanges(more, answers), sent + more)
  {
    hide InTurns;
    ExchangesAreInTurns(more, answers);
    InTurnsAppend(trace, sent, Exchanges(more, answers), more);
  }

  // ----- the connect request comes first on every connection, and only once

  predicate IsConnect(m: Sent) {
    m.bytes != [] && m.bytes[0] == T_CONNECT
  }

  predicate IsExit(m: Sent) {
    m.bytes != [] && m.bytes[0] == T_EXIT
  }

  ghost predicate Introduced(sent: seq<Sent>, fd: int) {
    exists i :: 0 <= i < |sent| && sent[i].fd == fd
  }

  /** A message is a connect request if and only if it is the first on its descriptor. */
  ghost predicate ConnectFirst(sent: seq<Sent>) {
    forall j :: 0 <= j < |sent| ==> (IsConnect(sent[j]) <==> !Introduced(sent[..j], sent[j].fd))
  }

  /** A message is a probe or a whole request. */
  ghost predicate IsProper(m: Sent) {
    m.bytes == [PROBE] || exists r: Request :: m.bytes == Encode(RequestPacket(r))
  }

  ghost predicate AllProper(sent: seq<Sent>) {
    forall i :: 0 <= i < |sent| ==> IsProper(sent[i])
  }

  /** Nothing follows an exit request on its descriptor. */
  ghost predicate ExitLast(sent: seq<Sent>) {
    forall i, j :: 0 <= i < j < |sent| && sent[i].fd == sent[j].fd ==> !IsExit(sent[i])
  }

  ghost predicate NoExits(sent: seq<Sent>) {
    forall i :: 0 <= i < |sent| ==> !IsExit(sent[i])
  }

  ghost predicate Conforming(sent: seq<Sent>) {
    ConnectFirst(sent) && AllProper(sent) && ExitLast(sent)
  }

  ghost predicate AllIntroduced(sent: seq<Sent>, peers: seq<Peer>) {
    forall p :: p in peers ==> Introduced(sent, p.socketfd)
  }

  ghost predicate Within(sent: seq<Sent>, open: set<int>) {
    forall i :: 0 <= i < |sent| ==> sent[i].fd in open
  }

  lemma IntroducedLasts(sent: seq<Sent>, more: seq<Sent>, fd: int)
    requires Introduced(sent, fd)
    ensures Introduced(sent + more, fd)
  {
    var i :| 0 <= i < |sent| && sent[i].fd == fd;
    assert (sent + more)[i].fd == fd;
  }

  /** Requests other than connect, and probes, go to introduced peers. */
  lemma MoreToKnown(sent: seq<Sent>, more: seq<Sent>, open: set<int>)
    requires ConnectFirst(sent) && Within(sent, open)
    requires forall i :: 0 <= i < |more| ==> !IsConnect(more[i]) && Introduced(sent, more[i].fd)
    ensures ConnectFirst(sent + more) && Within(sent + more, open)
  {
    var all := sent + more;
    forall j | 0 <= j < |all| ensures IsConnect(all[j]) <==> !Introduced(all[..j], all[j].fd) {
      if j < |sent| {
        assert all[..j] == sent[..j];
      } else {
        assert all[..j] == sent + more[..j - |sent|];
        IntroducedLasts(sent, more[..j - |sent|], all[j].fd);
      }
    }
    forall i | 0 <= i < |more| ensures more[i].fd in open {
      var k :| 0 <= k < |sent| && sent[k].fd == more[i].fd;
    }
  }

  lemma ConnectToNew(sent: seq<Sent>, m: Sent, open: set<int>)
    requires ConnectFirst(sent) && Within(sent, open) && IsConnect(m) && m.fd !in open
    ensures ConnectFirst(sent + [m]) && Within(sent + [m], open + {m.fd}) && Introduced(sent + [m], m.fd)
  {
    var all := sent + [m];
    forall j | 0 <= j < |all| ensures IsConnect(all[j]) <==> !Introduced(all[..j], all[j].fd) {
      assert all[..j] == sent[..j];
    }
    assert all[|sent|] == m && all[..|sent|] == sent;
  }

  lemma KindOfRequest(r: Request)
    ensures forall fd :: IsConnect(Sent(fd, Encode(RequestPacket(r)))) <==> r.Connect?
    ensures forall fd :: IsExit(Sent(fd, Encode(RequestPacket(r)))) <==> r.Exit?
    ensures Encode(RequestPacket(r)) != [PROBE]
  {
    assert Encode(RequestPacket(r))[0] == RequestPacket(r).kind;
  }

  lemma OnlyPeers(peers: seq<Peer>, dead: set<int>)
    ensures forall p :: p in Sweep(peers, dead) ==> p in peers
    ensures forall p :: p in Reached(peers, dead) ==> p in peers
  {
    SweepByPosition(peers, dead);
    ReachedByPosition(peers, dead);
    PickedArePeers(peers, KeptPositions(peers, dead));
    PickedArePeers(peers, ReachedPositions(peers, dead));
  }

  lemma {:induction false} SearchStaysInside(peers: seq<Peer>, user: Bytes, dead: set<int>)
    ensures var f := Search(peers, user, dead);
            (forall p :: p in f.peers ==> p in peers) && (f.target.Some? ==> f.target.value in peers)
  {
    if peers != [] {
      SearchStaysInside(peers[1..], user, dead);
    }
  }

  ghost predicate Polite(sent: seq<Sent>, open: set<int>, peers: seq<Peer>) {
    Conforming(sent) && NoExits(sent) && Within(sent, open) && AllIntroduced(sent, peers)
  }

  lemma PoliteToEach(sent: seq<Sent>, open: set<int>, peers: seq<Peer>, some: seq<Peer>, bytes: Bytes)
    requires Polite(sent, open, peers) && (forall p :: p in some ==> p in peers)
    requires !IsConnect(Sent(0, bytes)) && !IsExit(Sent(0, bytes)) && IsProper(Sent(0, bytes))
    ensures Polite(sent + ToEach(some, bytes), open, peers)
  {
    hide ConnectFirst, Within, Introduced;
    var more := ToEach(some, bytes);
    forall i | 0 <= i < |more| ensures Introduced(sent, more[i].fd) && IsProper(more[i]) {
      assert some[i] in peers;
    }
    MoreToKnown(sent, more, open);
    forall p | p in peers ensures Introduced(sent + more, p.socketfd) {
      IntroducedLasts(sent, more, p.socketfd);
    }
  }

  lemma PoliteDelivery(sent: seq<Sent>, open: set<int>, peers: seq<Peer>, result: Reply, r: Request)
    requires Polite(sent, open, peers) && !r.Connect? && !r.Exit?
    requires result.Asked? && result.target.Some? ==> result.target.value in peers
    ensures Polite(sent + Delivery(result, r), open, peers)
  {
    hide Polite, IsConnect, IsExit, Encode, RequestPacket;
    KindOfRequest(r);
    assert IsProper(Sent(0, Encode(RequestPacket(r))));
    var some := if result.Asked? && result.target.Some? then [result.target.value] else [];
    assert Delivery(result, r) == ToEach(some, Encode(RequestPacket(r)));
    PoliteToEach(sent, open, peers, some, Encode(RequestPacket(r)));
  }

  lemma PoliteConnect(sent: seq<Sent>, open: set<int>, peers: seq<Peer>, p: Peer, username: Bytes)
    requires Polite(sent, open, peers) && p.socketfd !in open
    ensures var m := Sent(p.socketfd, Encode(RequestPacket(Request.Connect(username))));
            Polite(sent + [m], open + {p.socketfd}, Inserted(peers, p))
  {
    hide ConnectFirst, Within, Introduced, Encode, RequestPacket;
    var m := Sent(p.socketfd, Encode(RequestPacket(Request.Connect(username))));
    KindOfRequest(Request.Connect(username));
    assert IsProper(m);
    ConnectToNew(sent, m, open);
    forall q | q in Inserted(peers, p) ensures Introduced(sent + [m], q.socketfd) {
      if q in peers {
        IntroducedLasts(sent, [m], q.socketfd);
      }
    }
  }

  lemma PoliteFewer(sent: seq<Sent>, open: set<int>, peers: seq<Peer>, fewer: seq<Peer>)
    requires Polite(sent, open, peers) && forall p :: p in fewer ==> p in peers
    ensures Polite(sent, open, fewer)
  {
  }

  /** The end of the program closes descriptors, so what it leaves is said of the messages alone. */
  ghost predicate StillPolite(sent: seq<Sent>, open: set<int>, peers: seq<Peer>, result: Reply) {
    Conforming(sent) && (!result.Ended? ==> Polite(sent, open, peers))
  }

  lemma PoliteProbes(sent: seq<Sent>, open: set<int>, peers: seq<Peer>, dead: set<int>)
    requires Polite(sent, open, peers)
    ensures Polite(sent + ToEach(Reached(peers, dead), [PROBE]), open, Sweep(peers, dead))
  {
    hide Polite, Reached, Sweep, ToEach;
    OnlyPeers(peers, dead);
    assert IsProper(Sent(0, [PROBE]));
    PoliteToEach(sent, open, peers, Reached(peers, dead), [PROBE]);
    PoliteFewer(sent + ToEach(Reached(peers, dead), [PROBE]), open, peers, Sweep(peers, dead));
  }

  lemma PoliteRequests(sent: seq<Sent>, open: set<int>, peers: seq<Peer>, some: seq<Peer>, r: Request)
    requires Polite(sent, open, peers) && (forall p :: p in some ==> p in peers) && !r.Connect? && !r.Exit?
    ensures Polite(sent + ToEach(some, Encode(RequestPacket(r))), open, peers)
  {
    hide Polite, Encode, RequestPacket, ToEach, IsConnect, IsExit;
    KindOfRequest(r);
    assert IsProper(Sent(0, Encode(RequestPacket(r))));
    PoliteToEach(sent, open, peers, some, Encode(RequestPacket(r)));
  }

  lemma PoliteDialling(sent: seq<Sent>, open: set<int>, peers: seq<Peer>, ownPort: int, username: Bytes, port: int,
                       dialed: Dialed, dead: set<int>, answers: int -> Packet, after: seq<Peer>, result: Reply,
                       openAfter: set<int>)
    requires Polite(sent, open, peers)
    requires Acted(peers, ownPort, Command.Connect(port, dialed), dead, answers, after, result)
    requires Opened(open, openAfter, result)
    ensures Polite(sent + Sends(peers, username, Command.Connect(port, dialed), dead, result), openAfter, after)
  {
    hide Polite, Encode, RequestPacket, Sweep, Reached, ToEach;
    var probes := ToEach(Reached(peers, dead), [PROBE]);
    PoliteProbes(sent, open, peers, dead);
    if result.connection.Connected? {
      var p := Peer(port, answers(result.connection.fd).data, result.connection.fd);
      PoliteConnect(sent + probes, open, Sweep(peers, dead), p, username);
      var m := Sent(p.socketfd, Encode(RequestPacket(Request.Connect(username))));
      assert sent + (probes + [m]) == sent + probes + [m];
    } else {
      assert probes + [] == probes;
    }
  }

  lemma PoliteAsk(sent: seq<Sent>, open: set<int>, peers: seq<Peer>, user: Bytes, r: Request, dead: set<int>,
                  after: seq<Peer>, result: Reply)
    requires Polite(sent, open, peers) && !r.Connect? && !r.Exit?
    requires result.Asked? && Found(after, result.target) == Search(peers, user, dead)
    ensures Polite(sent + Delivery(result, r), open, after)
  {
    hide Polite, Encode, RequestPacket, Search, Matches;
    SearchStaysInside(peers, user, dead);
    PoliteDelivery(sent, open, peers, result, r);
    PoliteFewer(sent + Delivery(result, r), open, peers, after);
  }

  lemma {:induction false} AliveArePeers(peers: seq<Peer>, dead: set<int>)
    ensures forall p :: p in Alive(peers, dead) ==> p in peers
  {
    if peers != [] {
      AliveArePeers(peers[1..], dead);
    }
  }

  lemma {:induction false} AliveKeepsDistinct(peers: seq<Peer>, dead: set<int>)
    requires DistinctDescriptors(peers)
    ensures DistinctDescriptors(Alive(peers, dead))
  {
    if peers != [] {
      var rest := Alive(peers[1..], dead);
      AliveKeepsDistinct(peers[1..], dead);
      AliveArePeers(peers[1..], dead);
      forall i | 0 <= i < |rest| ensures rest[i].socketfd != peers[0].socketfd {
        assert rest[i] in peers[1..];
      }
    }
  }

  /** Each goodbye is the last message on its descriptor. */
  lemma GoodbyesConform(sent: seq<Sent>, open: set<int>, peers: seq<Peer>, some: seq<Peer>, username: Bytes)
    requires Polite(sent, open, peers) && (forall p :: p in some ==> p in peers) && DistinctDescriptors(some)
    ensures Conforming(sent + ToEach(some, Encode(RequestPacket(Request.Exit(username)))))
  {
    hide ConnectFirst, Within, Introduced, Encode, RequestPacket, IsConnect, IsExit;
    var bytes := Encode(RequestPacket(Request.Exit(username)));
    var more := ToEach(some, bytes);
    KindOfRequest(Request.Exit(username));
    assert IsProper(Sent(0, bytes));
    forall i | 0 <= i < |more| ensures Introduced(sent, more[i].fd) && IsProper(more[i]) && !IsConnect(more[i]) {
      assert some[i] in peers;
    }
    MoreToKnown(sent, more, open);
  }

  /** What a command sends, after the first check, keeps the connect request first on every connection. */
  lemma ActingIsPolite(sent: seq<Sent>, open: set<int>, peers: seq<Peer>, ownPort: int, username: Bytes,
                       command: Command, dead: set<int>, answers: int -> Packet, after: seq<Peer>, result: Reply,
                       openAfter: set<int>)
    requires Polite(sent, open, peers) && DistinctDescriptors(peers)
    requires Acted(peers, ownPort, command, dead, answers, after, result) && Opened(open, openAfter, result)
    ensures StillPolite(sent + Sends(peers, username, command, dead, result), openAfter, after, result)
  {
    hide Conforming, NoExits, Within, AllIntroduced, DistinctDescriptors, Encode, RequestPacket, Sweep, Reached, Alive,
      Search, ToEach, Matches, DescriptorSet;
    match command
    case Blank => assert sent + [] == sent;
    case Unknown => assert sent + [] == sent;
    case Quit =>
      AliveArePeers(peers, dead);
      AliveKeepsDistinct(peers, dead);
      GoodbyesConform(sent, open, peers, Alive(peers, dead), username);
    case BroadcastAll(message) =>
      OnlyPeers(peers, dead);
      PoliteRequests(sent, open, peers, Reached(peers, dead), Request.Broadcast(message));
      PoliteFewer(sent + Sends(peers, username, command, dead, result), open, peers, after);
    case Say(user, message) => PoliteAsk(sent, open, peers, user, Message(message), dead, after, result);
    case Fetch(user, file) => PoliteAsk(sent, open, peers, user, Download(file), dead, after, result);
    case ShowAudios(user) => PoliteAsk(sent, open, peers, user, ListAudios, dead, after, result);
    case Connect(port, dialed) =>
      PoliteDialling(sent, open, peers, ownPort, username, port, dialed, dead, answers, after, result, openAfter);
  }

  lemma CommandIsPolite(sent: seq<Sent>, open: set<int>, peers: seq<Peer>, ownPort: int, username: Bytes,
                        command: Command, dead: set<int>, later: set<int>, answers: int -> Packet,
                        after: seq<Peer>, result: Reply, openAfter: set<int>)
    requires Polite(sent, open, peers) && DistinctDescriptors(peers)
    requires Effect(peers, ownPort, command, dead, later, answers, after, result) && Opened(open, openAfter, result)
    ensures StillPolite(sent + Traffic(peers, username, command, dead, later, result), openAfter, after, result)
  {
    hide Polite, StillPolite, DistinctDescriptors, Acted, Sends, Sweep, Reached, ToEach, Opened;
    if command.Blank? {
      ActingIsPolite(sent, open, peers, ownPort, username, command, later, answers, after, result, openAfter);
      BlankSendsNothing(peers, username, later, result);
    } else {
      var probes, checked := ToEach(Reached(peers, dead), [PROBE]), Sweep(peers, dead);
      PoliteProbes(sent, open, peers, dead);
      SweepKeepsDistinct(peers, dead);
      ActingIsPolite(sent + probes, open, checked, ownPort, username, command, later, answers, after, result,
                     openAfter);
      var rest := Sends(checked, username, command, later, result);
      assert sent + (probes + rest) == sent + probes + rest;
    }
  }

  // ----- what arrives on the other side

  /** Everything written to one descriptor. */
  ghost function MessagesTo(sent: seq<Sent>, fd: int): Bytes {
    if sent == [] then []
    else (if sent[0].fd == fd then sent[0].bytes else []) + MessagesTo(sent[1..], fd)
  }

  lemma BehindProper(m: Sent, rest: Bytes)
    requires IsProper(m)
    ensures !IsConnect(m) && ConnectRequests(rest) == 0 ==> ConnectRequests(m.bytes + rest) == 0
    ensures IsConnect(m) ==> ConnectRequests(m.bytes + rest) == 1 + ConnectRequests(rest)
  {
    hide Encode, RequestPacket, IsConnect;
    if m.bytes == [PROBE] {
      ConnectRequestsBehindNoise(PROBE, rest);
      assert !IsConnect(m) by { ProbeIsNoRequest(m); }
    } else {
      var r: Request :| m.bytes == Encode(RequestPacket(r));
      KindOfRequest(r);
      assert m == Sent(m.fd, Encode(RequestPacket(r)));
      ConnectRequestsBehindRequest(r, rest);
    }
  }

  lemma ProbeIsNoRequest(m: Sent)
    requires m.bytes == [PROBE]
    ensures !IsConnect(m) && !IsExit(m)
  {
  }

  lemma {:induction false} NoConnects(sent: seq<Sent>, fd: int)
    requires AllProper(sent) && forall i :: 0 <= i < |sent| && sent[i].fd == fd ==> !IsConnect(sent[i])
    ensures ConnectRequests(MessagesTo(sent, fd)) == 0
  {
    hide ConnectRequests, IsProper, IsConnect;
    if sent == [] {
      assert ConnectRequests([]) == 0 by { EmptyHasNoRequests(); }
    } else {
      var rest := MessagesTo(sent[1..], fd);
      NoConnects(sent[1..], fd);
      BehindProper(sent[0], rest);
      assert [] + rest == rest;
      assert MessagesTo(sent, fd) == (if sent[0].fd == fd then sent[0].bytes else []) + rest;
    }
  }

  lemma EmptyHasNoRequests()
    ensures ConnectRequests([]) == 0
  {
  }

  /** On this descriptor a message is a connect request if and only if it is the first. */
  ghost predicate ConnectFirstOn(sent: seq<Sent>, fd: int) {
    forall j :: 0 <= j < |sent| && sent[j].fd == fd ==> (IsConnect(sent[j]) <==> !Introduced(sent[..j], fd))
  }

  lemma IntroducedBehind(m: Sent, rest: seq<Sent>, fd: int)
    ensures Introduced([m] + rest, fd) <==> m.fd == fd || Introduced(rest, fd)
    ensures !Introduced([], fd)
  {
    var all := [m] + rest;
    assert all[0] == m && forall i :: 0 <= i < |rest| ==> all[i + 1] == rest[i];
  }

  lemma ConnectFirstBehind(sent: seq<Sent>, fd: int)
    requires sent != [] && ConnectFirstOn(sent, fd)
    ensures Introduced(sent, fd) <==> sent[0].fd == fd || Introduced(sent[1..], fd)
    ensures sent[0].fd == fd ==>
              IsConnect(sent[0]) && forall m :: m in sent[1..] && m.fd == fd ==> !IsConnect(m)
    ensures sent[0].fd != fd ==> ConnectFirstOn(sent[1..], fd)
  {
    hide IsConnect, Introduced;
    var rest := sent[1..];
    assert sent == [sent[0]] + rest && sent[..0] == [];
    IntroducedBehind(sent[0], rest, fd);
    forall j | 0 <= j < |rest| && rest[j].fd == fd
      ensures IsConnect(rest[j]) <==> !(sent[0].fd == fd || Introduced(rest[..j], fd))
    {
      assert sent[j + 1] == rest[j] && sent[..j + 1] == [sent[0]] + rest[..j];
      IntroducedBehind(sent[0], rest[..j], fd);
    }
  }

  lemma {:induction false} ConnectsOnceOn(sent: seq<Sent>, fd: int)
    requires AllProper(sent) && ConnectFirstOn(sent, fd)
    ensures ConnectRequests(MessagesTo(sent, fd)) == if Introduced(sent, fd) then 1 else 0
  {
    hide ConnectRequests, IsProper, IsConnect, ConnectFirstOn;
    if sent == [] {
      EmptyHasNoRequests();
    } else {
      ConnectFirstBehind(sent, fd);
      if sent[0].fd == fd {
        NoConnects(sent[1..], fd);
        BehindProper(sent[0], MessagesTo(sent[1..], fd));
      } else {
        ConnectsOnceOn(sent[1..], fd);
        assert [] + MessagesTo(sent[1..], fd) == MessagesTo(sent[1..], fd);
      }
    }
  }

  /** The session at the other end of a descriptor reads exactly one connect request, if anything was sent there. */
  lemma OneConnectRequest(sent: seq<Sent>, fd: int)
    requires Conforming(sent)
    ensures ConnectRequests(MessagesTo(sent, fd)) == if Introduced(sent, fd) then 1 else 0
  {
    hide ConnectRequests, MessagesTo, IsProper, IsConnect, Introduced;
    ConnectsOnceOn(sent, fd);
  }
}
