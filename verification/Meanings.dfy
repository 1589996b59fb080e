/** What the commands of src/commandManager.c come to: who is written to, and what the session of
    src/dedicatedServer.c at the other end makes of it. */
module Meanings {
  import opened Sequences
  import opened Wire
  import opened Wrappers
  import opened Registry
  import opened Requests
  import opened Commands
  import opened Text
  import P = Protocol

  /** What was written without the probes, and the descriptors that were probed. */
  ghost function Asks(sent: seq<Sent>): seq<Sent> {
    if sent == [] then [] else (if sent[0].bytes == [PROBE] then [] else [sent[0]]) + Asks(sent[1..])
  }

  ghost function Probes(sent: seq<Sent>): seq<int> {
    if sent == [] then [] else (if sent[0].bytes == [PROBE] then [sent[0].fd] else []) + Probes(sent[1..])
  }

  lemma AsksAppend(sent: seq<Sent>, more: seq<Sent>)
    ensures Asks(sent + more) == Asks(sent) + Asks(more)
    ensures Probes(sent + more) == Probes(sent) + Probes(more)
  {
    OnlyAsksAppend(sent, more);
    OnlyProbesAppend(sent, more);
  }

  lemma {:induction false} OnlyAsksAppend(sent: seq<Sent>, more: seq<Sent>)
    ensures Asks(sent + more) == Asks(sent) + Asks(more)
  {
    hide Asks, Probes;
    AsksStep(sent);
    if sent == [] {
      assert sent + more == more && [] + Asks(more) == Asks(more);
    } else {
      var first := if sent[0].bytes == [PROBE] then [] else [sent[0]];
      OnlyAsksAppend(sent[1..], more);
      AsksStep(sent + more);
      assert (sent + more)[1..] == sent[1..] + more;
      Regroup(first, Asks(sent[1..]), Asks(more));
    }
  }

  lemma {:induction false} OnlyProbesAppend(sent: seq<Sent>, more: seq<Sent>)
    ensures Probes(sent + more) == Probes(sent) + Probes(more)
  {
    hide Asks, Probes;
    AsksStep(sent);
    if sent == [] {
      assert sent + more == more && [] + Probes(more) == Probes(more);
    } else {
      var first := if sent[0].bytes == [PROBE] then [sent[0].fd] else [];
      OnlyProbesAppend(sent[1..], more);
      AsksStep(sent + more);
      assert (sent + more)[1..] == sent[1..] + more;
      Regroup(first, Probes(sent[1..]), Probes(more));
    }
  }

  lemma AsksStep(sent: seq<Sent>)
    ensures Asks(sent) ==
            if sent == [] then [] else (if sent[0].bytes == [PROBE] then [] else [sent[0]]) + Asks(sent[1..])
    ensures Probes(sent) ==
            if sent == [] then [] else (if sent[0].bytes == [PROBE] then [sent[0].fd] else []) + Probes(sent[1..])
  {
  }

  lemma {:induction false} AsksEach(peers: seq<Peer>, bytes: Bytes)
    ensures Asks(ToEach(peers, bytes)) == if bytes == [PROBE] then [] else ToEach(peers, bytes)
    ensures Probes(ToEach(peers, bytes)) == if bytes == [PROBE] then DescriptorsOf(peers) else []
  {
    hide Asks, Probes, ToEach, DescriptorsOf;
    AsksStep(ToEach(peers, bytes));
    EachStep(peers, bytes);
    if peers != [] {
      AsksEach(peers[1..], bytes);
      var first, rest := Sent(peers[0].socketfd, bytes), ToEach(peers[1..], bytes);
      assert ([first] + rest)[0] == first && ([first] + rest)[1..] == rest;
    }
  }

  lemma EachStep(peers: seq<Peer>, bytes: Bytes)
    ensures ToEach(peers, bytes) ==
            if peers == [] then [] else [Sent(peers[0].socketfd, bytes)] + ToEach(peers[1..], bytes)
    ensures DescriptorsOf(peers) == if peers == [] then [] else [peers[0].socketfd] + DescriptorsOf(peers[1..])
  {
  }

  /** The whole message is one packet, of which the session notes this. */
  ghost predicate ReadAs(m: Sent, stored: Option<Bytes>, listing: Bytes, e: P.Event) {
    var r := Read(m.bytes);
    r.Got? && r.rest == [] && P.React(r.packet, stored, listing) == Some(e)
  }

  lemma RequestIsReadAs(fd: int, r: Request, stored: Option<Bytes>, listing: Bytes)
    ensures var m := Sent(fd, Encode(RequestPacket(r)));
            && (r.Connect? && |r.name| < LENGTH_LIMIT ==> ReadAs(m, stored, listing, P.Entered(r.name)))
            && (r.Message? && |r.text| < LENGTH_LIMIT ==> ReadAs(m, stored, listing, P.Printed(T_MSG, r.text)))
            && (r.Broadcast? && |r.text| < LENGTH_LIMIT ==> ReadAs(m, stored, listing, P.Printed(T_BROADCAST, r.text)))
            && (r.ListAudios? ==> ReadAs(m, stored, listing, P.Listed(listing)))
            && (r.Exit? ==> ReadAs(m, stored, listing, P.Left))
            && (r.Download? && |r.file| < LENGTH_LIMIT ==>
                  ReadAs(m, stored, listing,
                         if stored.Some? then P.Offered(r.file, stored.value) else P.Missing(r.file)))
  {
    hide Encode, Read, Ascii;
    P.OnePacket(RequestPacket(r));
    var text := if r.Message? || r.Broadcast? then r.text else if r.Download? then r.file
                else if r.Connect? || r.Exit? then r.name else [];
    if |text| < LENGTH_LIMIT {
      ShortDataIsKept(RequestPacket(r).kind, RequestPacket(r).header, text);
    }
  }

  /** How a command is written to its peers: one message to each, in order, which the session reads as this. */
  ghost predicate Tells(asks: seq<Sent>, peers: seq<Peer>, stored: Option<Bytes>, listing: Bytes, e: P.Event) {
    |asks| == |peers|
    && forall i :: 0 <= i < |peers| ==> asks[i].fd == peers[i].socketfd && ReadAs(asks[i], stored, listing, e)
  }

  /** The first peer of the name that the user typed that can be written to. */
  ghost predicate IsFirst(peers: seq<Peer>, user: Bytes, dead: set<int>, target: Option<Peer>) {
    if target.None? then forall p :: p in peers && Matches(p.name, user) ==> p.socketfd in dead
    else
      exists i :: 0 <= i < |peers| && peers[i] == target.value && target.value.socketfd !in dead
                  && Matches(target.value.name, user)
                  && forall j :: 0 <= j < i && Matches(peers[j].name, user) ==> peers[j].socketfd in dead
  }

  lemma {:induction false} SearchIsFirst(peers: seq<Peer>, user: Bytes, dead: set<int>)
    ensures IsFirst(peers, user, dead, Search(peers, user, dead).target)
  {
    hide Matches;
    if peers != [] {
      var target := Search(peers, user, dead).target;
      SearchIsFirst(peers[1..], user, dead);
      if !Answers(peers[0], user, dead) && target.Some? {
        var i :| 0 <= i < |peers| - 1 && peers[1..][i] == target.value
                 && forall j :: 0 <= j < i && Matches(peers[1..][j].name, user) ==> peers[1..][j].socketfd in dead;
        assert peers[i + 1] == target.value;
        assert forall j :: 1 <= j < i + 1 ==> peers[j] == peers[1..][j - 1];
      }
    }
  }

  /** The command has been carried out: its effect on the list, and what it wrote. */
  ghost predicate Done(peers: seq<Peer>, ownPort: int, username: Bytes, input: Input, after: seq<Peer>, result: Reply,
                       sent: seq<Sent>)
  {
    && Effect(peers, ownPort, input.command, input.dead, input.later, input.answers, after, result)
    && sent == Traffic(peers, username, input.command, input.dead, input.later, result)
  }

  lemma TrafficParts(peers: seq<Peer>, ownPort: int, username: Bytes, input: Input, after: seq<Peer>, result: Reply,
                     sent: seq<Sent>)
    requires Done(peers, ownPort, username, input, after, result, sent) && !input.command.Blank?
    ensures var rest := Sends(Sweep(peers, input.dead), username, input.command, input.later, result);
            && Asks(sent) == Asks(rest)
            && Probes(sent) == DescriptorsOf(Reached(peers, input.dead)) + Probes(rest)
  {
    hide Asks, Probes, ToEach, Sends, Sweep, Reached, Effect, DescriptorsOf;
    var rest := Sends(Sweep(peers, input.dead), username, input.command, input.later, result);
    AsksAppend(ToEach(Reached(peers, input.dead), [PROBE]), rest);
    AsksEach(Reached(peers, input.dead), [PROBE]);
    assert [] + Asks(rest) == Asks(rest);
  }

  function Targeted(target: Option<Peer>): seq<Peer> {
    if target.Some? then [target.value] else []
  }

  lemma DeliveryTells(result: Reply, r: Request, stored: Option<Bytes>, listing: Bytes, e: P.Event)
    requires result.Asked? && forall fd :: ReadAs(Sent(fd, Encode(RequestPacket(r))), stored, listing, e)
    ensures Tells(Asks(Delivery(result, r)), Targeted(result.target), stored, listing, e)
    ensures Probes(Delivery(result, r)) == []
  {
    hide ReadAs, Encode, RequestPacket;
    KindOfRequest(r);
    assert Delivery(result, r) == ToEach(Targeted(result.target), Encode(RequestPacket(r)));
    AsksEach(Targeted(result.target), Encode(RequestPacket(r)));
  }

  lemma EachIsTold(peers: seq<Peer>, r: Request, stored: Option<Bytes>, listing: Bytes, e: P.Event)
    requires forall fd :: ReadAs(Sent(fd, Encode(RequestPacket(r))), stored, listing, e)
    ensures Tells(Asks(ToEach(peers, Encode(RequestPacket(r)))), peers, stored, listing, e)
    ensures Probes(ToEach(peers, Encode(RequestPacket(r)))) == []
  {
    hide ReadAs, Encode, RequestPacket;
    KindOfRequest(r);
    AsksEach(peers, Encode(RequestPacket(r)));
  }

  /** What the user's text or file becomes at the other end, in a request of the three commands that ask one peer. */
  function Meaning(command: Command, stored: Option<Bytes>, listing: Bytes): P.Event {
    match command
    case Say(_, message) => P.Printed(T_MSG, message)
    case Fetch(_, file) => if stored.Some? then P.Offered(file, stored.value) else P.Missing(file)
    case _ => P.Listed(listing)
  }

  /** SAY prints the message at the first peer of that name that can be written to, in the list as checked; DOWNLOAD
      makes it look for that very file; SHOW AUDIOS makes it list its files. Nobody else is asked anything. */
  lemma AskingMeans(peers: seq<Peer>, ownPort: int, username: Bytes, input: Input, after: seq<Peer>, result: Reply,
                    sent: seq<Sent>, stored: Option<Bytes>, listing: Bytes)
    requires Done(peers, ownPort, username, input, after, result, sent)
    requires var c := input.command;
             || (c.Say? && |c.message| < LENGTH_LIMIT) || (c.Fetch? && |c.file| < LENGTH_LIMIT) || c.ShowAudios?
    ensures result.Asked? && IsFirst(Sweep(peers, input.dead), input.command.user, input.later, result.target)
    ensures Tells(Asks(sent), Targeted(result.target), stored, listing, Meaning(input.command, stored, listing))
    ensures Probes(sent) == DescriptorsOf(Reached(peers, input.dead))
  {
    hide IsFirst, Sweep, Reached, Search, ReadAs, Encode, RequestPacket, DescriptorsOf, Asks, Probes, Matches, Delivery,
      Tells;
    var c, e := input.command, Meaning(input.command, stored, listing);
    var r := if c.Say? then Message(c.message) else if c.Fetch? then Download(c.file) else ListAudios;
    TrafficParts(peers, ownPort, username, input, after, result, sent);
    SearchIsFirst(Sweep(peers, input.dead), c.user, input.later);
    forall fd ensures ReadAs(Sent(fd, Encode(RequestPacket(r))), stored, listing, e) {
      RequestIsReadAs(fd, r, stored, listing);
    }
    DeliveryTells(result, r, stored, listing, e);
    assert DescriptorsOf(Reached(peers, input.dead)) + [] == DescriptorsOf(Reached(peers, input.dead));
  }

  /** BROADCAST prints the message at the peers that the pass after the check reaches. */
  lemma BroadcastMeans(peers: seq<Peer>, ownPort: int, username: Bytes, input: Input, after: seq<Peer>, result: Reply,
                       sent: seq<Sent>, stored: Option<Bytes>, listing: Bytes)
    requires Done(peers, ownPort, username, input, after, result, sent)
    requires input.command.BroadcastAll? && |input.command.message| < LENGTH_LIMIT
    ensures Tells(Asks(sent), Reached(Sweep(peers, input.dead), input.later), stored, listing,
                  P.Printed(T_BROADCAST, input.command.message))
    ensures Probes(sent) == DescriptorsOf(Reached(peers, input.dead))
  {
    hide Sweep, Reached, ReadAs, Encode, RequestPacket, DescriptorsOf, Asks, Probes, Tells, ToEach;
    var r := Request.Broadcast(input.command.message);
    TrafficParts(peers, ownPort, username, input, after, result, sent);
    forall fd
      ensures ReadAs(Sent(fd, Encode(RequestPacket(r))), stored, listing, P.Printed(T_BROADCAST, r.text))
    {
      RequestIsReadAs(fd, r, stored, listing);
    }
    EachIsTold(Reached(Sweep(peers, input.dead), input.later), r, stored, listing, P.Printed(T_BROADCAST, r.text));
    assert DescriptorsOf(Reached(peers, input.dead)) + [] == DescriptorsOf(Reached(peers, input.dead));
  }

  /** EXIT ends the sessions of exactly the peers of the checked list that can be written to, and closes the
      descriptors of exactly those in the list. */
  lemma QuitMeans(peers: seq<Peer>, ownPort: int, username: Bytes, input: Input, after: seq<Peer>, result: Reply,
                  sent: seq<Sent>, stored: Option<Bytes>, listing: Bytes, open: set<int>, openAfter: set<int>)
      returns (told: seq<Peer>)
    requires Done(peers, ownPort, username, input, after, result, sent) && input.command.Quit?
    requires Opened(open, openAfter, result)
    ensures forall p :: p in told <==> p in Sweep(peers, input.dead) && p.socketfd !in input.later
    ensures |told| <= |Sweep(peers, input.dead)|
    ensures Tells(Asks(sent), told, stored, listing, P.Left)
    ensures forall fd :: fd in openAfter <==>
              fd in open && forall p :: p in Sweep(peers, input.dead) ==> p.socketfd != fd
  {
    hide Sweep, Reached, Alive, ReadAs, Encode, RequestPacket, DescriptorsOf, Asks, Probes, Tells, ToEach;
    var checked, r := Sweep(peers, input.dead), Request.Exit(username);
    told := Alive(checked, input.later);
    AliveAre(checked, input.later);
    AliveAreFewer(checked, input.later);
    TrafficParts(peers, ownPort, username, input, after, result, sent);
    forall fd ensures ReadAs(Sent(fd, Encode(RequestPacket(r))), stored, listing, P.Left) {
      RequestIsReadAs(fd, r, stored, listing);
    }
    EachIsTold(told, r, stored, listing, P.Left);
    DescriptorSetIs(checked);
  }

  lemma {:induction false} AliveAreFewer(peers: seq<Peer>, dead: set<int>)
    ensures |Alive(peers, dead)| <= |peers|
  {
    if peers != [] {
      AliveAreFewer(peers[1..], dead);
    }
  }

  lemma DescriptorSetIs(peers: seq<Peer>)
    ensures forall fd :: fd in DescriptorSet(peers) <==> exists p :: p in peers && p.socketfd == fd
  {
    forall fd | fd in DescriptorSet(peers) ensures exists p :: p in peers && p.socketfd == fd {
      var i :| 0 <= i < |peers| && DescriptorsOf(peers)[i] == fd;
      assert peers[i] in peers;
    }
    forall p | p in peers ensures p.socketfd in DescriptorSet(peers) {
      var i :| 0 <= i < |peers| && peers[i] == p;
      assert DescriptorsOf(peers)[i] == p.socketfd;
    }
  }

  /** CONNECT, in the list after two checks: refused if a peer of that port is there, or for the own port; otherwise
      dialling decides. A new peer stands right behind the first, under the name in its session's reply, and its
      session has noted the user's name. */
  lemma ConnectMeans(peers: seq<Peer>, ownPort: int, username: Bytes, input: Input, after: seq<Peer>, result: Reply,
                     sent: seq<Sent>, stored: Option<Bytes>, listing: Bytes, w: P.World, asked: Bytes)
    requires Done(peers, ownPort, username, input, after, result, sent) && input.command.Connect?
    ensures result.Dialled?
    ensures var port, checked := input.command.port, Sweep(Sweep(peers, input.dead), input.later);
            var taken := exists p :: p in checked && p.port == port;
            && (result.connection.AlreadyConnected? <==> taken)
            && (result.connection.IsOwnPort? <==> !taken && port == ownPort)
            && (result.connection.Connected? <==> !taken && port != ownPort && input.command.dialed.Accepted?)
            && (!result.connection.Connected? ==> after == checked && Asks(sent) == [])
    ensures result.connection.Connected? ==>
              var fd, checked := result.connection.fd, Sweep(Sweep(peers, input.dead), input.later);
              var p := Peer(input.command.port, input.answers(fd).data, fd);
              && after == (if checked == [] then [p] else [checked[0], p] + checked[1..])
              && (|username| < LENGTH_LIMIT ==> Tells(Asks(sent), [p], stored, listing, P.Entered(username)))
              && (input.answers(fd) == P.ReplyTo(w, P.Entered(asked)) && |w.name| < LENGTH_LIMIT ==> p.name == w.name)
    ensures Probes(sent) == DescriptorsOf(Reached(peers, input.dead))
                            + DescriptorsOf(Reached(Sweep(peers, input.dead), input.later))
  {
    hide Sweep, Reached, ReadAs, Encode, RequestPacket, DescriptorsOf, Asks, Probes, ToEach, Create;
    var once := Sweep(peers, input.dead);
    var checked := Sweep(once, input.later);
    TrafficParts(peers, ownPort, username, input, after, result, sent);
    HasPortIff(checked, input.command.port);
    ConnectAsks(once, username, input, result);
    if result.connection.Connected? {
      var r := Request.Connect(username);
      RequestIsReadAs(result.connection.fd, r, stored, listing);
      if |w.name| < LENGTH_LIMIT {
        ShortDataIsKept(T_CONNECT, H_CONOK, w.name);
      }
    }
  }

  lemma HasPortIff(peers: seq<Peer>, port: int)
    ensures HasPort(peers, port) <==> exists p :: p in peers && p.port == port
  {
    if HasPort(peers, port) {
      var i :| 0 <= i < |peers| && peers[i].port == port;
      assert peers[i] in peers;
    }
  }

  lemma ConnectAsks(checked: seq<Peer>, username: Bytes, input: Input, result: Reply)
    requires input.command.Connect? && result.Dialled?
    ensures var sends := Sends(checked, username, input.command, input.later, result);
            && Asks(sends) ==
               (if result.connection.Connected?
                then [Sent(result.connection.fd, Encode(RequestPacket(Request.Connect(username))))] else [])
            && Probes(sends) == DescriptorsOf(Reached(checked, input.later))
  {
    hide Reached, Encode, RequestPacket, DescriptorsOf, Asks, Probes, ToEach;
    var probes := ToEach(Reached(checked, input.later), [PROBE]);
    var asks := if result.connection.Connected?
                then [Sent(result.connection.fd, Encode(RequestPacket(Request.Connect(username))))] else [];
    KindOfRequest(Request.Connect(username));
    AsksAppend(probes, asks);
    AsksEach(Reached(checked, input.later), [PROBE]);
    AsksStep([]);
    if asks != [] {
      AsksStep(asks);
      assert asks[1..] == [];
    }
    assert DescriptorsOf(Reached(checked, input.later)) + [] == DescriptorsOf(Reached(checked, input.later));
  }

  /** Anything else asks nobody; blank input does nothing at all, and an unknown command checks like any other. */
  lemma OthersMeanNothing(peers: seq<Peer>, ownPort: int, username: Bytes, input: Input, after: seq<Peer>,
                          result: Reply, sent: seq<Sent>)
    requires Done(peers, ownPort, username, input, after, result, sent)
    requires input.command.Blank? || input.command.Unknown?
    ensures Asks(sent) == []
    ensures input.command.Blank? ==> after == peers && sent == []
    ensures input.command.Unknown? ==>
              after == Sweep(peers, input.dead) && Probes(sent) == DescriptorsOf(Reached(peers, input.dead))
  {
    hide Sweep, Reached, DescriptorsOf, Asks, Probes, ToEach;
    AsksStep([]);
    if input.command.Unknown? {
      TrafficParts(peers, ownPort, username, input, after, result, sent);
      assert DescriptorsOf(Reached(peers, input.dead)) + [] == DescriptorsOf(Reached(peers, input.dead));
    }
  }

  /** No command loses a peer that is alive throughout, until the program ends; and none but a new connection adds one
      to those that the check leaves. */
  lemma LivingPeersStay(peers: seq<Peer>, ownPort: int, username: Bytes, input: Input, after: seq<Peer>, result: Reply,
                        sent: seq<Sent>, p: Peer)
    requires Done(peers, ownPort, username, input, after, result, sent) && !input.command.Quit?
    ensures p in peers && p.socketfd !in input.dead && p.socketfd !in input.later ==> p in after
    ensures p in after && !input.command.Blank? && !(result.Dialled? && result.connection.Connected?) ==>
              p in Sweep(peers, input.dead)
  {
    hide Sweep, Search, Reached, Matches, Traffic, HasPort;
    var c, once := input.command, if input.command.Blank? then peers else Sweep(peers, input.dead);
    LivingSurvive(peers, input.dead, p);
    LivingSurvive(once, input.later, p);
    OnlyPeers(once, input.later);
    if c.Say? || c.Fetch? || c.ShowAudios? {
      SearchKeepsLiving(once, c.user, input.later, p);
      SearchStaysInside(once, c.user, input.later);
    }
  }

  lemma LivingSurvive(peers: seq<Peer>, dead: set<int>, p: Peer)
    ensures p in peers && p.socketfd !in dead ==> p in Sweep(peers, dead)
  {
    SweepKeepsAlive(peers, dead);
    AliveAre(peers, dead);
    AliveAre(Sweep(peers, dead), dead);
  }

  lemma {:induction false} SearchKeepsLiving(peers: seq<Peer>, user: Bytes, dead: set<int>, p: Peer)
    ensures p in peers && p.socketfd !in dead ==> p in Search(peers, user, dead).peers
  {
    hide Matches;
    if peers != [] {
      SearchKeepsLiving(peers[1..], user, dead, p);
    }
  }
}
