/** Clients and server together: what the clients of src/client.c send is what the sessions of src/dedicatedServer.c
    read. */
module Network {
  import opened Wire
  import opened Wrappers
  import opened Requests
  import opened Roster
  import opened Turns
  import opened Sessions
  import opened Commands
  import P = Protocol

  /** A client of this program wrote this to one of its descriptors, and possibly more that has not arrived yet. */
  ghost predicate FromClient(stream: Bytes) {
    exists sent: seq<Sent>, fd: int :: Conforming(sent) && stream <= MessagesTo(sent, fd)
  }

  /** A client sends one connect request on each of its connections, so each stream holds one at most. */
  lemma ClientsConnectOnce(schedule: seq<Step>)
    requires forall fd :: FromClient(Arrived(schedule, fd))
    ensures OneConnectPerStream(schedule)
  {
    hide Conforming, MessagesTo, ConnectRequests, Arrived;
    forall fd ensures ConnectRequests(Arrived(schedule, fd)) <= 1 {
      var stream := Arrived(schedule, fd);
      assert FromClient(stream);
      var sent: seq<Sent>, other: int :| Conforming(sent) && stream <= MessagesTo(sent, other);
      OneConnectRequest(sent, other);
      ConnectRequestsGrow(stream, MessagesTo(sent, other)[|stream|..]);
      assert stream + MessagesTo(sent, other)[|stream|..] == MessagesTo(sent, other);
    }
  }

  /** The server over a whole run with clients of this program, in any interleaving, and its end: closed are exactly
      the sessions that have connected and not ended, each once, in the order in which they connected. Each session has
      written what it writes without the others, and after that a goodbye if it was closed. */
  method ServeClients(schedule: seq<Step>, world: P.World) returns (server: Server, ghost closed: seq<DedicatedServer>)
    requires forall fd :: FromClient(Arrived(schedule, fd))
    ensures server.history == HistoryOf(world, schedule)
    ensures var connected := Roster.Connected(server.history, server.history);
            |closed| == |connected| && forall i :: 0 <= i < |closed| ==> closed[i].fd == connected[i]
    ensures forall i, j :: 0 <= i < j < |closed| ==> closed[i] != closed[j]
    ensures forall s :: s in closed ==> s in server.sessions && s.freed
    ensures forall s :: s in server.sessions ==>
              && Alone(world, schedule, s.fd).Some?
              && s.output.bytes ==
                 Alone(world, schedule, s.fd).value.written + if s in closed then GOODBYE else []
  {
    hide Server.Valid, ConnectsOnce, Roster.Connected, FromClient, Alone, HistoryOf;
    ClientsConnectOnce(schedule);
    server := Serve(schedule, world);
    assert forall s :: s in server.sessions ==> Alone(world, schedule, s.fd) == Some(server.Shown(s));
    ghost var nodes;
    closed, nodes := server.RemoveAll();
  }
}
