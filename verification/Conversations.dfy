/** What a client of src/client.c writes and reads on one of its descriptors is what the client of the connection
    protocol does: the prompt never asks out of turn. */
module Conversations {
  import opened Wire
  import opened Wrappers
  import opened Requests
  import opened Commands
  import P = Protocol

  /** What there is to see of a client on one connection. */
  datatype Mark = Said(bytes: Bytes) | Answered

  function MarkOn(e: Exchange, fd: int): seq<Mark> {
    match e
    case Wrote(m) => if m.fd == fd then [Said(m.bytes)] else []
    case Heard(answer) => if answer.fd == fd then [Answered] else []
  }

  ghost function MarksOn(trace: seq<Exchange>, fd: int): seq<Mark> {
    if trace == [] then [] else MarkOn(trace[0], fd) + MarksOn(trace[1..], fd)
  }

  /** In the protocol the answer has been read when the client is no longer busy with it. */
  ghost function MarkOf(s: P.State, a: P.Action, t: P.State): seq<Mark> {
    match a
    case Probe => [Said([PROBE])]
    case Ask(r) => [Said(Encode(RequestPacket(r)))]
    case _ => if P.Busy(s) && !P.Busy(t) then [Answered] else []
  }

  /** What is said is under way at once, behind what was said before; no other step adds to it. */
  lemma SaidIsUnderWay(w: P.World, s: P.State, a: P.Action)
    requires P.Step(w, s, a).Some?
    ensures var t := P.Step(w, s, a).value;
            var marks := MarkOf(s, a, t);
            if marks != [] && marks[0].Said? then t.up == s.up + marks[0].bytes
            else |t.up| <= |s.up| && t.up == s.up[|s.up| - |t.up|..]
  {
    hide Encode, RequestPacket, P.React, P.ReplyTo, Read;
    RestIsBehind(s.up);
  }

  ghost function MarksOf(w: P.World, s: P.State, actions: seq<P.Action>): seq<Mark>
    requires P.Run(w, s, actions).Some?
    decreases |actions|
  {
    if actions == [] then []
    else
      var t := P.Step(w, s, actions[0]).value;
      MarkOf(s, actions[0], t) + MarksOf(w, t, actions[1..])
  }

  lemma OneAction(w: P.World, s: P.State, a: P.Action, rest: seq<P.Action>)
    requires P.Step(w, s, a).Some?
    ensures var t := P.Step(w, s, a).value;
            && P.Run(w, s, [a] + rest) == P.Run(w, t, rest)
            && (P.Run(w, t, rest).Some? ==>
                  MarksOf(w, s, [a] + rest) == MarkOf(s, a, t) + MarksOf(w, t, rest))
  {
    hide P.Step, MarkOf;
    assert ([a] + rest)[1..] == rest;
  }

  lemma {:induction false} TwoRuns(w: P.World, s: P.State, first: seq<P.Action>, t: P.State, rest: seq<P.Action>)
    requires P.Run(w, s, first) == Some(t) && P.Run(w, t, rest).Some?
    ensures P.Run(w, s, first + rest) == P.Run(w, t, rest)
    ensures MarksOf(w, s, first + rest) == MarksOf(w, s, first) + MarksOf(w, t, rest)
    decreases |first|
  {
    hide P.Step, MarkOf;
    if first == [] {
      assert first + rest == rest;
    } else {
      var u := P.Step(w, s, first[0]).value;
      TwoRuns(w, u, first[1..], t, rest);
      OneAction(w, s, first[0], first[1..] + rest);
      assert first + rest == [first[0]] + (first[1..] + rest);
    }
  }

  /** The step with which a client stops being busy leaves it idle, or closed after a goodbye. */
  lemma AfterAnswer(w: P.World, s: P.State, a: P.Action)
    requires P.Internal(a) && P.Step(w, s, a).Some? && P.Busy(s)
    ensures var t := P.Step(w, s, a).value;
            !P.Busy(t) ==> t.client == if P.Current(s.client).Exit? then P.Closed else P.Idle
  {
    hide Encode, P.React, P.ReplyTo, Read;
  }

  /** A busy client gets its answer. */
  lemma {:induction false} AnswerComes(w: P.World, s: P.State, stored: Option<Bytes>, listing: Bytes)
      returns (actions: seq<P.Action>, t: P.State)
    requires P.ValidWorld(w) && P.Lockstep(w, s) && P.Busy(s)
    ensures P.Run(w, s, actions) == Some(t) && P.Lockstep(w, t) && MarksOf(w, s, actions) == [Answered]
    ensures t.client == if P.Current(s.client).Exit? then P.Closed else P.Idle
    decreases |s.up|, P.Work(s.session), |s.down|
  {
    hide Encode, P.Step, P.Lockstep, P.Work;
    var a := P.NoDeadlock(w, s, stored, listing);
    var next := P.Step(w, s, a).value;
    P.StepKeepsLockstep(w, s, a);
    P.InternalStepsRunOut(w, s, a);
    P.InternalStepsDoNotAsk(w, s, a);
    AfterAnswer(w, s, a);
    if P.Busy(next) {
      var rest;
      rest, t := AnswerComes(w, next, stored, listing);
      actions := [a] + rest;
      OneAction(w, s, a, rest);
    } else {
      actions, t := [a], next;
      OneAction(w, s, a, []);
      assert [a] + [] == [a];
    }
  }

  /** What is still to be written to this descriptor fits what the client of the connection may do. */
  ghost predicate Fits(client: P.ClientPhase, sent: seq<Sent>, fd: int) {
    && AllProper(sent) && ExitLast(sent)
    && match client
       case Unconnected => ConnectFirstOn(sent, fd)
       case Idle => forall m :: m in sent && m.fd == fd ==> !IsConnect(m)
       case Closed => forall m :: m in sent ==> m.fd != fd
       case _ => false
  }

  /** After a message to this descriptor the rest still fits; so it does after one to another. */
  lemma FitsBehind(client: P.ClientPhase, sent: seq<Sent>, fd: int, next: P.ClientPhase)
    requires sent != [] && Fits(client, sent, fd)
    requires if sent[0].fd != fd then next == client
             else next == if IsExit(sent[0]) then P.Closed else P.Idle
    ensures Fits(next, sent[1..], fd)
  {
    hide IsConnect, IsExit, IsProper, ConnectFirstOn, Introduced;
    var rest := sent[1..];
    assert forall i :: 0 <= i < |rest| ==> rest[i] == sent[i + 1];
    if client.Unconnected? {
      ConnectFirstBehind(sent, fd);
    }
    if sent[0].fd == fd && IsExit(sent[0]) {
      forall i | 0 <= i < |rest| ensures rest[i].fd != fd {
        assert sent[i + 1] == rest[i];
      }
    }
  }

  lemma FirstIsConnect(sent: seq<Sent>, fd: int)
    requires sent != [] && sent[0].fd == fd && ConnectFirstOn(sent, fd)
    ensures IsConnect(sent[0])
  {
    ConnectFirstBehind(sent, fd);
  }

  /** The client of the connection can write the message, and has its answer if it is a request. */
  lemma SaysOne(w: P.World, s: P.State, m: Sent, stored: Option<Bytes>, listing: Bytes)
      returns (actions: seq<P.Action>, t: P.State)
    requires P.ValidWorld(w) && P.Lockstep(w, s) && IsProper(m)
    requires (s.client.Unconnected? && IsConnect(m)) || (s.client.Idle? && !IsConnect(m))
    ensures P.Run(w, s, actions) == Some(t) && P.Lockstep(w, t)
    ensures MarksOf(w, s, actions) == [Said(m.bytes)] + if m.bytes == [PROBE] then [] else [Answered]
    ensures t.client == if IsExit(m) then P.Closed else P.Idle
  {
    hide Encode, RequestPacket, P.Lockstep, IsConnect, IsExit, Read;
    var a: P.Action;
    if m.bytes == [PROBE] {
      ProbeIsNoRequest(m);
      a := P.Probe;
      P.StepKeepsLockstep(w, s, a);
      t := P.Step(w, s, a).value;
      actions := [a];
      OneAction(w, s, a, []);
      assert [a] + [] == [a];
    } else {
      var r: Request :| m.bytes == Encode(RequestPacket(r));
      KindOfRequest(r);
      assert m == Sent(m.fd, Encode(RequestPacket(r)));
      a := P.Ask(r);
      var next := P.Step(w, s, a).value;
      P.StepKeepsLockstep(w, s, a);
      var rest;
      rest, t := AnswerComes(w, next, stored, listing);
      actions := [a] + rest;
      OneAction(w, s, a, rest);
    }
  }

  lemma MarksSkip(trace: seq<Exchange>, sent: seq<Sent>, fd: int)
    requires sent != [] && InTurns(trace, sent)
    ensures var n := if sent[0].bytes == [PROBE] then 1 else 2;
            && n <= |trace| && InTurns(trace[n..], sent[1..])
            && MarksOn(trace, fd) ==
               (if sent[0].fd != fd then []
                else [Said(sent[0].bytes)] + if n == 1 then [] else [Answered]) + MarksOn(trace[n..], fd)
  {
    if sent[0].bytes != [PROBE] {
      assert trace[1..][1..] == trace[2..];
    }
  }

  lemma {:induction false} Converse(w: P.World, s: P.State, trace: seq<Exchange>, sent: seq<Sent>, fd: int,
                                    stored: Option<Bytes>, listing: Bytes)
      returns (actions: seq<P.Action>)
    requires P.ValidWorld(w) && P.Lockstep(w, s) && Fits(s.client, sent, fd) && InTurns(trace, sent)
    ensures P.Run(w, s, actions).Some? && MarksOf(w, s, actions) == MarksOn(trace, fd)
    decreases |sent|
  {
    hide P.Lockstep, IsConnect, IsExit, IsProper, InTurns, ConnectFirstOn;
    actions := [];
    if sent == [] {
      assert trace == [] by { NothingInTurns(trace); }
    } else {
      var m, n := sent[0], if sent[0].bytes == [PROBE] then 1 else 2;
      MarksSkip(trace, sent, fd);
      if m.fd != fd {
        FitsBehind(s.client, sent, fd, s.client);
        actions := Converse(w, s, trace[n..], sent[1..], fd, stored, listing);
      } else {
        if s.client.Unconnected? {
          FirstIsConnect(sent, fd);
        }
        var first, t := SaysOne(w, s, m, stored, listing);
        FitsBehind(s.client, sent, fd, t.client);
        var rest := Converse(w, t, trace[n..], sent[1..], fd, stored, listing);
        actions := first + rest;
        TwoRuns(w, s, first, t, rest);
      }
    }
  }

  lemma NothingInTurns(trace: seq<Exchange>)
    requires InTurns(trace, [])
    ensures trace == []
  {
  }

  /** Of everything a client writes and reads, what concerns one descriptor is a run of the connection protocol: one
      connect request, then probes and requests, each request answered before the next message, a goodbye last. */
  lemma ClientFollowsProtocol(w: P.World, trace: seq<Exchange>, sent: seq<Sent>, fd: int, stored: Option<Bytes>,
                              listing: Bytes)
      returns (actions: seq<P.Action>)
    requires P.ValidWorld(w) && Conforming(sent) && InTurns(trace, sent)
    ensures P.Run(w, P.INITIAL, actions).Some? && MarksOf(w, P.INITIAL, actions) == MarksOn(trace, fd)
  {
    hide IsConnect, Introduced, IsProper, InTurns, IsExit;
    P.InitialLockstep(w);
    actions := Converse(w, P.INITIAL, trace, sent, fd, stored, listing);
  }
}
