/** The sessions of src/dedicatedServer.c on values: what a session makes of its stream, and what a run of the
    server comes to when connections are accepted, bytes arrive and sessions take turns in any order. */
module Turns {
  import opened Wire
  import opened Wrappers
  import opened Requests
  import opened FileTransfer
  import opened Roster
  import P = Protocol

  /** What a session finds on its disk: its files by name, and the answer to a request for a list of them. */
  datatype Disk = Disk(files: Bytes -> Option<Bytes>, listing: Bytes)

  /** The bytes that answer one packet. */
  ghost function AnswerBytes(w: P.World, noted: Option<P.Event>): Bytes {
    match noted
    case None => []
    case Some(Offered(_, content)) => EncodeAll(FilePackets(content, w.md5(content)))
    case Some(e) => Encode(P.ReplyTo(w, e))
  }

  /** Enough bytes have arrived for the next read to return. */
  predicate CanRead(queue: Bytes) {
    !Read(queue).Blocked?
  }

  /** What the session notes about the front of its queue. */
  ghost function Noted(queue: Bytes, disk: Disk): Option<P.Event> {
    if Read(queue).Got?
    then P.React(Read(queue).packet, disk.files(Read(queue).packet.data), disk.listing) else None
  }

  lemma RequestsCounted(queue: Bytes, disk: Disk, fd: int)
    requires !Read(queue).Blocked?
    ensures var noted := Noted(queue, disk);
            ConnectRequests(queue) == multiset(Recorded(noted, fd))[In(fd)]
                                      + if noted == Some(P.Left) then 0 else ConnectRequests(Read(queue).rest)
  {
    hide Read;
  }

  /** What a noted event means for the list over time. */
  function Recorded(noted: Option<P.Event>, fd: int): seq<Happened> {
    match noted
    case Some(Entered(_)) => [In(fd)]
    case Some(Left) => [Out(fd)]
    case _ => []
  }

  /** The session of the connection protocol and the loop of this module write the same bytes for a packet: what the
      protocol's session has queued or will still send, and whether it ends, is what one round writes and does. */
  lemma ProtocolAgrees(w: P.World, s: P.State, noted: Option<P.Event>)
    requires s.session.Serving?
    ensures var t := P.Served(w, s, noted);
            && t.down + P.Outstanding(w, t.session) == s.down + AnswerBytes(w, noted)
            && (t.session.Ended? <==> noted == Some(P.Left))
            && t.up == s.up && t.client == s.client
  {
    hide Encode, EncodeAll, FilePackets;
  }

  // ----- a whole stream

  predicate IsExit(t: Token) {
    t.Whole? && t.p.kind == T_EXIT
  }

  /** The answer to a packet; a byte between the packets has none. */
  ghost function AnswerTo(w: P.World, t: Token, disk: Disk): Bytes {
    match t
    case Noise(_) => []
    case Whole(p) => AnswerBytes(w, P.React(p, disk.files(p.data), disk.listing))
  }

  /** What each request of a client is answered with, when its text and the answer fit into a packet; a file that is
      there comes back whole. */
  lemma AnswersAre(w: P.World, r: Request, disk: Disk)
    requires P.ValidWorld(w)
    ensures var a := AnswerTo(w, Whole(RequestPacket(r)), disk);
            && (r.Connect? && |w.name| < LENGTH_LIMIT ==> a == Encode(Packet(T_CONNECT, H_CONOK, w.name)))
            && (r.Message? ==> a == Encode(Packet(T_MSG, H_MSGOK, [])))
            && (r.Broadcast? ==> a == Encode(Packet(T_BROADCAST, H_MSGOK, [])))
            && (r.ListAudios? && |disk.listing| < LENGTH_LIMIT ==>
                  a == Encode(Packet(T_SHOWAUDIOS, H_LISTAUDIOS, disk.listing)))
            && (r.Exit? ==> a == Encode(Packet(T_EXIT, H_CONOK, [])))
            && (r.Download? && |r.file| < LENGTH_LIMIT && disk.files(r.file).None? ==>
                  a == Encode(Packet(T_DOWNLOAD, H_AUDKO, [])))
            && (r.Download? && |r.file| < LENGTH_LIMIT && disk.files(r.file).Some? ==>
                  var content := disk.files(r.file).value;
                  && Read(a).Got? && Read(a).packet.header == H_AUDRESP
                  && Assemble(Read(a).packet, Read(a).rest) == Done(content, w.md5(content), []))
  {
    hide Encode, Ascii, Read, Assemble, FilePackets, EncodeAll;
    if r.Connect? && |w.name| < LENGTH_LIMIT {
      ShortDataIsKept(T_CONNECT, H_CONOK, w.name);
    } else if r.ListAudios? && |disk.listing| < LENGTH_LIMIT {
      ShortDataIsKept(T_SHOWAUDIOS, H_LISTAUDIOS, disk.listing);
    } else if r.Download? && |r.file| < LENGTH_LIMIT {
      ShortDataIsKept(T_DOWNLOAD, H_AUDREQ, r.file);
      if disk.files(r.file).Some? {
        var content := disk.files(r.file).value;
        FileIsRead(content, w.md5(content));
      }
    }
  }

  lemma FileIsRead(content: Bytes, digest: Bytes)
    requires |digest| < LENGTH_LIMIT
    ensures var a := EncodeAll(FilePackets(content, digest));
            && Read(a).Got? && Read(a).packet.header == H_AUDRESP
            && Assemble(Read(a).packet, Read(a).rest) == Done(content, digest, [])
  {
    hide Encode, Ascii, Read, Assemble;
    var ps := FilePackets(content, digest);
    ReadUndoesEncode(ps[0], EncodeAll(ps[1..]));
    FileArrivesWhole(content, digest, []);
    assert EncodeAll(ps[1..]) + [] == EncodeAll(ps[1..]);
  }

  /** The answers to one packet after the other, each with what was on the disk in that round. */
  ghost function Answers(w: P.World, ts: seq<Token>, disks: seq<Disk>): Bytes
    requires |ts| == |disks|
    decreases |ts|
  {
    if ts == [] then []
    else
      var n := |ts| - 1;
      Answers(w, ts[..n], disks[..n]) + AnswerTo(w, ts[n], disks[n])
  }

  lemma OneMoreAnswer(w: P.World, ts: seq<Token>, disks: seq<Disk>, disk: Disk)
    requires |disks| < |ts|
    ensures var n := |disks|;
            && Answers(w, ts[..n + 1], disks + [disk]) == Answers(w, ts[..n], disks) + AnswerTo(w, ts[n], disk)
            && ts[n..][0] == ts[n] && ts[n..][1..] == ts[n + 1..]
  {
    var n := |disks|;
    assert ts[..n + 1][..n] == ts[..n] && (disks + [disk])[..n] == disks;
  }

  /** One read takes one token. */
  lemma NextToken(queue: Bytes, disk: Disk, w: P.World)
    requires CanRead(queue)
    ensures var (ts, tail) := Parse(queue);
            && ts != [] && Parse(Read(queue).rest) == (ts[1..], tail)
            && AnswerTo(w, ts[0], disk) == AnswerBytes(w, Noted(queue, disk))
            && (IsExit(ts[0]) <==> Noted(queue, disk) == Some(P.Left))
  {
    hide Read, AnswerBytes;
    ReadIsInverse(queue);
    assert AnswerBytes(w, None) == [] by { NoAnswer(w); }
  }

  lemma NoToken(queue: Bytes)
    ensures !CanRead(queue) ==> Parse(queue).0 == []
  {
  }

  lemma NoAnswer(w: P.World)
    ensures AnswerBytes(w, None) == []
  {
  }

  // ----- a run

  /** What can happen: a connection is accepted, bytes arrive on one, or a session takes a turn. */
  datatype Step =
    | Accept(fd: int)
    | Arrive(fd: int, data: Bytes)
    | Go(fd: int, disk: Disk)

  /** A session seen from outside: what has arrived and is unread, what it has written, and if it has ended. */
  datatype Solo = Solo(unread: Bytes, written: Bytes, ended: bool)

  ghost predicate CanTurn(solo: Option<Solo>) {
    solo.Some? && !solo.value.ended && CanRead(solo.value.unread)
  }

  /** A step concerns the session of its descriptor only. A descriptor that is taken is not handed out again. */
  ghost function AfterStep(w: P.World, solo: Option<Solo>, step: Step, fd: int): Option<Solo> {
    if step.fd != fd then solo
    else
      match step
      case Accept(_) => if solo.None? then Some(Solo([], [], false)) else solo
      case Arrive(_, data) => if solo.None? then None else Some(solo.value.(unread := solo.value.unread + data))
      case Go(_, disk) =>
        if !CanTurn(solo) then solo
        else
          var noted := Noted(solo.value.unread, disk);
          Some(Solo(Read(solo.value.unread).rest, solo.value.written + AnswerBytes(w, noted), noted == Some(P.Left)))
  }

  lemma OthersStay(w: P.World, solo: Option<Solo>, step: Step, fd: int)
    requires step.fd != fd || (step.Go? && solo.None?)
    ensures AfterStep(w, solo, step, fd) == solo
    ensures solo.None? ==> Happening(solo, step) == []
  {
  }

  /** The session of a descriptor as it is without the others. */
  ghost function Alone(w: P.World, schedule: seq<Step>, fd: int): Option<Solo>
    decreases |schedule|
  {
    if schedule == [] then None
    else
      var n := |schedule| - 1;
      AfterStep(w, Alone(w, schedule[..n], fd), schedule[n], fd)
  }

  ghost function Happening(solo: Option<Solo>, step: Step): seq<Happened> {
    if step.Go? && CanTurn(solo) then Recorded(Noted(solo.value.unread, step.disk), step.fd) else []
  }

  /** What happened to the list of sessions. */
  ghost function HistoryOf(w: P.World, schedule: seq<Step>): seq<Happened>
    decreases |schedule|
  {
    if schedule == [] then []
    else
      var n := |schedule| - 1;
      HistoryOf(w, schedule[..n]) + Happening(Alone(w, schedule[..n], schedule[n].fd), schedule[n])
  }

  /** The bytes that arrived on an accepted descriptor. */
  ghost function Arrived(schedule: seq<Step>, fd: int): Bytes
    decreases |schedule|
  {
    if schedule == [] then []
    else
      var rest, last := schedule[..|schedule| - 1], schedule[|schedule| - 1];
      Arrived(rest, fd) + if last.Arrive? && last.fd == fd && Accept(fd) in rest then last.data else []
  }

  lemma OneMoreStep(w: P.World, schedule: seq<Step>, step: Step)
    ensures forall fd :: Alone(w, schedule + [step], fd) == AfterStep(w, Alone(w, schedule, fd), step, fd)
    ensures HistoryOf(w, schedule + [step]) == HistoryOf(w, schedule) + Happening(Alone(w, schedule, step.fd), step)
  {
    assert (schedule + [step])[..|schedule|] == schedule;
  }

  lemma {:induction false} AcceptedIsThere(w: P.World, schedule: seq<Step>, fd: int)
    ensures Alone(w, schedule, fd).Some? <==> Accept(fd) in schedule
    decreases |schedule|
  {
    if schedule != [] {
      hide AnswerBytes, Noted, CanRead;
      var n := |schedule| - 1;
      AcceptedIsThere(w, schedule[..n], fd);
      assert schedule == schedule[..n] + [schedule[n]];
    }
  }

  /** What a session found on its disk in each of its rounds. */
  ghost function DisksOf(w: P.World, schedule: seq<Step>, fd: int): seq<Disk>
    decreases |schedule|
  {
    if schedule == [] then []
    else
      var rest, last := schedule[..|schedule| - 1], schedule[|schedule| - 1];
      DisksOf(w, rest, fd)
      + if last.Go? && last.fd == fd && CanTurn(Alone(w, rest, fd)) then [last.disk] else []
  }

  lemma {:induction false} NoRoundsYet(w: P.World, schedule: seq<Step>, fd: int)
    requires Alone(w, schedule, fd).None?
    ensures DisksOf(w, schedule, fd) == [] && Arrived(schedule, fd) == []
    decreases |schedule|
  {
    if schedule != [] {
      hide AnswerBytes, Noted, CanRead;
      LastStep(w, schedule, fd);
      NoRoundsYet(w, schedule[..|schedule| - 1], fd);
    }
  }

  /** In as many rounds as there are disks a session has answered that many of the packets that arrived, in order; it
      has ended if and only if the last of them was an exit request. */
  ghost predicate AnsweredUpTo(w: P.World, arrived: Bytes, solo: Solo, disks: seq<Disk>) {
    var (ts, tail) := Parse(arrived);
    var rounds := |disks|;
    && rounds <= |ts| && Parse(solo.unread) == (ts[rounds..], tail)
    && solo.written == Answers(w, ts[..rounds], disks)
    && (forall i :: 0 <= i < rounds - 1 ==> !IsExit(ts[i]))
    && (solo.ended <==> rounds > 0 && IsExit(ts[rounds - 1]))
  }

  lemma AnsweredGrows(w: P.World, arrived: Bytes, solo: Solo, disks: seq<Disk>, data: Bytes)
    requires AnsweredUpTo(w, arrived, solo, disks)
    ensures AnsweredUpTo(w, arrived + data, solo.(unread := solo.unread + data), disks)
  {
    hide Parse, IsExit, Answers;
    ParseGrows(arrived, data);
    ParseGrows(solo.unread, data);
    var (ts, tail) := Parse(arrived);
    var more, n := Parse(tail + data).0, |disks|;
    assert (ts + more)[..n] == ts[..n] && (ts + more)[n..] == ts[n..] + more;
  }

  lemma AnsweredOneMore(w: P.World, arrived: Bytes, solo: Solo, disks: seq<Disk>, step: Step)
    requires AnsweredUpTo(w, arrived, solo, disks) && step.Go? && CanTurn(Some(solo))
    ensures AnsweredUpTo(w, arrived, AfterStep(w, Some(solo), step, step.fd).value, disks + [step.disk])
  {
    hide Parse, Read, IsExit, Answers, AnswerBytes, AnswerTo, Noted, CanRead;
    NextToken(solo.unread, step.disk, w);
    OneMoreAnswer(w, Parse(arrived).0, disks, step.disk);
  }

  lemma NothingAnswered(w: P.World, arrived: Bytes)
    ensures AnsweredUpTo(w, arrived, Solo(arrived, [], false), [])
  {
    assert Parse(arrived).0[0..] == Parse(arrived).0;
  }

  lemma AllAnswered(w: P.World, arrived: Bytes, solo: Solo, disks: seq<Disk>)
    requires AnsweredUpTo(w, arrived, solo, disks)
    ensures !CanRead(solo.unread) ==> |disks| == |Parse(arrived).0|
  {
    NoToken(solo.unread);
  }

  /** Over every run a session writes exactly the answers to the packets that have arrived for it, in order, up to
      where it has got, each from what was on the disk in the round of that packet, whatever the others do. */
  lemma {:induction false} AloneAnswers(w: P.World, schedule: seq<Step>, fd: int)
    requires Accept(fd) in schedule
    ensures Alone(w, schedule, fd).Some?
    ensures AnsweredUpTo(w, Arrived(schedule, fd), Alone(w, schedule, fd).value, DisksOf(w, schedule, fd))
    decreases |schedule|
  {
    hide AnsweredUpTo, AnswerBytes, Noted, CanRead, Alone, Arrived;
    var rest, last := schedule[..|schedule| - 1], schedule[|schedule| - 1];
    assert schedule == rest + [last];
    AcceptedIsThere(w, rest, fd);
    LastStep(w, schedule, fd);
    if Accept(fd) !in rest {
      NoRoundsYet(w, rest, fd);
      NothingAnswered(w, []);
    } else {
      AloneAnswers(w, rest, fd);
      var arrived, solo, disks := Arrived(rest, fd), Alone(w, rest, fd), DisksOf(w, rest, fd);
      assert disks + [] == disks;
      if last.fd == fd && last.Arrive? {
        AnsweredGrows(w, arrived, solo.value, disks, last.data);
      } else if last.fd == fd && last.Go? && CanTurn(solo) {
        AnsweredOneMore(w, arrived, solo.value, disks, last);
      }
    }
  }

  /** What the last step does to a session and to what has arrived for it. */
  lemma LastStep(w: P.World, schedule: seq<Step>, fd: int)
    requires schedule != []
    ensures var rest, last := schedule[..|schedule| - 1], schedule[|schedule| - 1];
            var solo := Alone(w, rest, fd);
            && Alone(w, schedule, fd) == (if last.fd == fd then AfterStep(w, solo, last, fd) else solo)
            && Arrived(schedule, fd) ==
               Arrived(rest, fd) + (if last.fd == fd && last.Arrive? && solo.Some? then last.data else [])
            && (last.fd != fd || !last.Arrive? ==> Arrived(schedule, fd) == Arrived(rest, fd))
  {
    hide AnswerBytes, Noted, CanTurn;
    AcceptedIsThere(w, schedule[..|schedule| - 1], fd);
  }

  // ----- nothing is lost, and every turn counts

  /** Bytes that arrive for an accepted connection are kept for its session, and for no other. */
  lemma ArrivingIsKept(w: P.World, schedule: seq<Step>, fd: int, data: Bytes, other: int)
    requires Accept(fd) in schedule
    ensures var after := schedule + [Arrive(fd, data)];
            && Arrived(after, fd) == Arrived(schedule, fd) + data
            && Alone(w, schedule, fd).Some? && Alone(w, after, fd).Some?
            && Alone(w, after, fd).value.unread == Alone(w, schedule, fd).value.unread + data
            && (other != fd ==> Arrived(after, other) == Arrived(schedule, other)
                                && Alone(w, after, other) == Alone(w, schedule, other))
  {
    AcceptedIsThere(w, schedule, fd);
    OneMoreStep(w, schedule, Arrive(fd, data));
    assert (schedule + [Arrive(fd, data)])[..|schedule|] == schedule;
  }

  /** A session that has not ended, and for which enough bytes have arrived, takes the turn that it is given. */
  lemma TurnIsTaken(w: P.World, schedule: seq<Step>, fd: int, disk: Disk)
    requires Alone(w, schedule, fd).Some?
    ensures var solo, after := Alone(w, schedule, fd).value, schedule + [Go(fd, disk)];
            && Alone(w, after, fd).Some? && Arrived(after, fd) == Arrived(schedule, fd)
            && if solo.ended || Read(solo.unread).Blocked?
               then Alone(w, after, fd) == Some(solo) && DisksOf(w, after, fd) == DisksOf(w, schedule, fd)
               else Alone(w, after, fd).value.unread == Read(solo.unread).rest
                    && DisksOf(w, after, fd) == DisksOf(w, schedule, fd) + [disk]
  {
    hide Read, AnswerBytes, Noted;
    OneMoreStep(w, schedule, Go(fd, disk));
    assert (schedule + [Go(fd, disk)])[..|schedule|] == schedule;
  }

  function TurnsFor(steps: seq<Step>, fd: int): nat
    decreases |steps|
  {
    if steps == [] then 0
    else
      var last := steps[|steps| - 1];
      TurnsFor(steps[..|steps| - 1], fd) + if last.Go? && last.fd == fd then 1 else 0
  }

  ghost predicate NothingArrives(steps: seq<Step>, fd: int) {
    forall i :: 0 <= i < |steps| && steps[i].Arrive? ==> steps[i].fd != fd
  }

  /** Packets that a session has yet to read. */
  ghost function Pending(solo: Solo): nat {
    if solo.ended then 0 else |Parse(solo.unread).0|
  }

  /** While nothing arrives for a session each of its turns takes one packet, until it has ended or has to wait. */
  lemma {:induction false} TurnsDoWork(w: P.World, schedule: seq<Step>, more: seq<Step>, fd: int)
    requires Alone(w, schedule, fd).Some? && NothingArrives(more, fd)
    ensures var all := schedule + more;
            && Alone(w, all, fd).Some? && Arrived(all, fd) == Arrived(schedule, fd)
            && (Pending(Alone(w, all, fd).value) == 0
                || Pending(Alone(w, all, fd).value) + TurnsFor(more, fd) == Pending(Alone(w, schedule, fd).value))
    decreases |more|
  {
    hide Alone, Arrived, Pending, AfterStep;
    if more == [] {
      assert schedule + more == schedule;
    } else {
      var less, last := more[..|more| - 1], more[|more| - 1];
      TurnsDoWork(w, schedule, less, fd);
      assert schedule + more == schedule + less + [last];
      StepDoesWork(w, schedule + less, last, fd);
    }
  }

  lemma StepDoesWork(w: P.World, schedule: seq<Step>, step: Step, fd: int)
    requires Alone(w, schedule, fd).Some? && (step.Arrive? ==> step.fd != fd)
    ensures var after := schedule + [step];
            && Alone(w, after, fd).Some? && Arrived(after, fd) == Arrived(schedule, fd)
            && (Pending(Alone(w, after, fd).value) == 0
                || Pending(Alone(w, after, fd).value) + (if step.Go? && step.fd == fd then 1 else 0)
                   == Pending(Alone(w, schedule, fd).value))
  {
    hide Read, Parse, AnswerBytes, Noted, IsExit;
    OneMoreStep(w, schedule, step);
    assert (schedule + [step])[..|schedule|] == schedule;
    var solo := Alone(w, schedule, fd);
    if step.Go? && step.fd == fd {
      if CanTurn(solo) {
        NextToken(solo.value.unread, step.disk, w);
      } else {
        NoToken(solo.value.unread);
      }
    }
  }

  /** Once nothing more arrives, and a session has been given as many turns as packets have arrived, it has answered
      all of them up to the first exit request, whatever the others did meanwhile. */
  lemma EverythingIsAnswered(w: P.World, schedule: seq<Step>, more: seq<Step>, fd: int)
    requires Accept(fd) in schedule && NothingArrives(more, fd)
    requires TurnsFor(more, fd) >= |Parse(Arrived(schedule, fd)).0|
    ensures var ts, all := Parse(Arrived(schedule, fd)).0, schedule + more;
            var n := |DisksOf(w, all, fd)|;
            && Alone(w, all, fd).Some? && n <= |ts|
            && Alone(w, all, fd).value.written == Answers(w, ts[..n], DisksOf(w, all, fd))
            && (forall i :: 0 <= i < n - 1 ==> !IsExit(ts[i]))
            && if n > 0 && IsExit(ts[n - 1]) then Alone(w, all, fd).value.ended
               else n == |ts| && !Alone(w, all, fd).value.ended
  {
    hide Alone, Arrived, DisksOf, Parse, IsExit, Answers;
    AloneAnswers(w, schedule, fd);
    TurnsDoWork(w, schedule, more, fd);
    AloneAnswers(w, schedule + more, fd);
  }

  /** The `n` connect requests that a session has handled and those that it has yet to read are those that arrived,
      whatever may still follow. */
  ghost predicate AddsUp(arrived: Bytes, n: nat, solo: Option<Solo>, more: Bytes) {
    if solo.None? then n == 0 && arrived == []
    else
      ConnectRequests(arrived + more) ==
      n + if solo.value.ended then 0 else ConnectRequests(solo.value.unread + more)
  }

  lemma StepAddsUp(w: P.World, arrived: Bytes, n: nat, solo: Option<Solo>, step: Step, more: Bytes)
    requires AddsUp(arrived, n, solo, if step.Arrive? then step.data + more else more)
    ensures AddsUp(arrived + if step.Arrive? && solo.Some? then step.data else [],
                   n + multiset(Happening(solo, step))[In(step.fd)], AfterStep(w, solo, step, step.fd), more)
  {
    hide AnswerBytes, Noted, ConnectRequests, Read, Recorded;
    assert arrived + [] == arrived;
    if step.Arrive? && solo.Some? {
      assert arrived + step.data + more == arrived + (step.data + more);
      assert solo.value.unread + step.data + more == solo.value.unread + (step.data + more);
    } else if step.Go? && CanTurn(solo) {
      TurnCounts(solo.value.unread, step.disk, step.fd, more);
    } else if step.Accept? && solo.None? {
      assert arrived + more == [] + more;
    }
  }

  /** Conservation of connect requests over every run. */
  lemma {:induction false} ConnectsAddUp(w: P.World, schedule: seq<Step>, fd: int, more: Bytes)
    ensures AddsUp(Arrived(schedule, fd), multiset(HistoryOf(w, schedule))[In(fd)], Alone(w, schedule, fd), more)
    decreases |schedule|
  {
    if schedule != [] {
      hide Happening, AddsUp, AfterStep, Alone, Arrived, HistoryOf;
      var rest, last := schedule[..|schedule| - 1], schedule[|schedule| - 1];
      LastStep(w, schedule, fd);
      OneMoreIsCounted(w, schedule, fd);
      if last.fd == fd {
        ConnectsAddUp(w, rest, fd, if last.Arrive? then last.data + more else more);
        StepAddsUp(w, Arrived(rest, fd), multiset(HistoryOf(w, rest))[In(fd)], Alone(w, rest, fd), last, more);
      } else {
        ConnectsAddUp(w, rest, fd, more);
      }
    }
  }

  lemma OneMoreIsCounted(w: P.World, schedule: seq<Step>, fd: int)
    requires schedule != []
    ensures var rest, last := schedule[..|schedule| - 1], schedule[|schedule| - 1];
            multiset(HistoryOf(w, schedule))[In(fd)] ==
            multiset(HistoryOf(w, rest))[In(fd)]
            + if last.fd == fd then multiset(Happening(Alone(w, rest, fd), last))[In(fd)] else 0
  {
    hide CanTurn, Noted, Alone;
    var rest, last := schedule[..|schedule| - 1], schedule[|schedule| - 1];
    assert forall h :: h in Happening(Alone(w, rest, last.fd), last) ==> h.fd == last.fd;
  }

  lemma TurnCounts(queue: Bytes, disk: Disk, fd: int, more: Bytes)
    requires CanRead(queue)
    ensures var noted := Noted(queue, disk);
            ConnectRequests(queue + more) ==
            multiset(Recorded(noted, fd))[In(fd)]
            + if noted == Some(P.Left) then 0 else ConnectRequests(Read(queue).rest + more)
  {
    hide Read, ConnectRequests, Recorded;
    ReadIsStable(queue, more);
    RequestsCounted(queue + more, disk, fd);
  }

  /** The history holds the end of a session if and only if the session has ended. */
  lemma {:induction false} EndIsRecorded(w: P.World, schedule: seq<Step>, fd: int)
    ensures Out(fd) in HistoryOf(w, schedule) <==> Alone(w, schedule, fd).Some? && Alone(w, schedule, fd).value.ended
    decreases |schedule|
  {
    if schedule != [] {
      hide HistoryOf, Alone, AfterStep, Happening;
      var rest, last := schedule[..|schedule| - 1], schedule[|schedule| - 1];
      assert schedule == rest + [last];
      EndIsRecorded(w, rest, fd);
      OneMoreStep(w, rest, last);
      StepRecordsEnd(w, Alone(w, rest, last.fd), last, fd);
      if last.fd != fd {
        OthersStay(w, Alone(w, rest, fd), last, fd);
      }
    }
  }

  lemma StepRecordsEnd(w: P.World, solo: Option<Solo>, step: Step, fd: int)
    ensures Out(fd) in Happening(solo, step) ==> step.fd == fd
    ensures var after := AfterStep(w, solo, step, step.fd);
            after.Some? && after.value.ended <==>
            (solo.Some? && solo.value.ended) || Out(step.fd) in Happening(solo, step)
  {
    hide Noted, AnswerBytes, CanRead, Read;
  }

  /** Each stream holds one connect request at most. */
  ghost predicate OneConnectPerStream(schedule: seq<Step>) {
    forall fd :: ConnectRequests(Arrived(schedule, fd)) <= 1
  }

  /** Then no session connects twice, whatever the order of the steps. */
  lemma OneEachIsOnce(w: P.World, schedule: seq<Step>)
    requires OneConnectPerStream(schedule)
    ensures ConnectsOnce(HistoryOf(w, schedule))
  {
    hide ConnectRequests;
    var history := HistoryOf(w, schedule);
    if !ConnectsOnce(history) {
      var i, j :| 0 <= i < j < |history| && history[i].In? && history[j].In? && history[i].fd == history[j].fd;
      var fd := history[i].fd;
      assert Arrived(schedule, fd) + [] == Arrived(schedule, fd);
      ConnectsAddUp(w, schedule, fd, []);
      InTwice(history, i, j);
    }
  }
}
