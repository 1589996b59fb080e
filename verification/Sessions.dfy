/** The server side: the sessions of src/dedicatedServer.c, each with its own copy of the handle on the one list
    of connected sessions, and the main server of src/server.c that starts them and closes them all. */
module Sessions {
  import opened Sequences
  import opened Wire
  import opened LinkedList
  import opened Wrappers
  import opened Channels
  import opened Files
  import opened FileTransfer
  import opened Roster
  import opened Turns
  import P = Protocol

  /** An element of the list; `dedicated` is the session itself. */
  datatype Entry = Entry(user: Bytes, socketfd: int, dedicated: DedicatedServer)

  function Descriptors(entries: seq<Entry>): (ds: seq<int>)
    ensures |ds| == |entries| && forall i :: 0 <= i < |entries| ==> ds[i] == entries[i].socketfd
  {
    seq(|entries|, i requires 0 <= i < |entries| => entries[i].socketfd)
  }

  /** The list without its first entry for fd. */
  function Forget(entries: seq<Entry>, fd: int): seq<Entry> {
    var k := IndexOf(Descriptors(entries), fd);
    if k < |entries| then entries[..k] + entries[k + 1..] else entries
  }

  function FirstDisks(disks: nat -> Disk, n: nat): (ds: seq<Disk>)
    ensures |ds| == n
  {
    seq(n, (i: nat) => disks(i))
  }

  lemma NoDisks(disks: nat -> Disk)
    ensures FirstDisks(disks, 0) == []
  {
  }

  lemma OneMoreDisk(disks: nat -> Disk, n: nat)
    ensures FirstDisks(disks, n + 1) == FirstDisks(disks, n) + [disks(n)]
  {
  }

  /** What a session that is closed writes last. */
  const GOODBYE: Bytes := Encode(Packet(T_EXIT, H_CONOK, []))

  class DedicatedServer {
    const fd: int
    const world: P.World
    const input: Channel
    const output: Channel
    const list: Handle<Entry>
    var state: int
    ghost var freed: bool

    /** A session whose thread runs and that has not moved the cursor of its handle yet. */
    ghost predicate Ready()
      reads this, list, list.chain, list.chain.space
    {
      !freed && state == 1 && list.Attached() && list.pdi == list.ult
    }

    /** DSERVER_init, and the start of the thread. */
    constructor (fd: int, world: P.World, input: Channel, output: Channel, shared: Handle<Entry>)
      ensures this.fd == fd && this.world == world && this.input == input && this.output == output
      ensures state == 1 && !freed && fresh(list)
      ensures list.pri == shared.pri && list.pdi == shared.pdi && list.ult == shared.ult && list.chain == shared.chain
    {
      this.fd, this.world, this.input, this.output := fd, world, input, output;
      state, freed := 1, false;
      list := new Handle.CopyOf(shared);
    }

    /** The critical section of a connect request. */
    method Enter()
      requires Ready()
      modifies list`elements, list.chain, list.chain.space
      ensures Ready() && fresh(list.chain.space - old(list.chain.space))
      ensures list.chain.items == old(list.chain.items) + [Entry(world.name, fd, this)]
    {
      hide Chain.Valid, Handle.Anchored, Handle.Spec;
      assert list.AtLastSentinel();
      var ok := list.InsertBefore(Entry(world.name, fd, this));
    }

    /** The search loop of DSERVER_close, which removes the first entry with this session's descriptor. */
    method RemoveOwnEntry()
      requires list.Anchored()
      modifies list`pdi, list`elements, list.chain, list.chain.space
      ensures list.Anchored() && list.chain.space == old(list.chain.space)
      ensures list.chain.items == Forget(old(list.chain.items), fd)
    {
      hide Chain.Valid, Handle.Anchored, Handle.Attached, Handle.Spec, Forget;
      ghost var entries := list.chain.items;
      ghost var k := CutOf(entries, fd);
      var found := false;
      if !list.IsEmpty() {
        list.GoFirst();
        while !list.AtLastSentinel() && !found && !list.IsEmpty()
          invariant list.Attached() && list.chain.space == old(list.chain.space)
          invariant !found ==> list.chain.items == entries && 0 <= list.Spec().at <= k
          invariant found ==> list.chain.items == Forget(entries, fd)
          decreases if found then 0 else |entries| + 1 - list.Spec().at
        {
          var dserver := list.Query();
          if dserver.socketfd == fd {
            found := true;
            var ok := list.Remove();
          } else {
            var ok := list.Advance();
          }
        }
      }
    }

    /** DSERVER_close: say goodbye, leave the list, and be freed. */
    method Close()
      requires !freed && list.Anchored()
      modifies this`state, this`freed, output, list`pdi, list`elements, list.chain, list.chain.space
      ensures freed && state == -1
      ensures list.Anchored() && list.chain.space == old(list.chain.space)
      ensures list.chain.items == Forget(old(list.chain.items), fd)
      ensures output.bytes == old(output.bytes) + Encode(Packet(T_EXIT, H_CONOK, []))
    {
      hide Chain.Valid, Handle.Anchored, Encode;
      output.WritePacket(Packet(T_EXIT, H_CONOK, []));
      state := -1;
      RemoveOwnEntry();
      freed := true;
    }

    /** The answer to a packet, once the list has been dealt with. */
    method Answer(noted: P.Event)
      requires P.BySession(noted) && !noted.Left?
      modifies output
      ensures output.bytes == old(output.bytes) + AnswerBytes(world, Some(noted))
    {
      hide FilePackets, EncodeAll, Encode;
      if noted.Offered? {
        var file := new RegularFile.Opened(noted.content);
        SendFile(file, world.md5, output);
      } else {
        output.WritePacket(P.ReplyTo(world, noted));
      }
    }

    /** One round of DSERVER_threadFunc: read a packet, and do what its branch does. */
    method Round(disk: Disk)
      requires Ready() && input != output && !Read(input.bytes).Blocked?
      modifies this`state, this`freed, input, output, list`pdi, list`elements, list.chain, list.chain.space
      ensures list.Anchored() && fresh(list.chain.space - old(list.chain.space))
      ensures input.bytes == Read(old(input.bytes)).rest
      ensures var noted := Noted(old(input.bytes), disk);
              && output.bytes == old(output.bytes) + AnswerBytes(world, noted)
              && list.chain.items == Listing(old(list.chain.items), noted, Entry(world.name, fd, this))
              && if noted == Some(P.Left) then freed && state == -1 else Ready()
    {
      hide Chain.Valid, Handle.Anchored, Handle.Attached, Read, FilePackets, EncodeAll, Encode, Forget;
      var r := input.ReadPacket();
      if r.Unknown? {
        return;
      }
      var noted := P.React(r.packet, disk.files(r.packet.data), disk.listing);
      if noted == Some(P.Left) {
        Close();
      } else if noted.Some? {
        if noted.value.Entered? {
          Enter();
        }
        Answer(noted.value);
      }
    }

    /** DSERVER_threadFunc, up to the point where it has ended or has to wait for more bytes; `disks` is what it finds
        on its disk in each round. It answers the packets of its stream one by one, up to the first exit request. */
    method ThreadFunc(disks: nat -> Disk) returns (rounds: nat, ghost written: Bytes)
      requires Ready() && input != output
      modifies this`state, this`freed, input, output, list`pdi, list`elements, list.chain, list.chain.space
      ensures output.bytes == old(output.bytes) + written
      ensures AnsweredUpTo(world, old(input.bytes), Solo(input.bytes, written, freed), FirstDisks(disks, rounds))
      ensures !freed ==> rounds == |Parse(old(input.bytes)).0|
    {
      hide Chain.Valid, Handle.Anchored, Handle.Attached, Handle.Spec, Read, AnswerBytes, Noted, Listing, AnsweredUpTo,
        FirstDisks;
      ghost var stream := input.bytes;
      rounds, written := 0, [];
      NothingAnswered(world, stream);
      NoDisks(disks);
      while state == 1 && CanRead(input.bytes)
        invariant fresh(list.chain.space - old(list.chain.space))
        invariant output.bytes == old(output.bytes) + written
        invariant AnsweredUpTo(world, stream, Solo(input.bytes, written, freed), FirstDisks(disks, rounds))
        invariant if freed then state == -1 else Ready()
        decreases !freed, |input.bytes|
      {
        ghost var noted := Noted(input.bytes, disks(rounds));
        AnsweredOneMore(world, stream, Solo(input.bytes, written, freed), FirstDisks(disks, rounds),
                        Step.Go(fd, disks(rounds)));
        OneMoreDisk(disks, rounds);
        ReadIsInverse(input.bytes);
        Round(disks(rounds));
        written := written + AnswerBytes(world, noted);
        rounds := rounds + 1;
      }
      AllAnswered(world, stream, Solo(input.bytes, written, freed), FirstDisks(disks, rounds));
    }
  }

  /** What that does to the list of sessions. */
  function Listing(entries: seq<Entry>, noted: Option<P.Event>, own: Entry): seq<Entry> {
    match noted
    case Some(Entered(_)) => entries + [own]
    case Some(Left) => Forget(entries, own.socketfd)
    case _ => entries
  }

  lemma ForgetFirst(entries: seq<Entry>)
    requires entries != []
    ensures Forget(entries, entries[0].socketfd) == entries[1..]
  {
  }

  /** The first entry for fd, or the end of the list, is where Forget cuts. */
  lemma CutOf(entries: seq<Entry>, fd: int) returns (k: nat)
    ensures k <= |entries| && forall i :: 0 <= i < k ==> entries[i].socketfd != fd
    ensures k < |entries| ==> entries[k].socketfd == fd && Forget(entries, fd) == entries[..k] + entries[k + 1..]
    ensures k == |entries| ==> Forget(entries, fd) == entries
  {
    hide IndexOf;
    var ds := Descriptors(entries);
    k := IndexOf(ds, fd);
    assert forall i :: 0 <= i < |entries| ==> ds[i] == entries[i].socketfd;
  }

  lemma ForgetLeavesNone(entries: seq<Entry>, fd: int)
    requires forall i, j :: 0 <= i < j < |entries| ==> entries[i].socketfd != entries[j].socketfd
    ensures var left := Forget(entries, fd);
            && (forall e :: e in left ==> e in entries && e.socketfd != fd)
            && forall i, j :: 0 <= i < j < |left| ==> left[i].socketfd != left[j].socketfd
  {
    hide Forget, IndexOf, Descriptors;
    var k := CutOf(entries, fd);
    var left := Forget(entries, fd);
    forall i | 0 <= i < |left| ensures left[i] == entries[if i < k then i else i + 1] {
    }
  }

  lemma ForgetOnDescriptors(entries: seq<Entry>, fd: int)
    ensures Descriptors(Forget(entries, fd)) == RemoveFirst(Descriptors(entries), fd)
  {
    hide IndexOf;
  }

  lemma ListingOnDescriptors(entries: seq<Entry>, noted: Option<P.Event>, own: Entry, h: seq<Happened>)
    requires Descriptors(entries) == Listed(h)
    ensures Descriptors(Listing(entries, noted, own)) == Listed(h + Recorded(noted, own.socketfd))
  {
    hide RemoveFirst, Forget;
    var recorded := Recorded(noted, own.socketfd);
    if recorded != [] {
      assert (h + recorded)[..|h|] == h;
      ForgetOnDescriptors(entries, own.socketfd);
    } else {
      assert h + recorded == h;
    }
  }

  /** The main server, and the threads it has started. */
  class Server {
    var dss: Handle<Entry>
    var sessions: set<DedicatedServer>
    ghost var history: seq<Happened>

    /** A running session's copy of the handle has the sentinels of the shared chain ... */
    ghost predicate Linked(s: DedicatedServer)
      reads this, dss`chain, dss`pri, dss`ult, s, s.list
    {
      && s.list != dss && s.input != s.output && (s.freed ==> s.state == -1)
      && (!s.freed ==> s.list.chain == dss.chain && s.list.pri == dss.pri && s.list.ult == dss.ult)
    }

    /** ... and its cursor is on the right one. */
    ghost predicate Shares(s: DedicatedServer)
      reads this, dss, s, s.list
    {
      Linked(s) && (!s.freed ==> s.state == 1 && s.list.pdi == dss.ult)
    }

    /** Each entry is that of a running session with its own descriptor and name. */
    ghost predicate Exact()
      reads this, dss`chain, dss.chain, sessions
    {
      && (forall e :: e in dss.chain.items ==>
            e.dedicated in sessions && !e.dedicated.freed && e.dedicated.fd == e.socketfd
            && e.user == e.dedicated.world.name)
      && (forall i, j :: 0 <= i < j < |dss.chain.items| ==> dss.chain.items[i].socketfd != dss.chain.items[j].socketfd)
    }

    /** Descriptors tell the sessions apart, and a session that has ended does nothing more. */
    ghost predicate Orderly()
      reads this, sessions
    {
      && (forall s, t :: s in sessions && t in sessions && s != t ==> s.fd != t.fd)
      && (forall s :: s in sessions && !s.freed ==> Out(s.fd) !in history)
      && (forall h :: h in history ==> exists s :: s in sessions && s.fd == h.fd)
      && Roster.Orderly(history)
    }

    ghost predicate Valid()
      reads this, dss, dss.chain, dss.chain.space, sessions, set s | s in sessions :: s.list
    {
      && Orderly()
      && dss.Attached() && dss.pdi == dss.ult
      && dss.elements == 0  // the count of the main handle is never updated: the sessions update their copies
      && (forall s :: s in sessions ==> Shares(s))
      && (forall s, t :: s in sessions && t in sessions && s != t ==> s.list != t.list)
      && Descriptors(dss.chain.items) == Listed(history)
    }

    /** SERVER_init. */
    constructor ()
      ensures Valid() && dss.chain.items == [] && sessions == {} && history == []
      ensures fresh(dss) && fresh(dss.chain) && fresh(dss.chain.space)
    {
      dss := new Handle.AtEnd();
      sessions, history := {}, [];
    }

    lemma StartsSound(world: P.World)
      requires Valid() && dss.chain.items == [] && sessions == {} && history == []
      ensures Sound(world) && Did(world, [])
    {
    }

    /** What the steps need to know of a valid state. */
    lemma DescriptorsTell()
      requires Valid()
      ensures forall s, t :: s in sessions && t in sessions && s.fd == t.fd ==> s == t
      ensures forall s :: s in sessions ==> (s.freed <==> s.state != 1) && s.input != s.output
    {
    }

    /** No removal through another handle invalidates a running session's handle. */
    lemma RunningIsReady(s: DedicatedServer)
      requires Valid() && s in sessions && !s.freed
      ensures s.Ready()
    {
    }

    /** SERVER_startDS: a new session with a copy of the handle. */
    method StartSession(fd: int, world: P.World, input: Channel, output: Channel) returns (s: DedicatedServer)
      requires Valid() && input != output && forall s :: s in sessions ==> s.fd != fd
      modifies this`sessions
      ensures Valid() && fresh(s) && sessions == old(sessions) + {s} && !s.freed && s.fd == fd
      ensures fresh(s.list) && s.input == input && s.output == output && s.world == world
      ensures dss.chain.items == old(dss.chain.items)
      ensures old(Exact()) ==> Exact()
    {
      hide Chain.Valid, Handle.Anchored, Listed, Descriptors;
      s := new DedicatedServer(fd, world, input, output, dss);
      sessions := sessions + {s};
    }

    lemma StillOrderly(s: DedicatedServer, before: seq<Happened>, noted: Option<P.Event>)
      requires s in sessions && forall t, u :: t in sessions && u in sessions && t != u ==> t.fd != u.fd
      requires forall t :: t in sessions && (t == s || !t.freed) ==> Out(t.fd) !in before
      requires forall h :: h in before ==> exists t :: t in sessions && t.fd == h.fd
      requires Roster.Orderly(before)
      requires history == before + Recorded(noted, s.fd) && (s.freed <==> noted == Some(P.Left))
      ensures Orderly()
    {
      var recorded := Recorded(noted, s.fd);
      assert forall h :: h in history ==> h in before || (recorded != [] && h == recorded[0] && h.fd == s.fd);
      forall i, j | 0 <= i < j < |history| && history[i].Out? ensures history[j].fd != history[i].fd {
        assert history[i] in before;
      }
    }

    /** Exactness lasts as long as no session that is in the list connects again. */
    lemma StillExact(s: DedicatedServer, entries: seq<Entry>, noted: Option<P.Event>)
      requires s in sessions && (s.freed <==> noted == Some(P.Left))
      requires forall e :: e in entries ==>
                 e.dedicated in sessions && (e.dedicated == s || !e.dedicated.freed) && e.dedicated.fd == e.socketfd
                 && e.user == e.dedicated.world.name
      requires forall i, j :: 0 <= i < j < |entries| ==> entries[i].socketfd != entries[j].socketfd
      requires dss.chain.items == Listing(entries, noted, Entry(s.world.name, s.fd, s))
      requires noted.Some? && noted.value.Entered? ==> s.fd !in Descriptors(entries)
      ensures Exact()
    {
      hide Forget;
      if noted.Some? && noted.value.Entered? {
        forall i | 0 <= i < |entries| ensures entries[i].socketfd != s.fd {
          assert Descriptors(entries)[i] == entries[i].socketfd;
        }
      } else if noted == Some(P.Left) {
        ForgetLeavesNone(entries, s.fd);
      }
    }

    lemma OnceBefore(before: seq<Happened>, after: seq<Happened>)
      requires before <= after
      ensures ConnectsOnce(after) ==> ConnectsOnce(before)
    {
      assert forall i :: 0 <= i < |before| ==> before[i] == after[i];
    }

    lemma NotListedYet(before: seq<Happened>, noted: Option<P.Event>, entries: seq<Entry>, fd: int)
      requires Roster.Orderly(before) && Descriptors(entries) == Listed(before)
      requires ConnectsOnce(before + Recorded(noted, fd))
      ensures noted.Some? && noted.value.Entered? ==> fd !in Descriptors(entries)
    {
      if noted.Some? && noted.value.Entered? {
        var h := before + [In(fd)];
        assert h[|before|] == In(fd);
        forall i | 0 <= i < |before| ensures before[i] != In(fd) {
          assert h[i] == before[i];
        }
        EntriesOf(before, fd);
        assert In(fd) !in multiset(before);
      }
    }

    /** Session s takes its turn: one round of its loop. The other sessions' handles stay as good as they were. */
    method Turn(s: DedicatedServer, disk: Disk)
      requires Valid() && s in sessions && !s.freed && CanRead(s.input.bytes)
      modifies this`history, s`state, s`freed, s.input, s.output, s.list`pdi, s.list`elements
      modifies dss.chain, dss.chain.space
      ensures Valid() && fresh(dss.chain.space - old(dss.chain.space))
      ensures var noted := Noted(old(s.input.bytes), disk);
              && dss.chain.items == Listing(old(dss.chain.items), noted, Entry(s.world.name, s.fd, s))
              && history == old(history) + Recorded(noted, s.fd)
              && (s.freed <==> noted == Some(P.Left))
              && s.input.bytes == Read(old(s.input.bytes)).rest
              && s.output.bytes == old(s.output.bytes) + AnswerBytes(s.world, noted)
      ensures old(Exact()) && ConnectsOnce(history) ==> Exact()
    {
      hide Chain.Valid, Handle.Spec, Listed, Listing, Noted, Recorded, Descriptors, AnswerBytes, Read, Roster.Orderly,
        ConnectsOnce;
      ghost var noted, before, entries := Noted(s.input.bytes, disk), history, dss.chain.items;
      ghost var exact := Exact();
      ListingOnDescriptors(dss.chain.items, noted, Entry(s.world.name, s.fd, s), history);
      RunningIsReady(s);
      s.Round(disk);
      history := before + Recorded(noted, s.fd);
      dss.OnRightSentinel();
      StillOrderly(s, before, noted);
      if exact && ConnectsOnce(history) {
        NotListedYet(before, noted, entries, s.fd);
        StillExact(s, entries, noted);
      }
    }

    /** No session writes to, or reads from, the queue of another. */
    ghost predicate Separate()
      reads this
    {
      forall s, t :: s in sessions && t in sessions && s != t ==>
        s.input != t.input && s.output != t.input && s.output != t.output
    }

    ghost function Shown(s: DedicatedServer): Solo
      reads s, s.input, s.output
    {
      Solo(s.input.bytes, s.output.bytes, s.freed)
    }

    /** Each session is as it would be without the others, and the history is what happened. */
    ghost predicate Did(world: P.World, schedule: seq<Step>)
      reads this, sessions, set s | s in sessions :: s.input, set s | s in sessions :: s.output
    {
      && (forall s :: s in sessions ==> Alone(world, schedule, s.fd) == Some(Shown(s)))
      && (forall fd :: Alone(world, schedule, fd).Some? ==> exists s :: s in sessions && s.fd == fd)
      && history == HistoryOf(world, schedule)
    }

    /** What every step keeps. */
    ghost predicate Sound(world: P.World)
      reads this, dss, dss.chain, dss.chain.space, sessions, set s | s in sessions :: s.list
    {
      && Valid() && Separate() && (ConnectsOnce(history) ==> Exact())
      && forall s :: s in sessions ==> s.world == world
    }

    /** A connection is accepted; the kernel hands out a descriptor that is not open, and no session's is closed. */
    method Accept(fd: int, world: P.World, ghost done: seq<Step>)
      requires Sound(world) && Did(world, done)
      modifies this`sessions
      ensures Sound(world) && Did(world, done + [Step.Accept(fd)]) && old(sessions) <= sessions
      ensures forall s :: s in sessions && s !in old(sessions) ==>
                fresh(s) && fresh(s.list) && fresh(s.input) && fresh(s.output)
    {
      hide Valid, Exact, Alone, HistoryOf, ConnectsOnce, CanTurn, Noted, AnswerBytes, Recorded;
      OneMoreStep(world, done, Step.Accept(fd));
      if forall s :: s in sessions ==> s.fd != fd {
        var input := new Channel();
        var output := new Channel();
        var s := StartSession(fd, world, input, output);
      }
    }

    /** Bytes arrive on a connection. */
    method Arrive(fd: int, data: Bytes, world: P.World, ghost done: seq<Step>)
      requires Sound(world) && Did(world, done)
      modifies set s | s in sessions :: s.input
      ensures Sound(world) && Did(world, done + [Step.Arrive(fd, data)])
    {
      hide Valid, Exact, Alone, HistoryOf, ConnectsOnce, CanTurn, Noted, AnswerBytes, Recorded;
      OneMoreStep(world, done, Step.Arrive(fd, data));
      DescriptorsTell();
      if s :| s in sessions && s.fd == fd {
        s.input.Put(data);
      }
      forall s | s in sessions
        ensures Alone(world, done + [Step.Arrive(fd, data)], s.fd) == Some(Shown(s))
      {
        assert Some(old(Shown(s))) == Alone(world, done, s.fd);
      }
    }

    /** A turn, unless the session has ended or has nothing to read. */
    method TurnIfPossible(s: DedicatedServer, disk: Disk)
      requires Valid() && s in sessions
      modifies this`history, s`state, s`freed, s.input, s.output, s.list`pdi, s.list`elements
      modifies dss.chain, dss.chain.space
      ensures Valid() && fresh(dss.chain.space - old(dss.chain.space))
      ensures old(Exact()) && ConnectsOnce(history) ==> Exact()
      ensures var solo, step := Some(old(Shown(s))), Step.Go(s.fd, disk);
              && history == old(history) + Happening(solo, step)
              && Some(Shown(s)) == AfterStep(s.world, solo, step, s.fd)
    {
      hide Valid, Exact, Noted, Listing, Read, AnswerBytes, Recorded, ConnectsOnce;
      DescriptorsTell();
      if s.state == 1 && CanRead(s.input.bytes) {
        Turn(s, disk);
      }
    }

    /** The session of a descriptor takes its turn. */
    method Go(fd: int, disk: Disk, world: P.World, ghost done: seq<Step>)
      requires Sound(world) && Did(world, done)
      modifies this`history, sessions, dss.chain, dss.chain.space
      modifies set s | s in sessions :: s.list, set s | s in sessions :: s.input, set s | s in sessions :: s.output
      ensures dss.chain == old(dss.chain) && fresh(dss.chain.space - old(dss.chain.space))
      ensures Sound(world) && Did(world, done + [Step.Go(fd, disk)])
    {
      hide Valid, Exact, Alone, HistoryOf, AfterStep, Happening, ConnectsOnce;
      OneMoreStep(world, done, Step.Go(fd, disk));
      DescriptorsTell();
      ghost var before := history;
      if s :| s in sessions && s.fd == fd {
        TurnIfPossible(s, disk);
      } else {
        OthersStay(world, None, Step.Go(fd, disk), fd);
      }
      forall t: int, solo | t != fd ensures AfterStep(world, solo, Step.Go(fd, disk), t) == solo {
        OthersStay(world, solo, Step.Go(fd, disk), t);
      }
      forall s | s in sessions
        ensures Alone(world, done + [Step.Go(fd, disk)], s.fd) == Some(Shown(s))
      {
        assert Some(old(Shown(s))) == Alone(world, done, s.fd);
      }
      OnceBefore(before, history);
    }

    /** One step of the server or of one of its sessions. */
    method Take(step: Step, world: P.World, ghost done: seq<Step>)
      requires Sound(world) && Did(world, done)
      modifies this`history, this`sessions, sessions, dss.chain, dss.chain.space
      modifies set s | s in sessions :: s.list, set s | s in sessions :: s.input, set s | s in sessions :: s.output
      ensures Sound(world) && Did(world, done + [step])
      ensures dss.chain == old(dss.chain) && fresh(dss.chain.space - old(dss.chain.space))
      ensures forall s :: s in sessions && s !in old(sessions) ==>
                fresh(s) && fresh(s.list) && fresh(s.input) && fresh(s.output)
    {
      hide Sound, Did;
      match step {
        case Accept(fd) => Accept(fd, world, done);
        case Arrive(fd, data) => Arrive(fd, data, world, done);
        case Go(fd, disk) => Go(fd, disk, world, done);
      }
    }

    lemma SoundIsExactIff(world: P.World)
      requires Sound(world)
      ensures Valid() && Separate() && (ConnectsOnce(history) ==> Exact())
      ensures Descriptors(dss.chain.items) == Connected(history, history) <==> ConnectsOnce(history)
    {
      hide Valid, Exact, ConnectsOnce;
      RosterIsExactIff();
    }

    lemma ExactWithoutFirst(entries: seq<Entry>)
      requires entries != [] && dss.chain.items == entries[1..]
      requires forall e :: e in entries ==>
                 e.dedicated in sessions && e.dedicated.fd == e.socketfd && e.user == e.dedicated.world.name
                 && (e.dedicated == entries[0].dedicated || !e.dedicated.freed)
      requires forall i, j :: 0 <= i < j < |entries| ==> entries[i].socketfd != entries[j].socketfd
      ensures Exact()
    {
      assert forall e :: e in entries[1..] ==> e in entries && e.socketfd != entries[0].socketfd;
    }

    /** What holds at each test of the loop of SERVER_removeAllDS: the list is exact, the cursor is on its first entry,
        and each session has its own copy of the handle. */
    ghost predicate Closing()
      reads this, dss, dss.chain, dss.chain.space, sessions, set s | s in sessions :: s.list
    {
      && dss.Anchored() && Exact()
      && (dss.chain.items != [] ==> dss.Attached() && dss.Spec().at == 0)
      && (forall s :: s in sessions ==> Linked(s))
      && (forall s, t :: s in sessions && t in sessions && s != t ==> s.list != t.list)
    }

    lemma ClosingIsAnchored()
      requires Closing()
      ensures dss.Anchored()
    {
    }

    lemma ClosingTells()
      requires Closing()
      ensures dss.Anchored()
      ensures forall e :: e in dss.chain.items ==> e.dedicated in sessions && !e.dedicated.freed
    {
    }

    /** One round of the loop of SERVER_removeAllDS. */
    method CloseFirst() returns (ghost first: DedicatedServer)
      requires Closing() && dss.chain.items != []
      modifies sessions, set s | s in sessions :: s.output, set s | s in sessions :: s.list
      modifies dss`pdi, dss.chain, dss.chain.space
      ensures Closing() && dss.chain.items == old(dss.chain.items)[1..]
      ensures dss.chain == old(dss.chain) && dss.chain.space == old(dss.chain.space)
      ensures first == old(dss.chain.items)[0].dedicated && first.freed
      ensures forall s :: s in sessions && s != first ==> s.freed == old(s.freed)
      ensures first.output.bytes == old(dss.chain.items[0].dedicated.output.bytes) + GOODBYE
      ensures forall s :: s in sessions && s.output != first.output ==> s.output.bytes == old(s.output.bytes)
      ensures Separate() ==> forall s :: s in sessions && s != first ==> s.output.bytes == old(s.output.bytes)
    {
      hide Chain.Valid, Handle.Anchored, Handle.Spec, Handle.Attached, Forget, Encode;
      ghost var entries := dss.chain.items;
      var ds := dss.Query();
      ForgetFirst(dss.chain.items);
      first := ds.dedicated;
      assert ds == dss.chain.items[0];
      ds.dedicated.state := -1;
      dss.AnchoredTogether(ds.dedicated.list);
      ds.dedicated.Close();
      ds.dedicated.list.AnchoredTogether(dss);
      if !dss.IsEmpty() {
        dss.GoFirst();
      }
      ExactWithoutFirst(entries);
    }

    lemma ExactIsDistinct()
      requires Exact()
      ensures forall e :: e in dss.chain.items ==> e.dedicated in sessions && !e.dedicated.freed
      ensures forall i, j :: 0 <= i < j < |dss.chain.items| ==>
                dss.chain.items[i].dedicated != dss.chain.items[j].dedicated
    {
    }

    /** The loop of SERVER_removeAllDS. */
    method CloseAll() returns (ghost closed: seq<DedicatedServer>)
      requires Closing()
      modifies sessions, set s | s in sessions :: s.output, set s | s in sessions :: s.list
      modifies dss`pdi, dss.chain, dss.chain.space
      ensures dss.Anchored() && dss.chain.items == []
      ensures |closed| == |old(dss.chain.items)|
      ensures forall i :: 0 <= i < |closed| ==> closed[i] == old(dss.chain.items)[i].dedicated && closed[i].freed
      ensures forall s :: s in sessions && s !in closed ==> s.freed == old(s.freed)
      ensures Separate() ==> forall s :: s in sessions ==>
                s.output.bytes == old(s.output.bytes) + if s in closed then GOODBYE else []
    {
      hide Chain.Valid, Handle.Anchored, Encode, Closing, Separate;
      ghost var entries := dss.chain.items;
      ghost var n := 0;
      ClosingTells();
      while !dss.IsEmpty()
        invariant Closing() && dss.Anchored() && dss.chain == old(dss.chain) && dss.chain.space == old(dss.chain.space)
        invariant n <= |entries| && dss.chain.items == entries[n..]
        invariant forall i :: 0 <= i < n ==> entries[i].dedicated.freed
        invariant forall s :: s in sessions && s.freed != old(s.freed) ==>
                    exists i :: 0 <= i < n && entries[i].dedicated == s
        invariant Separate() ==> forall s :: s in sessions ==>
                    s.output.bytes == old(s.output.bytes) + if s.freed == old(s.freed) then [] else GOODBYE
        decreases |dss.chain.items|
      {
        ghost var e := entries[n];
        assert e == dss.chain.items[0];
        ClosingTells();
        assert e.dedicated.freed == old(e.dedicated.freed);
        ghost var first := CloseFirst();
        ClosingIsAnchored();
        n := n + 1;
      }
      closed := seq(n, i requires 0 <= i < n => entries[i].dedicated);
    }

    /** SERVER_removeAllDS: the listed sessions are closed, each once, in the order of the list, and then the
        list itself is freed. */
    method RemoveAll() returns (ghost closed: seq<DedicatedServer>, ghost nodes: seq<Node<Entry>>)
      requires Valid() && Exact()
      modifies sessions, set s | s in sessions :: s.output, set s | s in sessions :: s.list
      modifies dss, dss.chain, dss.chain.space
      ensures |closed| == |old(dss.chain.items)|
      ensures forall i :: 0 <= i < |closed| ==> closed[i] == old(dss.chain.items)[i].dedicated
      ensures forall i, j :: 0 <= i < j < |closed| ==> closed[i] != closed[j]
      ensures forall s :: s in closed ==> s in sessions && !old(s.freed) && s.freed
      ensures forall s :: s in sessions && s !in closed ==> s.freed == old(s.freed)
      ensures Separate() ==> forall s :: s in sessions ==>
                s.output.bytes == old(s.output.bytes) + if s in closed then GOODBYE else []
      ensures |nodes| == 2 && dss.pri == null && dss.ult == null && dss.pdi == null
    {
      hide Chain.Valid, Handle.Anchored, Handle.Attached, Handle.Spec, Exact, Descriptors, Listed, Orderly;
      closed := [];
      ExactIsDistinct();
      if !dss.IsEmpty() {
        dss.GoFirst();
        closed := CloseAll();
      }
      nodes := dss.Destroy();
    }

    /** Over every interleaving of the sessions: the shared list holds exactly the sessions that have connected
        and not ended, in the order in which they connected, if and only if none has connected twice. */
    lemma RosterIsExactIff()
      requires Valid()
      ensures Descriptors(dss.chain.items) == Connected(history, history) <==> ConnectsOnce(history)
    {
      ListedIsConnectedIff(history);
    }
  }

  // ----- the main server over a whole run

  /** SERVER_operate and the threads that it starts, in any interleaving. Each session does what it would do without
      the others. The shared list holds exactly the sessions that have connected and not ended, in the order in which
      they connected, if and only if none has connected twice; that cannot happen when each stream holds one connect
      request at most. */
  method Serve(schedule: seq<Step>, world: P.World) returns (server: Server)
    ensures server.Valid() && server.Separate()
    ensures fresh(server) && fresh(server.dss) && fresh(server.dss.chain) && fresh(server.dss.chain.space)
    ensures forall s :: s in server.sessions ==> fresh(s) && fresh(s.list) && fresh(s.input) && fresh(s.output)
    ensures server.Did(world, schedule)
    ensures Descriptors(server.dss.chain.items) == Connected(server.history, server.history)
            <==> ConnectsOnce(server.history)
    ensures ConnectsOnce(server.history) ==> server.Exact()
    ensures OneConnectPerStream(schedule) ==> ConnectsOnce(server.history)
  {
    hide Server.Sound, OneConnectPerStream, ConnectsOnce, Connected, Descriptors, Alone, HistoryOf;
    server := new Server();
    server.StartsSound(world);
    var i := 0;
    while i < |schedule|
      invariant 0 <= i <= |schedule| && server.Sound(world)
      invariant fresh(server) && fresh(server.dss) && fresh(server.dss.chain) && fresh(server.dss.chain.space)
      invariant forall s :: s in server.sessions ==> fresh(s) && fresh(s.list) && fresh(s.input) && fresh(s.output)
      invariant server.Did(world, schedule[..i])
    {
      server.Take(schedule[i], world, schedule[..i]);
      assert schedule[..i + 1] == schedule[..i] + [schedule[i]];
      i := i + 1;
    }
    assert schedule[..i] == schedule;
    server.SoundIsExactIff(world);
    if OneConnectPerStream(schedule) {
      OneEachIsOnce(world, schedule);
    }
  }
}
